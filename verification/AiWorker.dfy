/** One request at a time to a child process over its standard streams, with a retry in a fresh process:
    internal/aiworker/worker.go. A process answers the lines of its input as ai/worker_protocol.py reads
    them; when it stops answering, and which bytes get through, is given from outside. */
module AiWorker {
  import opened Strings
  import opened Lines
  import opened Framing

  // ----- reading a response

  // The size of the buffer of bufio.NewReader.
  const BUFFER: nat := 4096

  datatype ReadResult = Line(text: string) | Overlong | Ended

  function Min(a: nat, b: nat): nat {
    if a <= b then a else b
  }

  /** How far an oversized line is read: to the end of the buffer in which the limit is passed. */
  function Reach(limit: nat): nat {
    ((limit + 1) / BUFFER + 1) * BUFFER
  }

  /** What reading a line must give, in terms of the line alone. */
  function LineRead(limit: nat, s: string): ReadResult {
    var line := FirstLine(s);
    if |line| > limit + 1 then Overlong else if Terminated(line) then Line(Stripped(line)) else Ended
  }

  function BytesTaken(limit: nat, s: string): (n: nat)
    ensures n <= |s|
  {
    if |FirstLine(s)| > limit + 1 then Min(|FirstLine(s)|, Reach(limit)) else |FirstLine(s)|
  }

  /** The bytes of s come in pieces no longer than the buffer; nothing follows them. */
  method ReadLine(limit: nat, s: string) returns (r: ReadResult, taken: nat)
    ensures r == LineRead(limit, s) && taken == BytesTaken(limit, s)
  {
    hide FirstLine, Terminated, Stripped, Read;
    var line := "";
    taken := 0;
    assert !Terminated("") by { NothingTerminated(); }
    while true
      invariant taken <= |FirstLine(s)| && line == s[..taken] && taken <= limit + 1 && taken % BUFFER == 0
      invariant taken == |FirstLine(s)| ==> !Terminated(FirstLine(s))
      decreases |s| - taken
    {
      var fragment := Read(s[taken..], BUFFER);
      if taken < |FirstLine(s)| {
        DrainStep(s, taken, BUFFER);
      } else {
        NothingToRead(s);
      }
      ghost var before := taken;
      taken := taken + |fragment|;
      if |line| + |fragment| > limit + 1 {
        ReachMeaning(limit, before, |fragment|, |FirstLine(s)|);
        return Overlong, taken;
      }
      Appended(s, before, fragment);
      line := line + fragment;
      if Terminated(fragment) {
        assert line == FirstLine(s);
        TrimmedFits(line, limit);
        line := Strip(line);
        if |line| > limit {
          return Overlong, taken;
        }
        return Line(line), taken;
      }
      if |fragment| < BUFFER {
        return Ended, taken;
      }
    }
  }

  lemma NothingTerminated()
    ensures !Terminated("")
  {
  }

  lemma NothingToRead(s: string)
    requires !Terminated(FirstLine(s))
    ensures Read(s[|FirstLine(s)|..], BUFFER) == "" && !Terminated("")
  {
  }

  lemma ReachMeaning(limit: nat, before: nat, more: nat, length: nat)
    requires before % BUFFER == 0 && before <= limit + 1 < before + more && before <= length
    requires more == if before + BUFFER <= length then BUFFER else length - before
    ensures length > limit + 1 && before + more == Min(length, Reach(limit))
  {
    assert (limit + 1) / BUFFER * BUFFER <= limit + 1;
  }

  lemma Appended(s: string, before: nat, fragment: string)
    requires before <= |FirstLine(s)| && fragment == Read(s[before..], BUFFER)
    ensures before + |fragment| <= |s| && s[..before] + fragment == s[..before + |fragment|]
    ensures before + |fragment| == |FirstLine(s)| ==> s[..before + |fragment|] == FirstLine(s)
  {
    hide FirstLine, Read;
    ReadIsPrefix(s[before..]);
  }

  lemma ReadIsPrefix(s: string)
    ensures |Read(s, BUFFER)| <= |s| && Read(s, BUFFER) == s[..|Read(s, BUFFER)|]
  {
  }

  /** The second check of the size is never needed: what fits with its newline fits without it. */
  lemma TrimmedFits(line: string, limit: nat)
    requires Terminated(line) && |line| <= limit + 1
    ensures |Stripped(line)| <= limit
  {
  }

  /** A response is accepted up to the limit, except that a carriage return before the newline counts. */
  lemma AcceptedSizes(limit: nat, text: string, rest: string)
    requires '\n' !in text && (text == "" || text[|text| - 1] != '\r')
    ensures LineRead(limit, text + "\n" + rest) == if |text| <= limit then Line(text) else Overlong
    ensures LineRead(limit, text + "\r\n" + rest) == if |text| + 1 <= limit then Line(text) else Overlong
  {
    hide Stripped, LineRead;
    LineReadOfLine(limit, text, rest);
    LineReadOfLine(limit, text + "\r", rest);
    assert text + "\r" + "\n" == text + "\r\n";
    StrippedText(text);
    assert Stripped(text + "\r\n") == text by {
      hide *;
      StrippedReturn(text);
    }
  }

  lemma StrippedReturn(text: string)
    ensures Stripped(text + "\r\n") == text
  {
    assert (text + "\r\n")[..|text|] == text;
  }

  lemma LineReadOfLine(limit: nat, text: string, rest: string)
    requires '\n' !in text
    ensures LineRead(limit, text + "\n" + rest) == if |text| <= limit then Line(Stripped(text + "\n")) else Overlong
  {
    var s := text + "\n" + rest;
    forall i | 0 <= i < |text|
      ensures s[i] != '\n'
    {
      assert s[i] == text[i];
      assert text[i] in text;
    }
    FirstLineIs(s, |text| + 1);
    assert s[..|text| + 1] == text + "\n";
  }

  // ----- the child process

  /** What the worker and its child are set up with: limits, what decoding makes of the bytes of a request,
      and which responses are JSON that the caller's target takes. */
  datatype Settings = Settings(
    maxRequest: nat, maxResponse: nat, childMax: nat,
    decodeText: string -> Option<string>, decodes: string -> bool)

  /** A child: how it answers, given all it was asked so far; all that was written to it; how much of its
      output was read; and, once its output has ended, what of it can still be read. */
  datatype Process = Process(reply: seq<Item> -> string, input: string, taken: nat, ended: Option<string>)

  /** The part of the input that consists of whole lines. */
  function WholePart(s: string): string {
    if Whole(s) then s else WholePart(s[..|s| - 1])
  }

  /** It is what stands up to the last newline: the child waits for the rest of a line. */
  lemma {:induction false} WholePartMeaning(s: string)
    ensures var r := WholePart(s);
            Whole(r) && r <= s && forall i :: |r| <= i < |s| ==> s[i] != '\n'
  {
    if !Whole(s) {
      WholePartMeaning(s[..|s| - 1]);
      assert forall i :: 0 <= i < |s| - 1 ==> s[..|s| - 1][i] == s[i];
    }
  }

  function Asked(w: Settings, p: Process): seq<Item> {
    Items(w.childMax, w.decodeText, Split(WholePart(p.input)))
  }

  /** One line for each request. */
  function Output(reply: seq<Item> -> string, asked: seq<Item>): string {
    if asked == [] then "" else Output(reply, asked[..|asked| - 1]) + reply(asked) + "\n"
  }

  function Unread(w: Settings, p: Process): string {
    var all := Output(p.reply, Asked(w, p));
    if p.taken <= |all| then all[p.taken..] else ""
  }

  ghost predicate OneLineEach(reply: seq<Item> -> string) {
    forall asked :: '\n' !in reply(asked)
  }

  /** No request that is unanswered, in part or in whole, and no output that is unread. */
  ghost predicate Clean(w: Settings, p: Process) {
    Whole(p.input) && p.taken == |Output(p.reply, Asked(w, p))|
  }

  /** Nothing can be read that would pass for an answer to an earlier request: nothing at all, or no whole
      line any more. */
  ghost predicate Paired(w: Settings, p: Process) {
    OneLineEach(p.reply) && if p.ended.Some? then '\n' !in p.ended.value else Clean(w, p)
  }

  function NewProcess(reply: seq<Item> -> string): Process {
    Process(reply, "", 0, None)
  }

  lemma NewIsPaired(w: Settings, reply: seq<Item> -> string)
    requires OneLineEach(reply)
    ensures Paired(w, NewProcess(reply)) && Asked(w, NewProcess(reply)) == []
  {
  }

  // ----- one exchange

  /** Starting a child, and before that stopping the one there was. */
  datatype Launch = Launch(stops: bool, starts: bool, reply: seq<Item> -> string)

  /** How one attempt goes: how many bytes of the request are written, whether the deadline comes before
      the response, how much of the unread output arrives before it ends, whether the deadline has passed
      when a failure is looked at, and how a restart would go. */
  datatype Attempt = Attempt(written: nat, deadlineFirst: bool, delivered: nat, expired: bool, restart: Launch)

  datatype Outcome = Answered(answer: string) | WriteFailed | ReadFailed(how: ReadResult) | NotDecoded | TimedOut

  function Available(w: Settings, p: Process, delivered: nat): string {
    if p.ended.Some? then p.ended.value else Unread(w, p)[..Min(delivered, |Unread(w, p)|)]
  }

  /** Writing a request and reading a line, as far as the deadline does not interfere. */
  function Exchange(w: Settings, p: Process, request: string, a: Attempt): (Process, Outcome) {
    if a.written <= |request| then
      (p.(input := p.input + request[..a.written]), WriteFailed)
    else
      var q := p.(input := p.input + (request + "\n"));
      var s := Available(w, q, a.delivered);
      var r, n := LineRead(w.maxResponse, s), BytesTaken(w.maxResponse, s);
      var over := q.ended.Some? || a.delivered < |Unread(w, q)| || r.Ended?;
      var read := q.(taken := q.taken + n, ended := if over then Some(s[n..]) else None);
      if !r.Line? then (read, ReadFailed(r))
      else if w.decodes(r.text) then (read, Answered(r.text))
      else (read, NotDecoded)
  }

  /** The response that belongs to a request: what the process says when it is asked that after all it was
      asked before. */
  function ReplyTo(w: Settings, p: Process, request: string): string {
    p.reply(Asked(w, p) + [ItemFor(w.childMax, w.decodeText, request)])
  }

  lemma WholePartOfWhole(s: string)
    requires Whole(s)
    ensures WholePart(s) == s
  {
  }

  lemma AskedNext(w: Settings, p: Process, request: string)
    requires Whole(p.input) && Sendable(request)
    ensures var q := p.(input := p.input + (request + "\n"));
            Whole(q.input) && Asked(w, q) == Asked(w, p) + [ItemFor(w.childMax, w.decodeText, request)]
  {
    hide Whole, WholePart, Split, Items, ItemFor, Stripped;
    var line := request + "\n";
    SplitOne(request);
    StrippedText(request);
    WholeAppend(p.input, line);
    WholePartOfWhole(p.input);
    WholePartOfWhole(p.input + line);
    SplitAppend(p.input, line);
    ItemsAppend(w.childMax, w.decodeText, Split(p.input), line);
  }

  lemma {:induction false} ItemsAppend(max: nat, decode: string -> Option<string>, lines: seq<string>, line: string)
    ensures Items(max, decode, lines + [line]) == Items(max, decode, lines) + [ItemOf(max, decode, line)]
  {
    hide ItemOf;
    if lines == [] {
      assert lines + [line] == [line];
      assert [line][1..] == [];
    } else {
      ItemsAppend(max, decode, lines[1..], line);
      assert (lines + [line])[1..] == lines[1..] + [line];
    }
  }

  /** Once a request is written, its response is all that is unread. */
  lemma UnreadIsReply(w: Settings, p: Process, request: string)
    requires Clean(w, p) && Sendable(request)
    ensures var q := p.(input := p.input + (request + "\n"));
            Unread(w, q) == ReplyTo(w, p, request) + "\n"
            && |Output(q.reply, Asked(w, q))| == q.taken + |Unread(w, q)| && Whole(q.input)
  {
    hide Asked, Whole, ItemFor;
    AskedNext(w, p, request);
    var before, asked := Asked(w, p), Asked(w, p) + [ItemFor(w.childMax, w.decodeText, request)];
    assert asked[..|asked| - 1] == before;
    OutputTail(Output(p.reply, before), p.reply(asked));
  }

  lemma OutputTail(all: string, reply: string)
    ensures (all + reply + "\n")[|all|..] == reply + "\n"
  {
  }

  /** Reading from a response that arrives up to its first m bytes. */
  lemma ReadReply(w: Settings, reply: string, m: nat)
    requires '\n' !in reply && m <= |reply| + 1
    ensures var s := (reply + "\n")[..m];
            FirstLine(s) == s && (Terminated(s) <==> m == |reply| + 1) && |s| == m
  {
    var s := (reply + "\n")[..m];
    forall i | 0 <= i < |reply| && i < m
      ensures s[i] == reply[i] && s[i] != '\n'
    {
      assert reply[i] in reply;
    }
    FirstLineIs(s, m);
    assert s[..m] == s;
  }

  // ----- what an exchange does

  /** The attempt is answered: everything gets through, in time, within the limit, and decodes. */
  ghost predicate Answers(w: Settings, p: Process, request: string, a: Attempt) {
    var reply := ReplyTo(w, p, request);
    p.ended.None? && a.written > |request| && !a.deadlineFirst && |reply| <= w.maxResponse && a.delivered > |reply|
    && w.decodes(Stripped(reply + "\n"))
  }

  /** The attempt leaves something behind: a request that is written in part, or the end of a response that
      arrives whole but is longer than is read of it. */
  ghost predicate Strands(w: Settings, p: Process, request: string, a: Attempt) {
    p.ended.None?
    && if a.written <= |request| then a.written > 0
       else
         var n := |ReplyTo(w, p, request)| + 1;
         n > Reach(w.maxResponse) && a.delivered >= n
  }

  lemma ExchangeMeaning(w: Settings, p: Process, request: string, a: Attempt)
    requires Paired(w, p) && Sendable(request) && !(a.written > |request| && a.deadlineFirst)
    ensures var (q, outcome) := Exchange(w, p, request, a);
            && (outcome.Answered? <==> Answers(w, p, request, a))
            && (outcome.Answered? ==> outcome.answer == Stripped(ReplyTo(w, p, request) + "\n"))
            && (outcome.Answered? ==> Clean(w, q) && Asked(w, q) == Asked(w, p) + [ItemFor(w.childMax, w.decodeText, request)])
            && (Paired(w, q) <==> !Strands(w, p, request, a))
            && q.reply == p.reply
  {
    if a.written <= |request| {
      WriteCut(w, p, request, a);
    } else if p.ended.Some? {
      EndedStays(w, p, request, a);
    } else {
      ReadOut(w, p, request, a);
    }
  }

  lemma WriteCut(w: Settings, p: Process, request: string, a: Attempt)
    requires Paired(w, p) && Sendable(request) && a.written <= |request|
    ensures var (q, outcome) := Exchange(w, p, request, a);
            outcome == WriteFailed && q.reply == p.reply && (Paired(w, q) <==> p.ended.Some? || a.written == 0)
  {
    hide Asked, Output, OneLineEach;
    var input := p.input + request[..a.written];
    if a.written == 0 {
      assert input == p.input;
    } else {
      assert input[|input| - 1] == request[a.written - 1];
      assert request[a.written - 1] in request;
      assert !Whole(input);
    }
  }

  lemma EndedStays(w: Settings, p: Process, request: string, a: Attempt)
    requires Paired(w, p) && p.ended.Some? && a.written > |request|
    ensures var (q, outcome) := Exchange(w, p, request, a);
            outcome.ReadFailed? && q.reply == p.reply && Paired(w, q)
  {
    hide Asked, Output, OneLineEach, Unread, Reach, Stripped, FirstLine;
    NoLineWithin(p.ended.value);
  }

  lemma NoLineWithin(s: string)
    requires '\n' !in s
    ensures FirstLine(s) == s && !Terminated(s)
  {
    forall i | 0 <= i < |s|
      ensures s[i] != '\n'
    {
      assert s[i] in s;
    }
    FirstLineIs(s, |s|);
    assert s[..|s|] == s;
  }

  lemma ReachIsBeyond(limit: nat)
    ensures Reach(limit) > limit + 1
  {
  }

  /** What is not yet read of a response that does not arrive whole. */
  lemma CutReply(reply: string, m: nat, n: nat)
    requires '\n' !in reply && n <= m <= |reply|
    ensures '\n' !in (reply + "\n")[..m][n..]
  {
    var rest := (reply + "\n")[..m][n..];
    forall i | 0 <= i < |rest|
      ensures rest[i] != '\n'
    {
      assert rest[i] == reply[n + i];
      assert reply[n + i] in reply;
    }
  }

  lemma ReadOut(w: Settings, p: Process, request: string, a: Attempt)
    requires Paired(w, p) && p.ended.None? && Sendable(request) && a.written > |request| && !a.deadlineFirst
    ensures var (q, outcome) := Exchange(w, p, request, a);
            && (outcome.Answered? <==> Answers(w, p, request, a))
            && (outcome.Answered? ==> outcome.answer == Stripped(ReplyTo(w, p, request) + "\n"))
            && (outcome.Answered? ==> Clean(w, q) && Asked(w, q) == Asked(w, p) + [ItemFor(w.childMax, w.decodeText, request)])
            && (Paired(w, q) <==> !Strands(w, p, request, a))
            && q.reply == p.reply
  {
    hide Asked, Output, OneLineEach, Unread, Whole, FirstLine, Terminated, Stripped, Reach, ReplyTo, ItemFor, Sendable;
    var reply := ReplyTo(w, p, request);
    var q := p.(input := p.input + (request + "\n"));
    assert '\n' !in reply by { ReplyIsOneLine(w, p, request); }
    UnreadIsReply(w, p, request);
    assert Asked(w, q) == Asked(w, p) + [ItemFor(w.childMax, w.decodeText, request)] by { AskedNext(w, p, request); }
    var m := Min(a.delivered, |reply| + 1);
    ReadReply(w, reply, m);
    var s := Available(w, q, a.delivered);
    assert s == (reply + "\n")[..m];
    var after := Exchange(w, p, request, a).0;
    assert after.input == q.input && after.taken == q.taken + BytesTaken(w.maxResponse, s);
    SameAsked(w, q, after);
    ReachIsBeyond(w.maxResponse);
    if m == |reply| + 1 {
      assert s == reply + "\n";
    } else {
      CutReply(reply, m, BytesTaken(w.maxResponse, s));
    }
  }

  lemma SameAsked(w: Settings, p: Process, q: Process)
    requires p.input == q.input
    ensures Asked(w, p) == Asked(w, q)
  {
  }

  lemma ReplyIsOneLine(w: Settings, p: Process, request: string)
    requires OneLineEach(p.reply)
    ensures '\n' !in ReplyTo(w, p, request)
  {
  }

  // ----- why the restart matters

  /** An oversized response that is longer than one look, and after which nothing is restarted. */
  ghost predicate LeavesTail(w: Settings, p: Process, request: string, a: Attempt) {
    var reply, reach := ReplyTo(w, p, request), Reach(w.maxResponse);
    && p.ended.None? && a.written > |request| && a.delivered > |reply|
    && w.maxResponse < |reply| && reach <= |reply| <= reach + w.maxResponse
  }

  lemma TailIsUnread(w: Settings, p: Process, request: string, a: Attempt, next: string)
    requires Paired(w, p) && Sendable(request) && Sendable(next) && LeavesTail(w, p, request, a)
    ensures var q := Exchange(w, p, request, a).0;
            var q2 := q.(input := q.input + (next + "\n"));
            Exchange(w, p, request, a).1 == ReadFailed(Overlong)
            && q.ended.None? && q.reply == p.reply && Whole(q.input)
            && Asked(w, q) == Asked(w, p) + [ItemFor(w.childMax, w.decodeText, request)]
            && Unread(w, q2) == ReplyTo(w, p, request)[Reach(w.maxResponse)..] + "\n" + (ReplyTo(w, q, next) + "\n")
  {
    hide Asked, OneLineEach, Whole, FirstLine, Terminated, Stripped, ItemFor, Sendable, Unread, Output, ReplyTo;
    var reply, reach := ReplyTo(w, p, request), Reach(w.maxResponse);
    var q0 := p.(input := p.input + (request + "\n"));
    assert '\n' !in reply by { ReplyIsOneLine(w, p, request); }
    UnreadIsReply(w, p, request);
    AskedNext(w, p, request);
    ReadReply(w, reply, |reply| + 1);
    assert Available(w, q0, a.delivered) == (reply + "\n")[..|reply| + 1];
    var q := Exchange(w, p, request, a).0;
    assert q.input == q0.input && q.taken == q0.taken + reach;
    SameAsked(w, q0, q);
    AskedNext(w, q, next);
    TailOfOutput(w, p, q, request, next);
  }

  lemma TailOfOutput(w: Settings, p: Process, q: Process, request: string, next: string)
    requires Clean(w, p) && q.reply == p.reply && Reach(w.maxResponse) <= |ReplyTo(w, p, request)| && q.taken == p.taken + Reach(w.maxResponse)
    requires Asked(w, q) == Asked(w, p) + [ItemFor(w.childMax, w.decodeText, request)]
    requires Asked(w, q.(input := q.input + (next + "\n"))) == Asked(w, q) + [ItemFor(w.childMax, w.decodeText, next)]
    ensures Unread(w, q.(input := q.input + (next + "\n")))
         == ReplyTo(w, p, request)[Reach(w.maxResponse)..] + "\n" + (ReplyTo(w, q, next) + "\n")
  {
    hide Asked, Whole, ItemFor, Reach;
    var reach := Reach(w.maxResponse);
    var a0 := Asked(w, p);
    var a1 := a0 + [ItemFor(w.childMax, w.decodeText, request)];
    var a2 := a1 + [ItemFor(w.childMax, w.decodeText, next)];
    assert a1[..|a1| - 1] == a0 && a2[..|a2| - 1] == a1;
    DropInto(Output(p.reply, a0), p.reply(a1), p.reply(a2) + "\n", reach);
    assert Output(p.reply, a2) == Output(p.reply, a0) + p.reply(a1) + "\n" + (p.reply(a2) + "\n");
  }

  lemma DropInto(all: string, first: string, second: string, n: nat)
    requires n <= |first|
    ensures (all + first + "\n" + second)[|all| + n..] == first[n..] + "\n" + second
  {
  }

  /** Without a restart the next request, whatever it is, is answered with the tail of that response. */
  lemma StaleAnswer(w: Settings, p: Process, request: string, a: Attempt, next: string, b: Attempt)
    requires Paired(w, p) && Sendable(request) && Sendable(next) && LeavesTail(w, p, request, a)
    requires b.written > |next| && b.delivered > |ReplyTo(w, p, request)|
    requires w.decodes(Stripped(ReplyTo(w, p, request)[Reach(w.maxResponse)..] + "\n"))
    ensures var q := Exchange(w, p, request, a).0;
            Exchange(w, q, next, b).1 == Answered(Stripped(ReplyTo(w, p, request)[Reach(w.maxResponse)..] + "\n"))
  {
    hide Asked, OneLineEach, Whole, FirstLine, Terminated, Stripped, ItemFor, Sendable, Unread, Output, ReplyTo, Clean, LineRead;
    TailIsUnread(w, p, request, a, next);
    var reply := ReplyTo(w, p, request);
    var tail := reply[Reach(w.maxResponse)..];
    var q := Exchange(w, p, request, a).0;
    var q2 := q.(input := q.input + (next + "\n"));
    var rest := ReplyTo(w, q, next) + "\n";
    assert '\n' !in tail by { ReplyIsOneLine(w, p, request); }
    var s := Available(w, q2, b.delivered);
    var m := Min(b.delivered, |tail| + 1 + |rest|);
    assert m > |tail|;
    TakeInto(tail, rest, m);
    LineReadOfLine(w.maxResponse, tail, rest[..m - |tail| - 1]);
  }

  lemma TakeInto(tail: string, rest: string, m: nat)
    requires |tail| < m <= |tail| + 1 + |rest|
    ensures (tail + "\n" + rest)[..m] == tail + "\n" + rest[..m - |tail| - 1]
  {
  }

  /** A child whose first answer is 5000 bytes long and whose second is one. */
  ghost predicate TalksTooMuch(reply: seq<Item> -> string, long: string) {
    && |long| == 5000 && (forall i :: 0 <= i < |long| ==> long[i] == 'x')
    && forall asked :: reply(asked) == if |asked| == 1 then long else "y"
  }

  lemma StaleAnswerDiffers(w: Settings, long: string, p: Process, a: Attempt)
    requires TalksTooMuch(p.reply, long) && p == NewProcess(p.reply)
    requires w.maxResponse == 4000 && forall s :: w.decodes(s)
    requires a.written == 2 && a.delivered == 5001
    ensures Paired(w, p) && Strands(w, p, "a", a)
    ensures var q := Exchange(w, p, "a", a).0;
            Exchange(w, q, "b", a).1.Answered? && Exchange(w, q, "b", a).1.answer != Stripped(ReplyTo(w, q, "b") + "\n")
  {
    hide Asked, Paired, Stripped, ItemFor, Unread, Output, Clean, LineRead, Exchange, Items;
    NewIsPaired(w, p.reply);
    assert ReplyTo(w, p, "a") == long;
    assert LeavesTail(w, p, "a", a);
    TailIsUnread(w, p, "a", a, "b");
    StaleAnswer(w, p, "a", a, "b", a);
    assert ReplyTo(w, Exchange(w, p, "a", a).0, "b") == "y";
    TailDiffers(long);
  }

  /** Such a child exists: the second of these two requests gets an answer that is not its own. */
  lemma UnpairedWithoutRestart() returns (w: Settings, p: Process, a: Attempt)
    ensures Paired(w, p) && a.expired && Strands(w, p, "a", a)
    ensures var q := Exchange(w, p, "a", a).0;
            Exchange(w, q, "b", a).1.Answered? && Exchange(w, q, "b", a).1.answer != Stripped(ReplyTo(w, q, "b") + "\n")
  {
    hide Paired, Strands, Exchange, Stripped, ReplyTo;
    var long := seq(5000, _ => 'x');
    var reply := (asked: seq<Item>) => if |asked| == 1 then long else "y";
    w := Settings(8192, 4000, 8192, s => Some(s), s => true);
    p := NewProcess(reply);
    a := Attempt(2, false, 5001, true, Launch(true, true, reply));
    StaleAnswerDiffers(w, long, p, a);
  }

  lemma TailDiffers(long: string)
    requires |long| == 5000 && forall i :: 0 <= i < |long| ==> long[i] == 'x'
    ensures Stripped(long[4096..] + "\n") != Stripped("y" + "\n")
  {
    hide Stripped;
    StrippedText(long[4096..]);
    StrippedText("y");
  }

  // ----- the worker

  datatype Reason =
    | BadTarget | EmptyRequest | TooLong | HasNewline | NotAdmitted | Closed | NotStarted
    | Expired | RestartFailed | FailedTwice

  datatype Response = Ok(answer: string) | Err(reason: Reason)

  /** How a whole call goes: whether the caller's target can be decoded into, whether the token was got in
      time, how the child is started if there is none, and the two attempts. */
  datatype Course = Course(target: bool, admitted: bool, start: Launch, first: Attempt, second: Attempt)

  ghost predicate KeepsProtocol(c: Course) {
    OneLineEach(c.start.reply) && OneLineEach(c.first.restart.reply) && OneLineEach(c.second.restart.reply)
  }

  /** The deadline has passed once an attempt has failed. */
  predicate OutOfTime(request: string, a: Attempt) {
    a.expired || (a.written > |request| && a.deadlineFirst)
  }

  /** A failed attempt is followed by another one. */
  predicate Retries(request: string, a: Attempt) {
    !OutOfTime(request, a) && a.restart.starts && a.restart.stops
  }

  /** The error of an attempt that failed and is not followed by another. */
  function WhyNot(request: string, a: Attempt): Reason {
    if OutOfTime(request, a) then Expired else RestartFailed
  }

  /** A failed attempt is not followed by a restart, although there is something to clear. */
  ghost predicate Abandons(w: Settings, p: Process, request: string, a: Attempt) {
    a.expired && !(a.written > |request| && a.deadlineFirst) && Strands(w, p, request, a)
  }

  /** The first reason not to send a request at all. */
  function Refusal(w: Settings, request: string, c: Course, closed: bool, running: bool): Option<Reason> {
    if !c.target then Some(BadTarget)
    else if request == "" then Some(EmptyRequest)
    else if |request| > w.maxRequest then Some(TooLong)
    else if '\r' in request || '\n' in request then Some(HasNewline)
    else if !c.admitted then Some(NotAdmitted)
    else if closed then Some(Closed)
    else if !running && !c.start.starts then Some(NotStarted)
    else None
  }

  class Worker {
    const w: Settings
    var proc: Option<Process>
    var closed: bool

    /** What holds of the current child whenever nobody holds the token. */
    ghost predicate PairedNow()
      reads this
    {
      proc.Some? ==> Paired(w, proc.value)
    }

    constructor (w: Settings, launch: Launch)
      requires OneLineEach(launch.reply)
      ensures this.w == w && !closed && PairedNow()
      ensures proc == if launch.starts then Some(NewProcess(launch.reply)) else None
    {
      this.w := w;
      closed := false;
      proc := if launch.starts then Some(NewProcess(launch.reply)) else None;
      new;
      NewIsPaired(w, launch.reply);
    }

    method Start(launch: Launch) returns (ok: bool)
      modifies this`proc
      ensures ok == launch.starts
      ensures proc == if launch.starts then Some(NewProcess(launch.reply)) else old(proc)
    {
      if !launch.starts {
        return false;
      }
      proc := Some(NewProcess(launch.reply));
      ok := true;
    }

    method Stop(launch: Launch) returns (ok: bool)
      modifies this`proc
      ensures proc == None && ok == (old(proc).None? || launch.stops)
    {
      ok := proc.None? || launch.stops;
      proc := None;
    }

    method Restart(launch: Launch) returns (ok: bool)
      requires proc.Some?
      modifies this`proc
      ensures ok == (launch.starts && launch.stops)
      ensures proc == if launch.starts then Some(NewProcess(launch.reply)) else None
    {
      var stopped := Stop(launch);
      var started := Start(launch);
      ok := started && stopped;
    }

    method RequestOnce(request: string, a: Attempt) returns (outcome: Outcome)
      requires proc.Some?
      modifies this`proc
      ensures a.written > |request| && a.deadlineFirst ==>
                outcome == TimedOut && proc == if a.restart.starts then Some(NewProcess(a.restart.reply)) else None
      ensures !(a.written > |request| && a.deadlineFirst) ==>
                proc.Some? && (proc.value, outcome) == Exchange(w, old(proc).value, request, a)
    {
      hide Available, LineRead, BytesTaken, Asked, Output;
      var p := proc.value;
      if a.written <= |request| {
        proc := Some(p.(input := p.input + request[..a.written]));
        return WriteFailed;
      }
      p := p.(input := p.input + (request + "\n"));
      if a.deadlineFirst {
        var _ := Stop(a.restart);
        var _ := Start(a.restart);
        return TimedOut;
      }
      var s := Available(w, p, a.delivered);
      var r, n := ReadLine(w.maxResponse, s);
      var over := p.ended.Some? || a.delivered < |Unread(w, p)| || r.Ended?;
      proc := Some(p.(taken := p.taken + n, ended := if over then Some(s[n..]) else None));
      if !r.Line? {
        return ReadFailed(r);
      }
      outcome := if w.decodes(r.text) then Answered(r.text) else NotDecoded;
    }

    /** One attempt and what follows it. The child is left with something to clear exactly when the
        deadline passes between the failure of a read or a write and the look at it. */
    method Attempted(request: string, a: Attempt) returns (outcome: Outcome, retry: bool, reason: Reason)
      requires proc.Some? && Sendable(request) && OneLineEach(a.restart.reply)
      modifies this`proc
      ensures old(PairedNow()) ==>
                && (outcome.Answered? <==> Answers(w, old(proc).value, request, a))
                && (outcome.Answered? ==> proc.Some? && Answer(w, old(proc).value, proc.value, request, outcome.answer))
                && (PairedNow() <==> !Abandons(w, old(proc).value, request, a))
      ensures !outcome.Answered? ==> retry == Retries(request, a) && reason == WhyNot(request, a)
      ensures !outcome.Answered? && retry ==> proc == Some(NewProcess(a.restart.reply))
    {
      hide Answers, Strands, Exchange, Asked, Clean, Paired, ReplyTo, OneLineEach;
      ghost var before := proc.value;
      outcome := RequestOnce(request, a);
      NewIsPaired(w, a.restart.reply);
      if a.written > |request| && a.deadlineFirst {
        LateIsNoAnswer(w, before, request, a);
        return outcome, false, Expired;
      }
      if Paired(w, before) {
        ExchangeMeaning(w, before, request, a);
      }
      if outcome.Answered? {
        NothingLeftByAnswer(w, before, request, a);
        return outcome, false, Expired;
      }
      if a.expired {
        return outcome, false, Expired;
      }
      retry := Restart(a.restart);
      reason := RestartFailed;
    }

    /** A request that the worker agrees to send is tried at most twice. If the child had nothing left over
        from before, it is answered exactly when one of the attempts is, by the response to this request. */
    method Request(raw: string, c: Course) returns (r: Response)
      requires KeepsProtocol(c)
      modifies this`proc
      ensures var request := TrimSpace(raw);
              var p := if old(proc).Some? then old(proc).value else NewProcess(c.start.reply);
              match Refusal(w, request, c, closed, old(proc).Some?)
              case Some(why) => r == Err(why) && proc == old(proc)
              case None => old(PairedNow()) ==> Concluded(w, p, request, c, r, proc)
    {
      hide Answers, Abandons, Asked, Paired, OneLineEach, Answer;
      var request := TrimSpace(raw);
      if !c.target {
        return Err(BadTarget);
      }
      if request == "" {
        return Err(EmptyRequest);
      }
      if |request| > w.maxRequest {
        return Err(TooLong);
      }
      if '\r' in request || '\n' in request {
        return Err(HasNewline);
      }
      if !c.admitted {
        return Err(NotAdmitted);
      }
      if closed {
        return Err(Closed);
      }
      if proc.None? {
        NewIsPaired(w, c.start.reply);
        var started := Start(c.start);
        if !started {
          return Err(NotStarted);
        }
      }
      r := Tried(request, c);
    }

    method Tried(request: string, c: Course) returns (r: Response)
      requires KeepsProtocol(c) && proc.Some? && Sendable(request)
      modifies this`proc
      ensures old(PairedNow()) ==> Concluded(w, old(proc).value, request, c, r, proc)
    {
      hide Answers, Abandons, Asked, Paired, OneLineEach, Answer;
      for attempt := 0 to 2
        invariant proc.Some? && (attempt == 0 ==> proc == old(proc)) && (attempt >= 1 ==> PairedNow())
        invariant attempt >= 1 && old(PairedNow()) ==> Failed(w, old(proc).value, request, c.first)
        invariant attempt == 1 ==> proc == Some(NewProcess(c.first.restart.reply))
        invariant attempt == 2 ==> Failed(w, NewProcess(c.first.restart.reply), request, c.second)
      {
        var outcome, retry, reason := Attempted(request, if attempt == 0 then c.first else c.second);
        if outcome.Answered? {
          return Ok(outcome.answer);
        }
        if !retry {
          return Err(reason);
        }
        if attempt == 0 {
          NewIsPaired(w, c.first.restart.reply);
        } else {
          NewIsPaired(w, c.second.restart.reply);
        }
      }
      r := Err(FailedTwice);
    }

    method Close(launch: Launch) returns (ok: bool)
      modifies this
      ensures closed && (old(closed) ==> proc == old(proc)) && (!old(closed) ==> proc == None)
      ensures ok == (old(closed) || old(proc).None? || launch.stops)
    {
      if closed {
        return true;
      }
      closed := true;
      ok := Stop(launch);
    }
  }

  ghost predicate Failed(w: Settings, p: Process, request: string, a: Attempt) {
    !Answers(w, p, request, a) && Retries(request, a) && !Abandons(w, p, request, a)
  }

  /** q has just given its answer to request, and has nothing else to say. */
  ghost predicate Answer(w: Settings, p: Process, q: Process, request: string, answer: string) {
    && answer == Stripped(ReplyTo(w, p, request) + "\n")
    && q.reply == p.reply && Clean(w, q)
    && Asked(w, q) == Asked(w, p) + [ItemFor(w.childMax, w.decodeText, request)]
  }

  /** How a call that reached the child p may end, and with what child. */
  ghost predicate Concluded(w: Settings, p: Process, request: string, c: Course, r: Response, after: Option<Process>) {
    var p2 := NewProcess(c.first.restart.reply);
    var one := Answers(w, p, request, c.first);
    var two := !one && Retries(request, c.first) && Answers(w, p2, request, c.second);
    && (r.Ok? <==> one || two)
    && (one ==> after.Some? && Answer(w, p, after.value, request, r.answer))
    && (two ==> after.Some? && Answer(w, p2, after.value, request, r.answer))
    && ((after.Some? ==> Paired(w, after.value))
        <==> !(Abandons(w, p, request, c.first)
               || (!one && Retries(request, c.first) && Abandons(w, p2, request, c.second))))
    && (!one && !two ==>
          r == Err(if !Retries(request, c.first) then WhyNot(request, c.first)
                   else if !Retries(request, c.second) then WhyNot(request, c.second)
                   else FailedTwice))
  }

  lemma LateIsNoAnswer(w: Settings, p: Process, request: string, a: Attempt)
    requires a.deadlineFirst
    ensures !Answers(w, p, request, a)
  {
  }

  lemma NothingLeftByAnswer(w: Settings, p: Process, request: string, a: Attempt)
    ensures Answers(w, p, request, a) ==> !Strands(w, p, request, a)
  {
  }
}
