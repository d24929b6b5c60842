/** Lines of bytes, as both ends of the AI worker protocol see them. */
module Lines {
  import opened Strings

  predicate Terminated(line: string) {
    line != "" && line[|line| - 1] == '\n'
  }

  /** The bytes up to and including the first newline; all of them if there is none. */
  function FirstLine(s: string): (r: string)
    ensures |r| <= |s| && r == s[..|r|]
    ensures s != "" ==> r != ""
    ensures forall i :: 0 <= i < |r| - 1 ==> r[i] != '\n'
    ensures !Terminated(r) ==> r == s
  {
    if s == "" then ""
    else if s[0] == '\n' then "\n"
    else
      var rest := FirstLine(s[1..]);
      [s[0]] + rest
  }

  function Split(s: string): (r: seq<string>)
    decreases |s|
  {
    if s == "" then [] else [FirstLine(s)] + Split(s[|FirstLine(s)|..])
  }

  function Concat(parts: seq<string>): string {
    if parts == [] then "" else parts[0] + Concat(parts[1..])
  }

  /** A line without its terminator, which is a newline or a carriage return and a newline. */
  function Stripped(line: string): string {
    if !Terminated(line) then line
    else if |line| >= 2 && line[|line| - 2] == '\r' then line[..|line| - 2]
    else line[..|line| - 1]
  }

  /** Nothing, or something that ends with a newline. */
  predicate Whole(s: string) {
    s == "" || Terminated(s)
  }

  function Newlines(s: string): nat {
    if s == "" then 0 else (if s[0] == '\n' then 1 else 0) + Newlines(s[1..])
  }

  /** The first line is the only prefix without a newline in it that is terminated or is everything. */
  lemma FirstLineIs(s: string, k: nat)
    requires k <= |s| && forall i :: 0 <= i < k - 1 ==> s[i] != '\n'
    requires (k >= 1 && s[k - 1] == '\n') || (k == |s|)
    ensures FirstLine(s) == s[..k]
  {
    var r := FirstLine(s);
    assert forall i :: 0 <= i < |r| ==> r[i] == s[i];
  }

  /** No byte is lost, added or moved. */
  lemma {:induction false} ConcatSplit(s: string)
    ensures Concat(Split(s)) == s
    decreases |s|
  {
    hide FirstLine, Split, Concat;
    if s == "" {
      SplitNothing();
      ConcatNothing();
    } else {
      var line := FirstLine(s);
      ConcatSplit(s[|line|..]);
      SplitFirst(s);
      ConcatFirst(line, Split(s[|line|..]));
      assert s == line + s[|line|..];
    }
  }

  lemma ConcatNothing()
    ensures Concat([]) == ""
  {
  }

  lemma ConcatFirst(part: string, parts: seq<string>)
    ensures Concat([part] + parts) == part + Concat(parts)
  {
    assert ([part] + parts)[1..] == parts;
  }

  lemma {:induction false} NewlinesAppend(a: string, b: string)
    ensures Newlines(a + b) == Newlines(a) + Newlines(b)
  {
    if a == "" {
      assert a + b == b;
    } else {
      NewlinesAppend(a[1..], b);
      assert (a + b)[1..] == a[1..] + b;
    }
  }

  lemma {:induction false} NewlinesOfLine(line: string)
    requires line != "" && forall i :: 0 <= i < |line| - 1 ==> line[i] != '\n'
    ensures Newlines(line) == if Terminated(line) then 1 else 0
  {
    if |line| > 1 {
      NewlinesOfLine(line[1..]);
    } else {
      assert Newlines(line[1..]) == 0;
    }
  }

  /** One line for each newline, and one more for a tail that is not terminated. */
  lemma {:induction false} SplitCounts(s: string)
    ensures |Split(s)| == Newlines(s) + if Whole(s) then 0 else 1
    ensures forall i :: 0 <= i < |Split(s)| ==> Newlines(Split(s)[i]) <= 1 && (Terminated(Split(s)[i]) || (i == |Split(s)| - 1 && !Whole(s)))
    decreases |s|
  {
    hide FirstLine, Newlines, Split, Whole, Terminated;
    if s == "" {
      SplitNothing();
    } else {
      var line := FirstLine(s);
      var rest := s[|line|..];
      SplitCounts(rest);
      SplitFirst(s);
      FirstLineCounts(s);
      forall i | 0 < i < |Split(s)|
        ensures Split(s)[i] == Split(rest)[i - 1]
      {
      }
    }
  }

  lemma SplitNothing()
    ensures Split("") == [] && Newlines("") == 0 && Whole("")
  {
  }

  lemma SplitFirst(s: string)
    requires s != ""
    ensures Split(s) == [FirstLine(s)] + Split(s[|FirstLine(s)|..])
  {
  }

  lemma FirstLineCounts(s: string)
    requires s != ""
    ensures var line, rest := FirstLine(s), s[|FirstLine(s)|..];
            && Newlines(line) <= 1 && Newlines(s) == Newlines(line) + Newlines(rest)
            && (Terminated(line) <==> Newlines(line) == 1)
            && (if Terminated(line) then Whole(s) <==> Whole(rest) else rest == "" && !Whole(s) && Whole(rest))
  {
    hide FirstLine, Newlines;
    var line := FirstLine(s);
    var rest := s[|line|..];
    NewlinesOfLine(line);
    NewlinesAppend(line, rest);
    assert s == line + rest;
    if rest == "" {
      assert line == s;
    } else {
      assert rest[|rest| - 1] == s[|s| - 1];
    }
  }

  /** What follows a whole line does not change it. */
  lemma FirstLineOfAppend(a: string, b: string)
    requires Terminated(a)
    ensures var line := FirstLine(a);
            Terminated(line) && FirstLine(a + b) == line && (a + b)[|line|..] == a[|line|..] + b && Whole(a[|line|..])
  {
    var line := FirstLine(a);
    forall i | 0 <= i < |line|
      ensures (a + b)[i] == line[i]
    {
    }
    assert Terminated(line);
    FirstLineIs(a + b, |line|);
    assert (a + b)[..|line|] == line;
  }

  lemma {:induction false} SplitAppend(a: string, b: string)
    requires Whole(a)
    ensures Split(a + b) == Split(a) + Split(b)
    decreases |a|
  {
    hide FirstLine, Terminated, Split;
    if a == "" {
      SplitNothing();
      assert a + b == b && [] + Split(b) == Split(b);
    } else {
      var line, rest := FirstLine(a), a[|FirstLine(a)|..];
      FirstLineOfAppend(a, b);
      SplitAppend(rest, b);
      SplitFirst(a);
      SplitFirst(a + b);
      assert [line] + (Split(rest) + Split(b)) == [line] + Split(rest) + Split(b);
    }
  }

  lemma SplitOne(text: string)
    requires '\n' !in text
    ensures Split(text + "\n") == [text + "\n"] && Whole(text + "\n")
  {
    var s := text + "\n";
    forall i | 0 <= i < |text|
      ensures s[i] != '\n'
    {
      assert s[i] == text[i];
      assert text[i] in text;
    }
    FirstLineIs(s, |s|);
    assert s[..|s|] == s && s[|s|..] == "";
  }

  lemma StrippedText(text: string)
    requires text == "" || text[|text| - 1] != '\r'
    ensures Stripped(text + "\n") == text
  {
    assert (text + "\n")[..|text|] == text;
  }
}

/** Reading the requests of the AI worker protocol: iter_requests of ai/worker_protocol.py. */
module Framing {
  import opened Strings
  import opened Lines

  /** One step of the generator. Its text is what decoding and stripping make of a line's bytes. */
  datatype Item = Text(text: string) | TooLarge | NotUTF8

  class Stream {
    var rest: string

    constructor (bytes: string)
      ensures rest == bytes
    {
      rest := bytes;
    }

    /** At most limit bytes, and no more than one line. */
    method ReadLine(limit: nat) returns (raw: string)
      modifies this
      ensures old(rest) == raw + rest
      ensures raw == Read(old(rest), limit)
    {
      raw := FirstLine(rest);
      if limit < |raw| {
        raw := raw[..limit];
      }
      rest := rest[|raw|..];
    }
  }

  /** What a line should be answered with: nothing about reads, limits on reads or draining. */
  function ItemOf(max: nat, decode: string -> Option<string>, line: string): Item {
    ItemFor(max, decode, Stripped(line))
  }

  function ItemFor(max: nat, decode: string -> Option<string>, text: string): Item {
    if |text| > max then TooLarge
    else if decode(text).None? then NotUTF8
    else Text(decode(text).value)
  }

  function Items(max: nat, decode: string -> Option<string>, lines: seq<string>): (r: seq<Item>)
    ensures |r| == |lines|
    ensures forall i :: 0 <= i < |lines| ==> r[i] == ItemOf(max, decode, lines[i])
  {
    if lines == [] then [] else [ItemOf(max, decode, lines[0])] + Items(max, decode, lines[1..])
  }

  /** The items still to come from a stream. */
  function Left(max: nat, decode: string -> Option<string>, rest: string): seq<Item> {
    Items(max, decode, Split(rest))
  }

  function Read(s: string, limit: nat): string {
    if |FirstLine(s)| <= limit then FirstLine(s) else s[..limit]
  }

  /** What follows in a line of which already bytes have been read. */
  lemma {:induction false} RestOfLine(before: string, already: nat)
    requires already < |FirstLine(before)|
    ensures FirstLine(before[already..]) == FirstLine(before)[already..]
  {
    if already > 0 {
      RestOfLine(before[1..], already - 1);
      assert before[1..][already - 1..] == before[already..];
    } else {
      assert before[already..] == before;
    }
  }

  lemma ReadEnds(s: string, limit: nat)
    requires s != "" && limit > 0
    ensures |Read(s, limit)| == if limit <= |FirstLine(s)| then limit else |FirstLine(s)|
    ensures Terminated(Read(s, limit)) <==> |Read(s, limit)| == |FirstLine(s)| && Terminated(FirstLine(s))
  {
    var raw, line := Read(s, limit), FirstLine(s);
    assert forall i :: 0 <= i < |raw| ==> raw[i] == line[i];
  }

  /** The next read of that line. */
  lemma DrainStep(before: string, already: nat, limit: nat)
    requires already < |FirstLine(before)| && limit > 0
    ensures var line, raw := FirstLine(before), Read(before[already..], limit);
            raw != "" && |raw| == (if already + limit <= |line| then limit else |line| - already)
            && (Terminated(raw) <==> already + |raw| == |line| && Terminated(line))
  {
    hide FirstLine, Read;
    RestOfLine(before, already);
    ReadEnds(before[already..], limit);
  }

  /** The draining loop: it ends at the end of the line that first begins, however many reads it takes. */
  method Drain(stream: Stream, limit: nat, first: string, ghost before: string)
    requires limit > 0 && before == first + stream.rest
    requires first != "" && !Terminated(first) && |first| <= |FirstLine(before)|
    requires |first| == |FirstLine(before)| ==> !Terminated(FirstLine(before))
    modifies stream
    ensures stream.rest == before[|FirstLine(before)|..]
  {
    hide FirstLine, Terminated;
    var raw := first;
    ghost var already := |first|;
    while raw != "" && !Terminated(raw)
      invariant 0 <= already <= |FirstLine(before)| && stream.rest == before[already..]
      invariant raw == "" ==> already == |FirstLine(before)|
      invariant raw != "" ==> (Terminated(raw) <==> already == |FirstLine(before)| && Terminated(FirstLine(before)))
      decreases |stream.rest|, |raw|
    {
      if already < |FirstLine(before)| {
        DrainStep(before, already, limit);
      }
      raw := stream.ReadLine(limit);
      already := already + |raw|;
    }
  }

  /** A read that fills the limit without ending a line has met an oversized one; any other is a line. */
  lemma ReadMeaning(max: nat, decode: string -> Option<string>, s: string)
    requires s != ""
    ensures var raw, line := Read(s, max + 2), FirstLine(s);
            if |raw| == max + 2 && !Terminated(raw) then
              |raw| <= |line| && (|raw| == |line| ==> !Terminated(line)) && |Stripped(line)| > max && ItemOf(max, decode, line) == TooLarge
            else
              raw == line
  {
    var raw, line := Read(s, max + 2), FirstLine(s);
    assert forall i :: 0 <= i < |raw| ==> raw[i] == line[i];
  }

  /** The generator, run to its end. However long the lines are, it yields one item for each, and that
      item depends on nothing but its line. */
  method IterRequests(stream: Stream, max: nat, decode: string -> Option<string>) returns (items: seq<Item>)
    modifies stream
    ensures stream.rest == ""
    ensures items == Left(max, decode, old(stream.rest))
  {
    hide FirstLine, Terminated, Read, Left, ItemOf, Stripped;
    items := [];
    ghost var all := Left(max, decode, stream.rest);
    while true
      invariant items + Left(max, decode, stream.rest) == all
      decreases |stream.rest|
    {
      ghost var before := stream.rest;
      ghost var line := FirstLine(before);
      var raw := stream.ReadLine(max + 2);
      if raw == "" {
        NothingLeft(max, decode, before);
        return;
      }
      ReadMeaning(max, decode, before);
      NextItem(max, decode, before);
      if |raw| == max + 2 && !Terminated(raw) {
        Drain(stream, max + 2, raw, before);
        items := items + [TooLarge];
        continue;
      }
      assert stream.rest == before[|line|..];
      var item := DecodeLine(max, decode, raw);
      items := items + [item];
    }
  }

  method DecodeLine(max: nat, decode: string -> Option<string>, line: string) returns (item: Item)
    ensures item == ItemOf(max, decode, line)
  {
    var raw := Strip(line);
    if |raw| > max {
      return TooLarge;
    }
    if decode(raw).Some? {
      item := Text(decode(raw).value);
    } else {
      item := NotUTF8;
    }
  }

  method Strip(line: string) returns (raw: string)
    ensures raw == Stripped(line)
  {
    raw := line;
    if Terminated(raw) {
      raw := raw[..|raw| - 1];
      if raw != "" && raw[|raw| - 1] == '\r' {
        raw := raw[..|raw| - 1];
      }
    }
  }

  lemma NothingLeft(max: nat, decode: string -> Option<string>, s: string)
    requires Read(s, max + 2) == ""
    ensures s == "" && Left(max, decode, s) == []
  {
  }

  lemma NextItem(max: nat, decode: string -> Option<string>, s: string)
    requires s != ""
    ensures FirstLine(s) != ""
    ensures Left(max, decode, s) == [ItemOf(max, decode, FirstLine(s))] + Left(max, decode, s[|FirstLine(s)|..])
  {
    assert Split(s)[0] == FirstLine(s) && Split(s)[1..] == Split(s[|FirstLine(s)|..]);
  }

  // ----- sender and receiver

  /** The requests of the Go side on the wire: each on a line of its own. */
  function Sent(requests: seq<string>): string {
    if requests == [] then "" else requests[0] + "\n" + Sent(requests[1..])
  }

  /** A request that the Go side agrees to send. */
  ghost predicate Sendable(request: string) {
    '\n' !in request && '\r' !in request
  }

  function ItemsFor(max: nat, decode: string -> Option<string>, requests: seq<string>): (r: seq<Item>)
    ensures |r| == |requests|
    ensures forall i :: 0 <= i < |requests| ==> r[i] == ItemFor(max, decode, requests[i])
  {
    if requests == [] then [] else [ItemFor(max, decode, requests[0])] + ItemsFor(max, decode, requests[1..])
  }

  /** Every request arrives as itself, in order, whatever its length. */
  lemma {:induction false} RequestsArrive(max: nat, decode: string -> Option<string>, requests: seq<string>)
    requires forall r :: r in requests ==> Sendable(r)
    ensures Items(max, decode, Split(Sent(requests))) == ItemsFor(max, decode, requests)
    ensures Whole(Sent(requests))
  {
    hide Split, Whole, ItemFor;
    if requests == [] {
      NothingSent(max, decode);
    } else {
      assert requests[0] in requests;
      RequestsArrive(max, decode, requests[1..]);
      RequestArrives(max, decode, requests[0], Sent(requests[1..]));
    }
  }

  lemma NothingSent(max: nat, decode: string -> Option<string>)
    ensures Items(max, decode, Split("")) == [] && Whole("")
  {
  }

  lemma RequestArrives(max: nat, decode: string -> Option<string>, request: string, rest: string)
    requires Sendable(request) && Whole(rest)
    ensures Items(max, decode, Split(request + "\n" + rest)) == [ItemFor(max, decode, request)] + Items(max, decode, Split(rest))
    ensures Whole(request + "\n" + rest)
  {
    hide Split, Whole, ItemFor, Stripped;
    SplitOne(request);
    StrippedText(request);
    SplitAppend(request + "\n", rest);
    NextItems(max, decode, request + "\n", Split(rest));
    WholeAppend(request + "\n", rest);
  }

  lemma NextItems(max: nat, decode: string -> Option<string>, line: string, lines: seq<string>)
    ensures Items(max, decode, [line] + lines) == [ItemOf(max, decode, line)] + Items(max, decode, lines)
  {
    assert ([line] + lines)[1..] == lines;
  }

  lemma WholeAppend(a: string, b: string)
    requires Whole(a) && Whole(b)
    ensures Whole(a + b)
  {
    if b == "" {
      assert a + b == a;
    } else {
      assert (a + b)[|a + b| - 1] == b[|b| - 1];
    }
  }
}
