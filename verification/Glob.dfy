/** The wildcard matcher of internal/database/database.go, against the language a pattern denotes. */
module Glob {
  import opened Strings

  /** strings.Split(pattern, "*"). */
  function SplitStar(pattern: string): (parts: seq<string>)
    ensures |parts| >= 1
  {
    if pattern == "" then
      [""]
    else if pattern[0] == '*' then
      [""] + SplitStar(pattern[1..])
    else
      var rest := SplitStar(pattern[1..]);
      [[pattern[0]] + rest[0]] + rest[1..]
  }

  /** The language of a pattern: `*` stands for any string, every other character for itself. */
  ghost predicate InLanguage(pattern: string, s: string)
    decreases |pattern|
  {
    if pattern == "" then
      s == ""
    else if pattern[0] == '*' then
      exists k :: 0 <= k <= |s| && InLanguage(pattern[1..], s[k..])
    else
      s != "" && s[0] == pattern[0] && InLanguage(pattern[1..], s[1..])
  }

  /** s is parts[0], a gap, parts[1], a gap, ..., the last part. */
  ghost predicate InParts(parts: seq<string>, s: string)
    requires parts != []
    decreases |parts|, 0
  {
    if |parts| == 1 then
      s == parts[0]
    else
      HasPrefix(s, parts[0]) && InTail(parts[1..], s, |parts[0]|)
  }

  /** Some suffix of s that starts at or after pos is in parts. */
  ghost predicate InTail(parts: seq<string>, s: string, pos: nat)
    requires parts != []
    decreases |parts|, 1
  {
    exists k :: pos <= k <= |s| && InParts(parts, s[k..])
  }

  lemma {:induction false} LanguageIsParts(pattern: string, s: string)
    ensures InLanguage(pattern, s) <==> InParts(SplitStar(pattern), s)
    decreases |pattern|
  {
    if pattern == "" {
    } else if pattern[0] == '*' {
      var rest := SplitStar(pattern[1..]);
      assert SplitStar(pattern)[1..] == rest;
      forall k | 0 <= k <= |s|
        ensures InLanguage(pattern[1..], s[k..]) <==> InParts(rest, s[k..])
      {
        LanguageIsParts(pattern[1..], s[k..]);
      }
    } else {
      var parts, rest := SplitStar(pattern), SplitStar(pattern[1..]);
      assert parts[1..] == rest[1..];
      if s != "" && s[0] == pattern[0] {
        LanguageIsParts(pattern[1..], s[1..]);
        PrefixStep(parts, rest, s);
      }
    }
  }

  lemma PrefixStep(parts: seq<string>, rest: seq<string>, s: string)
    requires s != "" && rest != [] && parts == [[s[0]] + rest[0]] + rest[1..]
    ensures InParts(parts, s) <==> InParts(rest, s[1..])
  {
    hide HasPrefix, InTail;
    PrefixOfMore(s, rest[0]);
    if |parts| > 1 {
      assert parts[1..] == rest[1..];
      TailOfMore(rest[1..], s, |rest[0]|);
    } else {
      assert s == [s[0]] + s[1..];
    }
  }

  lemma PrefixOfMore(s: string, prefix: string)
    requires s != ""
    ensures HasPrefix(s, [s[0]] + prefix) <==> HasPrefix(s[1..], prefix)
  {
    assert s == [s[0]] + s[1..];
    if HasPrefix(s, [s[0]] + prefix) {
      assert s[1..][..|prefix|] == s[..|prefix| + 1][1..] == prefix;
    }
  }

  lemma TailOfMore(parts: seq<string>, s: string, pos: nat)
    requires s != "" && parts != []
    ensures InTail(parts, s, pos + 1) <==> InTail(parts, s[1..], pos)
  {
    hide InParts;
    assert forall k :: 1 <= k <= |s| ==> s[k..] == s[1..][k - 1..];
    if InTail(parts, s, pos + 1) {
      var k :| pos + 1 <= k <= |s| && InParts(parts, s[k..]);
      assert InParts(parts, s[1..][k - 1..]);
    }
    if InTail(parts, s[1..], pos) {
      var k :| pos <= k <= |s[1..]| && InParts(parts, s[1..][k..]);
      assert InParts(parts, s[k + 1..]);
    }
  }

  /** Where the greedy scan for the middle parts ends: each at its leftmost place after the last. */
  function GreedyEnd(middle: seq<string>, s: string, pos: nat): (end: Option<nat>)
    requires pos <= |s|
    ensures end.Some? ==> pos <= end.value <= |s|
    decreases |middle|
  {
    if middle == [] then
      Some(pos)
    else
      var i := Index(s[pos..], middle[0]);
      if i < 0 then None else GreedyEnd(middle[1..], s, pos + i + |middle[0]|)
  }

  function Last(parts: seq<string>): string
    requires parts != []
  {
    parts[|parts| - 1]
  }

  /** What wildcardDomainMatch answers, and where its scan stops. */
  function ScanEnd(pattern: string, domain: string): Option<nat> {
    var parts := SplitStar(pattern);
    if |parts| > 1 && HasPrefix(domain, parts[0]) then
      GreedyEnd(parts[1..|parts| - 1], domain, |parts[0]|)
    else
      None
  }

  predicate Accepts(pattern: string, domain: string) {
    var parts := SplitStar(pattern);
    if |parts| == 1 then
      pattern == domain
    else
      HasSuffix(domain, Last(parts)) && ScanEnd(pattern, domain).Some?
  }

  method WildcardDomainMatch(pattern: string, domain: string) returns (ok: bool)
    ensures ok == Accepts(pattern, domain)
  {
    hide SplitStar, Index, GreedyEnd;
    var parts := SplitStar(pattern);
    if |parts| == 1 {
      return pattern == domain;
    }
    if parts[0] != "" && !HasPrefix(domain, parts[0]) {
      return false;
    }
    var last := parts[|parts| - 1];
    if last != "" && !HasSuffix(domain, last) {
      return false;
    }
    var pos: nat := |parts[0]|;
    var middle := parts[1..|parts| - 1];
    assert middle[0..] == middle;
    for i := 0 to |middle|
      invariant pos <= |domain|
      invariant ScanEnd(pattern, domain) == GreedyEnd(middle[i..], domain, pos)
    {
      var part := middle[i];
      GreedyStep(middle, i, domain, pos);
      if part == "" {
        continue;
      }
      var idx := Index(domain[pos..], part);
      if idx < 0 {
        return false;
      }
      pos := pos + idx + |part|;
    }
    assert middle[|middle|..] == [];
    GreedyDone(domain, pos);
    return true;
  }

  lemma GreedyStep(middle: seq<string>, i: nat, s: string, pos: nat)
    requires i < |middle| && pos <= |s|
    ensures var k := Index(s[pos..], middle[i]);
            && (k >= 0 ==> pos + k + |middle[i]| <= |s|)
            && (middle[i] == "" ==> k == 0)
            && GreedyEnd(middle[i..], s, pos) == if k < 0 then None else GreedyEnd(middle[i + 1..], s, pos + k + |middle[i]|)
  {
    hide Index, OccursAt;
    assert middle[i..][1..] == middle[i + 1..];
    FoundWithin(s[pos..], middle[i]);
  }

  lemma FoundWithin(s: string, part: string)
    ensures Index(s, part) >= 0 ==> Index(s, part) + |part| <= |s|
    ensures part == "" ==> Index(s, part) == 0
  {
    hide Index;
    assert OccursAt(s, "", 0);
  }

  lemma GreedyDone(s: string, pos: nat)
    requires pos <= |s|
    ensures GreedyEnd([], s, pos) == Some(pos)
  {
  }

  /** Taking each middle part at its leftmost place loses no match: an occurrence further right can
      be exchanged for the leftmost one. */
  lemma {:induction false} LeftmostPlacement(middle: seq<string>, last: string, s: string, pos: nat)
    requires pos <= |s|
    ensures InTail(middle + [last], s, pos) <==>
            var end := GreedyEnd(middle, s, pos);
            HasSuffix(s, last) && end.Some? && end.value + |last| <= |s|
    decreases |middle|
  {
    hide Index, InParts, InTail;
    if middle == [] {
      assert middle + [last] == [last];
      LastPlaced(last, s, pos);
    } else {
      var m, rest := middle[0], middle[1..];
      assert middle + [last] == [m] + (rest + [last]);
      FirstPlaced(m, rest + [last], s, pos);
      var i := Index(s[pos..], m);
      if i >= 0 {
        LeftmostPlacement(rest, last, s, pos + i + |m|);
      }
    }
  }

  lemma LastPlaced(last: string, s: string, pos: nat)
    requires pos <= |s|
    ensures InTail([last], s, pos) <==> HasSuffix(s, last) && pos + |last| <= |s|
  {
    if HasSuffix(s, last) && pos + |last| <= |s| {
      assert InParts([last], s[|s| - |last|..]);
    }
  }

  /** The exchange: if the first part can be placed at all, it can be placed leftmost. */
  lemma FirstPlaced(m: string, rest: seq<string>, s: string, pos: nat)
    requires pos <= |s| && rest != []
    ensures var i := Index(s[pos..], m);
            InTail([m] + rest, s, pos) <==> i >= 0 && InTail(rest, s, pos + i + |m|)
  {
    hide Index, InParts;
    var i := Index(s[pos..], m);
    forall k | pos <= k <= |s|
      ensures InParts([m] + rest, s[k..]) <==> OccursAt(s[pos..], m, k - pos) && InTail(rest, s, k + |m|)
    {
      HeadPlaced(m, rest, s, pos, k);
    }
    if InTail([m] + rest, s, pos) {
      var k :| pos <= k <= |s| && InParts([m] + rest, s[k..]);
      assert OccursAt(s[pos..], m, k - pos);
      assert k - pos >= i >= 0;
    }
    if i >= 0 && InTail(rest, s, pos + i + |m|) {
      assert InParts([m] + rest, s[pos + i..]);
    }
  }

  lemma HeadPlaced(m: string, rest: seq<string>, s: string, pos: nat, k: nat)
    requires pos <= k <= |s| && rest != []
    ensures InParts([m] + rest, s[k..]) <==> OccursAt(s[pos..], m, k - pos) && InTail(rest, s, k + |m|)
  {
    assert ([m] + rest)[1..] == rest;
    assert k + |m| <= |s| ==> s[pos..][k - pos..k - pos + |m|] == s[k..][..|m|];
    assert forall j :: 0 <= j <= |s| - k ==> s[k..][j..] == s[k + j..];
    if InTail(rest, s[k..], |m|) {
      var j :| |m| <= j <= |s[k..]| && InParts(rest, s[k..][j..]);
      assert InParts(rest, s[k + j..]);
    }
    if InTail(rest, s, k + |m|) {
      var j :| k + |m| <= j <= |s| && InParts(rest, s[j..]);
      assert InParts(rest, s[k..][j - k..]);
    }
  }

  /** A domain is in the language exactly when the code accepts it and the last part lies wholly
      after the end of the scan. In particular the code accepts the whole language. */
  lemma LanguageIsAcceptedWithoutOverlap(pattern: string, domain: string)
    ensures InLanguage(pattern, domain) <==>
            var parts, end := SplitStar(pattern), ScanEnd(pattern, domain);
            Accepts(pattern, domain) && (|parts| == 1 || end.value + |Last(parts)| <= |domain|)
  {
    LanguageIsParts(pattern, domain);
    var parts := SplitStar(pattern);
    if |parts| == 1 {
      SingleIsItself(pattern);
    } else if HasPrefix(domain, parts[0]) {
      var middle := parts[1..|parts| - 1];
      assert parts[1..] == middle + [Last(parts)];
      LeftmostPlacement(middle, Last(parts), domain, |parts[0]|);
    }
  }

  lemma {:induction false} SingleIsItself(pattern: string)
    requires |SplitStar(pattern)| == 1
    ensures SplitStar(pattern) == [pattern]
  {
    if pattern != "" {
      SingleIsItself(pattern[1..]);
      assert pattern == [pattern[0]] + pattern[1..];
    }
  }

  /** What the code accepts of a pattern with a star, said without its scan: the language of the
      pattern up to its last star, and separately the rest as a suffix, which may overlap. */
  lemma AcceptedLanguage(stem: string, last: string, domain: string)
    requires HasSuffix(stem, "*") && '*' !in last
    ensures Accepts(stem + last, domain) <==> InLanguage(stem, domain) && HasSuffix(domain, last)
  {
    hide SplitStar, InLanguage;
    SplitLast(stem, last);
    var parts, pieces := SplitStar(stem + last), SplitStar(stem);
    assert parts[1..|parts| - 1] == parts[..|parts| - 1][1..] == pieces[..|pieces| - 1][1..] == pieces[1..|pieces| - 1];
    assert parts[0] == parts[..|parts| - 1][0] == pieces[0];
    LanguageIsAcceptedWithoutOverlap(stem, domain);
  }

  lemma {:induction false} SplitLast(stem: string, last: string)
    requires HasSuffix(stem, "*") && '*' !in last
    ensures var parts, pieces := SplitStar(stem + last), SplitStar(stem);
            |parts| == |pieces| > 1 && Last(parts) == last && Last(pieces) == "" &&
            parts[..|parts| - 1] == pieces[..|pieces| - 1]
    decreases |stem|
  {
    hide SplitStar;
    assert (stem + last)[0] == stem[0] && (stem + last)[1..] == stem[1..] + last;
    SplitStep(stem + last);
    SplitStep(stem);
    if |stem| == 1 {
      NoStar(last);
      NoStar("");
      assert stem[1..] == "" && "" + last == last;
    } else {
      assert HasSuffix(stem[1..], "*");
      SplitLast(stem[1..], last);
      SameInit(stem[0], SplitStar(stem[1..] + last), SplitStar(stem[1..]));
    }
  }

  /** Another character or another part in front leaves all but the last part the same. */
  lemma SameInit(c: char, a: seq<string>, b: seq<string>)
    requires |a| == |b| > 1 && a[..|a| - 1] == b[..|b| - 1]
    ensures ([""] + a)[..|a|] == ([""] + b)[..|b|]
    ensures ([[c] + a[0]] + a[1..])[..|a| - 1] == ([[c] + b[0]] + b[1..])[..|b| - 1]
  {
    var x, y := [[c] + a[0]] + a[1..], [[c] + b[0]] + b[1..];
    forall i | 0 <= i < |a| - 1
      ensures a[i] == b[i] && x[i] == y[i]
    {
      assert a[i] == a[..|a| - 1][i] && b[i] == b[..|b| - 1][i];
    }
  }

  lemma SplitStep(s: string)
    requires s != ""
    ensures var rest := SplitStar(s[1..]);
            SplitStar(s) == if s[0] == '*' then [""] + rest else [[s[0]] + rest[0]] + rest[1..]
  {
  }

  lemma {:induction false} NoStar(s: string)
    requires '*' !in s
    ensures SplitStar(s) == [s]
  {
    if s != "" {
      NoStar(s[1..]);
      assert s == [s[0]] + s[1..];
    }
  }

  /** The code differs from the language exactly when it accepts and the last part overlaps what the
      scan has already used. */
  lemma AgreesExactlyWithoutOverlap(pattern: string, domain: string)
    ensures (Accepts(pattern, domain) <==> InLanguage(pattern, domain)) <==>
            var parts, end := SplitStar(pattern), ScanEnd(pattern, domain);
            !(|parts| > 1 && HasSuffix(domain, Last(parts)) && end.Some? && end.value + |Last(parts)| > |domain|)
  {
    LanguageIsAcceptedWithoutOverlap(pattern, domain);
  }

  lemma {:induction false} SplitAtStar(before: string, after: string)
    requires '*' !in before
    ensures SplitStar(before + "*" + after) == [before] + SplitStar(after)
    decreases |before|
  {
    var pattern := before + "*" + after;
    if before == "" {
      assert pattern[1..] == after;
    } else {
      SplitAtStar(before[1..], after);
      assert pattern[1..] == before[1..] + "*" + after;
      assert before == [before[0]] + before[1..];
    }
  }

  /** An overlap the code accepts: `ab*ba` on `aba`. */
  lemma OverlapIsAccepted()
    ensures Accepts("ab*ba", "aba") && !InLanguage("ab*ba", "aba")
  {
    hide SplitStar, InLanguage;
    NoStar("ba");
    SplitAtStar("ab", "ba");
    assert "ab" + "*" + "ba" == "ab*ba";
    LanguageIsAcceptedWithoutOverlap("ab*ba", "aba");
  }
}
