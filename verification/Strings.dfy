/** The string operations the modelled code takes from its standard library. A string is a
    sequence of one-byte characters; case and white space are those of ASCII. */
module Strings {

  datatype Option<+T> = None | Some(value: T)

  predicate IsSpace(c: char) {
    c in {' ', '\t', '\n', '\r', '\U{000B}', '\U{000C}'}
  }

  function LowerChar(c: char): char {
    if 'A' <= c <= 'Z' then (c as int + 32) as char else c
  }

  function ToLower(s: string): (r: string)
    ensures |r| == |s|
    ensures forall i :: 0 <= i < |s| ==> r[i] == LowerChar(s[i])
  {
    if s == "" then "" else [LowerChar(s[0])] + ToLower(s[1..])
  }

  function UpperChar(c: char): char {
    if 'a' <= c <= 'z' then (c as int - 32) as char else c
  }

  function ToUpper(s: string): string {
    if s == "" then "" else [UpperChar(s[0])] + ToUpper(s[1..])
  }

  function IfEmpty(s: string, fallback: string): string {
    if s == "" then fallback else s
  }

  /** Equality that ignores case: strings.EqualFold, and SQLite's COLLATE NOCASE. */
  predicate EqualFold(a: string, b: string) {
    ToLower(a) == ToLower(b)
  }

  lemma LowerOfNothing(s: string)
    ensures ToLower(s) == "" <==> s == ""
  {
  }

  lemma ToLowerIdempotent(s: string)
    ensures ToLower(ToLower(s)) == ToLower(s)
  {
  }

  function TrimLeft(s: string, cut: char -> bool): (r: string)
    ensures |r| <= |s| && r == s[|s| - |r|..]
    ensures r != "" ==> !cut(r[0])
  {
    if s != "" && cut(s[0]) then TrimLeft(s[1..], cut) else s
  }

  function TrimRight(s: string, cut: char -> bool): (r: string)
    ensures |r| <= |s| && r == s[..|r|]
    ensures r != "" ==> !cut(r[|r| - 1])
  {
    if s != "" && cut(s[|s| - 1]) then TrimRight(s[..|s| - 1], cut) else s
  }

  lemma TrimLeftStep(s: string, cut: char -> bool)
    requires s != ""
    ensures TrimLeft(s, cut) == if cut(s[0]) then TrimLeft(s[1..], cut) else s
  {
  }

  lemma TrimRightStep(s: string, cut: char -> bool)
    requires s != ""
    ensures TrimRight(s, cut) == if cut(s[|s| - 1]) then TrimRight(s[..|s| - 1], cut) else s
  {
  }

  function Trim(s: string, cut: char -> bool): string {
    TrimRight(TrimLeft(s, cut), cut)
  }

  /** Trimming takes away all that may be cut at both ends, and nothing else. */
  lemma TrimMeaning(s: string, cut: char -> bool) returns (a: string, b: string)
    ensures s == a + Trim(s, cut) + b
    ensures (forall i :: 0 <= i < |a| ==> cut(a[i])) && (forall i :: 0 <= i < |b| ==> cut(b[i]))
    ensures var t := Trim(s, cut); t != "" ==> !cut(t[0]) && !cut(t[|t| - 1])
  {
    hide TrimLeft, TrimRight;
    var left := TrimLeft(s, cut);
    var t := TrimRight(left, cut);
    LeftIsCut(s, cut);
    RightIsCut(left, cut);
    a, b := s[..|s| - |left|], left[|t|..];
    InThree(s, |s| - |left|, |t|);
    if t != "" {
      assert t[0] == left[0];
    }
  }

  lemma InThree(s: string, m: nat, n: nat)
    requires m + n <= |s|
    ensures s == s[..m] + s[m..][..n] + s[m..][n..]
  {
  }

  lemma {:induction false} LeftIsCut(s: string, cut: char -> bool)
    ensures forall i :: 0 <= i < |s| - |TrimLeft(s, cut)| ==> cut(s[i])
  {
    hide TrimLeft;
    if s != "" {
      TrimLeftStep(s, cut);
      if cut(s[0]) {
        LeftIsCut(s[1..], cut);
        assert forall i :: 0 < i < |s| ==> s[i] == s[1..][i - 1];
      }
    }
  }

  lemma {:induction false} RightIsCut(s: string, cut: char -> bool)
    ensures forall i :: |TrimRight(s, cut)| <= i < |s| ==> cut(s[i])
  {
    hide TrimRight;
    if s != "" {
      TrimRightStep(s, cut);
      if cut(s[|s| - 1]) {
        RightIsCut(s[..|s| - 1], cut);
        assert forall i :: 0 <= i < |s| - 1 ==> s[i] == s[..|s| - 1][i];
      }
    }
  }

  function TrimSpace(s: string): string {
    Trim(s, IsSpace)
  }

  lemma NothingTrims()
    ensures TrimSpace("") == ""
  {
  }

  lemma TrimNothing(s: string, cut: char -> bool)
    requires s != "" ==> !cut(s[0]) && !cut(s[|s| - 1])
    ensures Trim(s, cut) == s
  {
  }

  predicate HasPrefix(s: string, prefix: string) {
    prefix <= s
  }

  predicate HasSuffix(s: string, suffix: string) {
    |suffix| <= |s| && s[|s| - |suffix|..] == suffix
  }

  function TrimPrefix(s: string, prefix: string): string {
    if HasPrefix(s, prefix) then s[|prefix|..] else s
  }

  function TrimSuffix(s: string, suffix: string): string {
    if HasSuffix(s, suffix) then s[..|s| - |suffix|] else s
  }

  predicate OccursAt(s: string, part: string, i: nat) {
    i + |part| <= |s| && s[i..i + |part|] == part
  }

  /** An occurrence of a single character. */
  lemma OccursChar(s: string, c: char, i: nat)
    ensures OccursAt(s, [c], i) <==> i < |s| && s[i] == c
  {
    if i < |s| {
      assert s[i..i + 1] == [s[i]];
    }
  }

  /** The leftmost occurrence of part, or -1. */
  function Index(s: string, part: string): (i: int)
    ensures -1 <= i <= |s|
    ensures i >= 0 ==> OccursAt(s, part, i)
    ensures i >= 0 ==> forall j: nat :: j < i ==> !OccursAt(s, part, j)
    ensures i < 0 ==> forall j: nat :: !OccursAt(s, part, j)
    decreases |s|
  {
    if HasPrefix(s, part) then
      assert OccursAt(s, part, 0);
      0
    else if s == "" then
      -1
    else
      var r := Index(s[1..], part);
      assert forall j: nat {:trigger OccursAt(s, part, j)} :: j > 0 ==> (OccursAt(s, part, j) <==> OccursAt(s[1..], part, j - 1)) by {
        forall j: nat {:trigger OccursAt(s, part, j)} | j > 0
          ensures OccursAt(s, part, j) <==> OccursAt(s[1..], part, j - 1)
        {
          if j + |part| <= |s| {
            assert s[j..j + |part|] == s[1..][j - 1..j - 1 + |part|];
          }
        }
      }
      assert !OccursAt(s, part, 0);
      if r < 0 then -1 else r + 1
  }

  /** An occurrence with none to its left is what Index finds. */
  lemma IndexIsFirst(s: string, part: string, i: nat)
    requires OccursAt(s, part, i) && forall j: nat :: j < i ==> !OccursAt(s, part, j)
    ensures Index(s, part) == i
  {
    hide Index, OccursAt;
    assert Index(s, part) >= 0;
  }
}
