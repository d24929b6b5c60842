/** The forwarding headers of internal/clientip/resolver.go. The Forwarded header follows section 4 of
    RFC 7239, its quoted strings section 3.2.6 of RFC 7230. A character stands for a byte. */
module Forwarded {
  import opened Strings

  const MAX_HEADER_BYTES: nat := 8192
  const MAX_ADDRESSES: nat := 64

  predicate IsOWS(c: char) {
    c == ' ' || c == '\t'
  }

  function TrimOWS(s: string): string {
    Trim(s, IsOWS)
  }

  predicate IsControl(c: char) {
    c < ' ' || c == '\U{007F}'
  }

  predicate IsTokenChar(c: char) {
    'a' <= c <= 'z' || 'A' <= c <= 'Z' || '0' <= c <= '9' || c in "!#$%&'*+-.^_`|~"
  }

  predicate IsToken(s: string) {
    s != "" && forall i :: 0 <= i < |s| ==> IsTokenChar(s[i])
  }

  /** The tokens of RFC 7230, said the other way round: any visible character is allowed but for its delimiters. */
  lemma TokenMeaning(s: string)
    ensures IsToken(s) <==> s != "" && forall i :: 0 <= i < |s| ==> '!' <= s[i] <= '~' && s[i] !in "\"(),/:;<=>?@[\\]{}"
  {
    forall i | 0 <= i < |s|
      ensures IsTokenChar(s[i]) <==> '!' <= s[i] <= '~' && s[i] !in "\"(),/:;<=>?@[\\]{}"
    {
      TokenCharMeaning(s[i]);
    }
  }

  lemma TokenCharMeaning(c: char)
    ensures IsTokenChar(c) <==> '!' <= c <= '~' && c !in "\"(),/:;<=>?@[\\]{}"
  {
    if 'a' <= c <= 'z' || 'A' <= c <= 'Z' || '0' <= c <= '9' {
      assert c !in "\"(),/:;<=>?@[\\]{}";
    } else if !('!' <= c <= '~') {
      assert c !in "!#$%&'*+-.^_`|~";
    }
  }

  /** Control characters are the first 32 and the last of ASCII. */
  lemma ControlMeaning(c: char)
    ensures IsControl(c) <==> c as int < 32 || c as int == 127
  {
  }

  // ----- splitting outside quotes

  /** What is left to split is rest; part has been read since the last delimiter. */
  function Scan(rest: string, delimiter: char, part: string, quoted: bool, escaped: bool): Option<seq<string>>
    decreases |rest|
  {
    if rest == "" then
      if quoted || escaped then None else Close(part, Some([]))
    else
      var c, tail := rest[0], rest[1..];
      if IsControl(c) && c != '\t' then
        None
      else if c == '\\' then
        Scan(tail, delimiter, part + [c], quoted, if quoted then !escaped else escaped)
      else if c == '"' then
        Scan(tail, delimiter, part + [c], if escaped then quoted else !quoted, false)
      else if c == delimiter && !quoted then
        Close(part, Scan(tail, delimiter, "", quoted, false))
      else
        Scan(tail, delimiter, part + [c], quoted, false)
  }

  /** An empty element is an error. */
  function Close(part: string, others: Option<seq<string>>): Option<seq<string>> {
    if TrimOWS(part) == "" || others.None? then None else Some([TrimOWS(part)] + others.value)
  }

  function Split(value: string, delimiter: char): Option<seq<string>> {
    if TrimOWS(value) == "" then None else Scan(value, delimiter, "", false, false)
  }

  function Prepend(parts: seq<string>, others: Option<seq<string>>): Option<seq<string>> {
    if others.None? then None else Some(parts + others.value)
  }

  lemma PrependNothing(r: Option<seq<string>>)
    ensures Prepend([], r) == r
  {
    if r.Some? { assert [] + r.value == r.value; }
  }

  lemma PrependTwice(a: seq<string>, b: seq<string>, r: Option<seq<string>>)
    ensures Prepend(a, Prepend(b, r)) == Prepend(a + b, r)
  {
    if r.Some? { assert a + (b + r.value) == a + b + r.value; }
  }

  method SplitOutsideQuotes(value: string, delimiter: char) returns (r: Option<seq<string>>)
    ensures r == Split(value, delimiter)
  {
    hide TrimOWS;
    if TrimOWS(value) == "" {
      return None;
    }
    var parts: seq<string> := [];
    var start, quoted, escaped := 0, false, false;
    assert value[0..] == value && value[0..0] == "";
    PrependNothing(Scan(value, delimiter, "", false, false));
    for i := 0 to |value|
      invariant start <= i
      invariant Split(value, delimiter) == Prepend(parts, Scan(value[i..], delimiter, value[start..i], quoted, escaped))
    {
      var c := value[i];
      assert value[i..][1..] == value[i + 1..];
      assert value[start..i] + [c] == value[start..i + 1];
      if IsControl(c) && c != '\t' {
        return None;
      }
      if c == '\\' {
        if quoted {
          escaped := !escaped;
        }
      } else if c == '"' {
        if !escaped {
          quoted := !quoted;
        }
        escaped := false;
      } else {
        escaped := false;
        if c == delimiter && !quoted {
          var part := TrimOWS(value[start..i]);
          if part == "" {
            return None;
          }
          PrependTwice(parts, [part], Scan(value[i + 1..], delimiter, "", quoted, false));
          parts := parts + [part];
          start := i + 1;
          assert value[start..i + 1] == "";
        }
      }
    }
    if quoted || escaped {
      return None;
    }
    assert value[start..|value|] == value[start..];
    var part := TrimOWS(value[start..]);
    if part == "" {
      return None;
    }
    assert [part] + [] == [part];
    r := Some(parts + [part]);
  }

  // ----- decoding one value

  function Push(c: char, r: Option<string>): Option<string> {
    if r.None? then None else Some([c] + r.value)
  }

  function Unescape(s: string): Option<string>
    decreases |s|
  {
    if s == "" then
      Some("")
    else if s[0] == '\\' then
      if |s| < 2 || IsControl(s[1]) then None else Push(s[1], Unescape(s[2..]))
    else if IsControl(s[0]) || s[0] == '"' then
      None
    else
      Push(s[0], Unescape(s[1..]))
  }

  function Decode(value: string): Option<string> {
    if value == "" then None
    else if value[0] != '"' then if IsToken(value) then Some(value) else None
    else if |value| < 2 || value[|value| - 1] != '"' then None
    else Unescape(value[1..|value| - 1])
  }

  function PushAll(decoded: string, r: Option<string>): Option<string> {
    if r.None? then None else Some(decoded + r.value)
  }

  lemma PushNothing(r: Option<string>)
    ensures PushAll("", r) == r
  {
    if r.Some? { assert "" + r.value == r.value; }
  }

  lemma PushNext(decoded: string, c: char, r: Option<string>)
    ensures PushAll(decoded, Push(c, r)) == PushAll(decoded + [c], r)
  {
    if r.Some? { assert decoded + ([c] + r.value) == decoded + [c] + r.value; }
  }

  method DecodeForwardedValue(value: string) returns (r: Option<string>)
    ensures r == Decode(value)
  {
    if value == "" {
      return None;
    }
    if value[0] != '"' {
      return if IsToken(value) then Some(value) else None;
    }
    if |value| < 2 || value[|value| - 1] != '"' {
      return None;
    }
    var end := |value| - 1;
    var decoded := "";
    var i := 1;
    PushNothing(Unescape(value[1..end]));
    while i < end
      invariant 1 <= i <= end
      invariant Decode(value) == PushAll(decoded, Unescape(value[i..end]))
      decreases end - i
    {
      var c := value[i];
      ghost var s := value[i..end];
      assert s[1..] == value[i + 1..end];
      assert i + 2 <= end ==> s[2..] == value[i + 2..end];
      if c == '\\' {
        i := i + 1;
        if i >= end {
          return None;
        }
        c := value[i];
        if IsControl(c) {
          return None;
        }
        PushNext(decoded, c, Unescape(value[i + 1..end]));
        decoded := decoded + [c];
        i := i + 1;
        continue;
      }
      if IsControl(c) || c == '"' {
        return None;
      }
      PushNext(decoded, c, Unescape(value[i + 1..end]));
      decoded := decoded + [c];
      i := i + 1;
    }
    assert decoded + "" == decoded;
    r := Some(decoded);
  }

  // ----- one element

  datatype Param = Param(name: string, value: string)

  /** name=value, the name in lower case and the value decoded. */
  function ParseParam(text: string): Option<Param> {
    var parameter := TrimOWS(text);
    var i := Index(parameter, "=");
    if i < 0 then
      None
    else
      var name, value := ToLower(TrimOWS(parameter[..i])), TrimOWS(parameter[i + 1..]);
      if !IsToken(name) || value == "" || Decode(value).None? then None else Some(Param(name, Decode(value).value))
  }

  /** The parameters of one element, in order, no name twice. */
  function ParseParams(parts: seq<string>): Option<seq<Param>> {
    if parts == [] then
      Some([])
    else
      var init, p := ParseParams(parts[..|parts| - 1]), ParseParam(parts[|parts| - 1]);
      if init.None? || p.None? || HasName(init.value, p.value.name) then None else Some(init.value + [p.value])
  }

  predicate HasName(ps: seq<Param>, name: string) {
    exists i :: 0 <= i < |ps| && ps[i].name == name
  }

  /** The value of the last parameter with that name. */
  function ValueOf(ps: seq<Param>, name: string): string {
    if ps == [] then "" else if ps[|ps| - 1].name == name then ps[|ps| - 1].value else ValueOf(ps[..|ps| - 1], name)
  }

  function ParseElement(element: string): Option<seq<Param>> {
    var parts := Split(element, ';');
    if parts.None? then None else ParseParams(parts.value)
  }

  /** The address an element names, by the given address parser. */
  function ElementAddress<A>(parse: string -> Option<A>, element: string): Option<A> {
    var ps := ParseElement(element);
    if ps.None? then None else ForAddress(parse, ps.value)
  }

  function ForAddress<A>(parse: string -> Option<A>, ps: seq<Param>): Option<A> {
    var value := ValueOf(ps, "for");
    if value == "" then None else parse(value)
  }

  lemma {:induction false} PrefixFails(parts: seq<string>, i: nat)
    requires i <= |parts| && ParseParams(parts[..i]).None?
    ensures ParseParams(parts).None?
    decreases |parts| - i
  {
    hide ParseParam, HasName;
    if i == |parts| {
      assert parts[..i] == parts;
    } else {
      assert parts[..i + 1][..i] == parts[..i];
      PrefixFails(parts, i + 1);
    }
  }

  lemma NoParams()
    ensures ParseParams([]) == Some([]) && ValueOf([], "for") == "" && forall name :: !HasName([], name)
  {
  }

  lemma NextParam(parts: seq<string>, i: nat, ps: seq<Param>)
    requires i < |parts| && ParseParams(parts[..i]) == Some(ps)
    ensures var p := ParseParam(parts[i]);
            if p.None? || HasName(ps, p.value.name) then ParseParams(parts).None?
            else ParseParams(parts[..i + 1]) == Some(ps + [p.value])
  {
    hide ParseParam, HasName;
    assert parts[..i + 1][..i] == parts[..i];
    if ParseParams(parts[..i + 1]).None? {
      PrefixFails(parts, i + 1);
    }
  }

  method ForwardedForAddress<A>(parse: string -> Option<A>, element: string) returns (r: Option<A>)
    ensures r == ElementAddress(parse, element)
  {
    hide Split, TrimOWS, Decode, IsToken, ToLower, ParseParams, HasName, ValueOf;
    var parts := SplitOutsideQuotes(element, ';');
    if parts.None? {
      return None;
    }
    var seen: set<string> := {};
    var forValue := "";
    ghost var ps: seq<Param> := [];
    NoParams();
    assert parts.value[..0] == [];
    for i := 0 to |parts.value|
      invariant ParseParams(parts.value[..i]) == Some(ps)
      invariant forall name :: name in seen <==> HasName(ps, name)
      invariant forValue == ValueOf(ps, "for")
    {
      var parameter := TrimOWS(parts.value[i]);
      NextParam(parts.value, i, ps);
      var at := Index(parameter, "=");
      if at < 0 {
        return None;
      }
      var name := ToLower(TrimOWS(parameter[..at]));
      var value := TrimOWS(parameter[at + 1..]);
      if !IsToken(name) || value == "" || name in seen {
        return None;
      }
      seen := seen + {name};
      var decoded := DecodeForwardedValue(value);
      if decoded.None? {
        return None;
      }
      if name == "for" {
        forValue := decoded.value;
      }
      SeenNext(ps, Param(name, decoded.value));
      ps := ps + [Param(name, decoded.value)];
    }
    assert parts.value[..|parts.value|] == parts.value;
    if forValue == "" {
      return None;
    }
    r := parse(forValue);
  }

  lemma SeenNext(ps: seq<Param>, p: Param)
    ensures forall name :: HasName(ps + [p], name) <==> HasName(ps, name) || name == p.name
    ensures ValueOf(ps + [p], "for") == if p.name == "for" then p.value else ValueOf(ps, "for")
  {
    assert (ps + [p])[..|ps|] == ps;
    forall name | HasName(ps, name)
      ensures HasName(ps + [p], name)
    {
      var i :| 0 <= i < |ps| && ps[i].name == name;
      assert (ps + [p])[i].name == name;
    }
    assert (ps + [p])[|ps|].name == p.name;
  }

  // ----- printing, and the round trip

  /** A byte a quoted string can carry. */
  predicate IsPrintable(c: char) {
    !IsControl(c)
  }

  predicate AllPrintable(v: string) {
    forall i :: 0 <= i < |v| ==> IsPrintable(v[i])
  }

  function Escape(v: string): string {
    if v == "" then "" else (if v[0] == '"' || v[0] == '\\' then ['\\', v[0]] else [v[0]]) + Escape(v[1..])
  }

  function Quote(v: string): string {
    "\"" + Escape(v) + "\""
  }

  function PrintParam(p: Param): string {
    p.name + "=" + Quote(p.value)
  }

  function Join(parts: seq<string>, delimiter: char): string {
    if parts == [] then "" else if |parts| == 1 then parts[0] else parts[0] + [delimiter] + Join(parts[1..], delimiter)
  }

  /** The state in which the scanner leaves a text that it neither rejects nor splits. */
  function Quiet(text: string, delimiter: char, quoted: bool, escaped: bool): Option<(bool, bool)>
    decreases |text|
  {
    if text == "" then
      Some((quoted, escaped))
    else
      var c, tail := text[0], text[1..];
      if IsControl(c) && c != '\t' then None
      else if c == '\\' then Quiet(tail, delimiter, quoted, if quoted then !escaped else escaped)
      else if c == '"' then Quiet(tail, delimiter, if escaped then quoted else !quoted, false)
      else if c == delimiter && !quoted then None
      else Quiet(tail, delimiter, quoted, false)
  }

  lemma {:induction false} ScanQuiet(text: string, rest: string, delimiter: char, part: string, quoted: bool, escaped: bool)
    requires Quiet(text, delimiter, quoted, escaped).Some?
    ensures var (q, e) := Quiet(text, delimiter, quoted, escaped).value;
            Scan(text + rest, delimiter, part, quoted, escaped) == Scan(rest, delimiter, part + text, q, e)
    decreases |text|
  {
    if text == "" {
      assert text + rest == rest && part + text == part;
    } else {
      var c, tail := text[0], text[1..];
      assert (text + rest)[0] == c && (text + rest)[1..] == tail + rest;
      assert part + [c] + tail == part + text;
      var q := if c == '"' && !escaped then !quoted else quoted;
      var e := if c == '\\' then (if quoted then !escaped else escaped) else false;
      ScanQuiet(tail, rest, delimiter, part + [c], q, e);
    }
  }

  lemma {:induction false} QuietAppend(a: string, b: string, delimiter: char, quoted: bool, escaped: bool)
    requires Quiet(a, delimiter, quoted, escaped).Some?
    ensures var (q, e) := Quiet(a, delimiter, quoted, escaped).value;
            Quiet(a + b, delimiter, quoted, escaped) == Quiet(b, delimiter, q, e)
    decreases |a|
  {
    if a == "" {
      assert a + b == b;
    } else {
      var c := a[0];
      assert (a + b)[0] == c && (a + b)[1..] == a[1..] + b;
      var q := if c == '"' && !escaped then !quoted else quoted;
      var e := if c == '\\' then (if quoted then !escaped else escaped) else false;
      QuietAppend(a[1..], b, delimiter, q, e);
    }
  }

  lemma {:induction false} QuietEscape(v: string, delimiter: char)
    requires AllPrintable(v)
    ensures Quiet(Escape(v), delimiter, true, false) == Some((true, false))
  {
    hide Quiet, Escape;
    EscapeStep(v);
    if v == "" {
      QuietEmpty(delimiter, true, false);
    } else {
      var c, tail := v[0], Escape(v[1..]);
      QuietEscape(v[1..], delimiter);
      assert IsPrintable(c);
      if c == '"' || c == '\\' {
        QuietChar('\\', [c] + tail, delimiter, true, false);
        QuietChar(c, tail, delimiter, true, true);
      } else {
        QuietChar(c, tail, delimiter, true, false);
      }
    }
  }

  lemma EscapeStep(v: string)
    ensures v == "" ==> Escape(v) == ""
    ensures v != "" ==>
              Escape(v) == if v[0] == '"' || v[0] == '\\' then ['\\'] + ([v[0]] + Escape(v[1..])) else [v[0]] + Escape(v[1..])
  {
  }

  lemma QuietEmpty(delimiter: char, quoted: bool, escaped: bool)
    ensures Quiet("", delimiter, quoted, escaped) == Some((quoted, escaped))
  {
  }

  lemma QuietChar(c: char, tail: string, delimiter: char, quoted: bool, escaped: bool)
    requires !IsControl(c)
    ensures Quiet([c] + tail, delimiter, quoted, escaped) ==
            if c == '\\' then Quiet(tail, delimiter, quoted, if quoted then !escaped else escaped)
            else if c == '"' then Quiet(tail, delimiter, if escaped then quoted else !quoted, false)
            else if c == delimiter && !quoted then None
            else Quiet(tail, delimiter, quoted, false)
  {
    assert ([c] + tail)[0] == c && ([c] + tail)[1..] == tail;
  }

  predicate IsDelimiter(c: char) {
    c == ',' || c == ';'
  }

  lemma QuietQuote(v: string, delimiter: char)
    requires AllPrintable(v) && IsDelimiter(delimiter)
    ensures Quiet(Quote(v), delimiter, false, false) == Some((false, false))
  {
    hide Quiet, Escape;
    var inner := Escape(v);
    QuietEscape(v, delimiter);
    QuietAppend(inner, ['"'] + "", delimiter, true, false);
    QuietChar('"', "", delimiter, true, false);
    QuietEmpty(delimiter, false, false);
    QuietChar('"', inner + (['"'] + ""), delimiter, false, false);
    assert Quote(v) == ['"'] + (inner + (['"'] + ""));
  }

  lemma {:induction false} QuietToken(s: string, delimiter: char)
    requires IsDelimiter(delimiter) && forall i :: 0 <= i < |s| ==> IsTokenChar(s[i])
    ensures Quiet(s, delimiter, false, false) == Some((false, false))
  {
    if s != "" {
      assert IsTokenChar(s[0]);
      QuietToken(s[1..], delimiter);
    }
  }

  /** A parameter that can be printed. */
  predicate Printable(p: Param) {
    IsToken(p.name) && AllPrintable(p.value)
  }

  lemma QuietParam(p: Param, delimiter: char)
    requires Printable(p) && IsDelimiter(delimiter)
    ensures Quiet(PrintParam(p), delimiter, false, false) == Some((false, false))
  {
    QuietToken(p.name, delimiter);
    QuietQuote(p.value, delimiter);
    QuietAppend(p.name, "=" + Quote(p.value), delimiter, false, false);
    assert ("=" + Quote(p.value))[1..] == Quote(p.value);
    assert p.name + ("=" + Quote(p.value)) == PrintParam(p);
  }

  /** No white space at either end. */
  predicate Bare(part: string) {
    part != "" && !IsOWS(part[0]) && !IsOWS(part[|part| - 1])
  }

  /** A part that splitting returns as it is. */
  ghost predicate Clean(part: string, delimiter: char) {
    Bare(part) && Quiet(part, delimiter, false, false) == Some((false, false))
  }

  lemma TrimClean(part: string)
    requires Bare(part)
    ensures TrimOWS(part) == part
  {
    TrimNothing(part, IsOWS);
  }

  lemma ScanOnly(part: string, delimiter: char)
    requires Quiet(part, delimiter, false, false) == Some((false, false)) && TrimOWS(part) != ""
    ensures Scan(part, delimiter, "", false, false) == Some([TrimOWS(part)])
  {
    hide Quiet, TrimOWS;
    ScanQuiet(part, "", delimiter, "", false, false);
    assert part + "" == part && "" + part == part && [TrimOWS(part)] + [] == [TrimOWS(part)];
  }

  lemma ScanFirst(part: string, tail: string, delimiter: char)
    requires IsDelimiter(delimiter) && Quiet(part, delimiter, false, false) == Some((false, false))
    ensures Scan(part + [delimiter] + tail, delimiter, "", false, false) == Close(part, Scan(tail, delimiter, "", false, false))
  {
    hide Quiet, TrimOWS;
    var rest := [delimiter] + tail;
    ScanQuiet(part, rest, delimiter, "", false, false);
    assert "" + part == part && part + rest == part + [delimiter] + tail;
    assert rest[1..] == tail;
  }

  // ----- what splitting means

  /** One part, which contains no delimiter outside quotes, up to the white space around it. */
  ghost predicate Part(text: string, delimiter: char, part: string) {
    Quiet(text, delimiter, false, false) == Some((false, false)) && TrimOWS(text) == part && part != ""
  }

  /** value consists of such parts with delimiters in between. */
  ghost predicate Consists(value: string, delimiter: char, parts: seq<string>)
    decreases |parts|
  {
    if parts == [] then false
    else if |parts| == 1 then Part(value, delimiter, parts[0])
    else exists k :: 0 <= k < |value| && CutAt(value, k, delimiter, parts[0]) && Consists(value[k + 1..], delimiter, parts[1..])
  }

  ghost predicate CutAt(value: string, k: nat, delimiter: char, part: string) {
    k < |value| && value[k] == delimiter && Part(value[..k], delimiter, part)
  }

  lemma {:induction false} ConsistsIsScanned(value: string, delimiter: char, parts: seq<string>)
    requires IsDelimiter(delimiter) && Consists(value, delimiter, parts)
    ensures Scan(value, delimiter, "", false, false) == Some(parts)
    decreases |parts|
  {
    hide Scan, Quiet, TrimOWS;
    if |parts| == 1 {
      ScanOnly(value, delimiter);
      assert [parts[0]] == parts;
    } else {
      var k :| 0 <= k < |value| && CutAt(value, k, delimiter, parts[0]) && Consists(value[k + 1..], delimiter, parts[1..]);
      ConsistsIsScanned(value[k + 1..], delimiter, parts[1..]);
      ScanFirst(value[..k], value[k + 1..], delimiter);
      assert value[..k] + [delimiter] + value[k + 1..] == value;
      assert [parts[0]] + parts[1..] == parts;
    }
  }

  lemma QuietNext(part: string, c: char, delimiter: char, quoted: bool, escaped: bool)
    requires Quiet(part, delimiter, false, false) == Some((quoted, escaped))
    ensures Quiet(part + [c], delimiter, false, false) == Quiet([c], delimiter, quoted, escaped)
  {
    QuietAppend(part, [c], delimiter, false, false);
  }

  lemma {:induction false} OpenOnlyInQuotes(text: string, delimiter: char, quoted: bool, escaped: bool)
    requires escaped ==> quoted
    ensures Quiet(text, delimiter, quoted, escaped).Some? ==>
              var (q, e) := Quiet(text, delimiter, quoted, escaped).value; e ==> q
    decreases |text|
  {
    if text != "" {
      var c := text[0];
      var q := if c == '"' && !escaped then !quoted else quoted;
      var e := if c == '\\' then (if quoted then !escaped else escaped) else false;
      OpenOnlyInQuotes(text[1..], delimiter, q, e);
    }
  }

  lemma {:induction false} ScannedConsists(part: string, rest: string, delimiter: char, quoted: bool, escaped: bool)
    requires IsDelimiter(delimiter) && Quiet(part, delimiter, false, false) == Some((quoted, escaped))
    ensures match Scan(rest, delimiter, part, quoted, escaped)
            case Some(parts) => Consists(part + rest, delimiter, parts)
            case None => true
    decreases |rest|
  {
    hide Quiet, TrimOWS;
    if Scan(rest, delimiter, part, quoted, escaped).Some? {
      if rest == "" {
        assert part + rest == part;
      } else {
        var c, tail := rest[0], rest[1..];
        assert part + [c] + tail == part + rest;
        OpenOnlyInQuotes(part, delimiter, false, false);
        if c == delimiter && !quoted {
          QuietNothing(delimiter);
          ScannedConsists("", tail, delimiter, false, false);
          assert "" + tail == tail;
          FirstCut(part, c, tail, delimiter, Scan(tail, delimiter, "", false, false).value);
        } else {
          QuietNext(part, c, delimiter, quoted, escaped);
          var q := if c == '"' && !escaped then !quoted else quoted;
          var e := if c == '\\' then (if quoted then !escaped else escaped) else false;
          QuietOne(c, delimiter, quoted, escaped);
          ScannedConsists(part + [c], tail, delimiter, q, e);
        }
      }
    }
  }

  lemma QuietNothing(delimiter: char)
    ensures Quiet("", delimiter, false, false) == Some((false, false))
  {
  }

  lemma QuietOne(c: char, delimiter: char, quoted: bool, escaped: bool)
    requires !(IsControl(c) && c != '\t') && !(c == delimiter && !quoted) && IsDelimiter(delimiter)
    ensures var q := if c == '"' && !escaped then !quoted else quoted;
            var e := if c == '\\' then (if quoted then !escaped else escaped) else false;
            Quiet([c], delimiter, quoted, escaped) == Some((q, e))
  {
    assert [c][1..] == "";
  }

  lemma FirstCut(part: string, c: char, tail: string, delimiter: char, parts: seq<string>)
    requires c == delimiter && Quiet(part, delimiter, false, false) == Some((false, false))
    requires TrimOWS(part) != "" && Consists(tail, delimiter, parts)
    ensures Consists(part + [c] + tail, delimiter, [TrimOWS(part)] + parts)
  {
    hide Quiet, TrimOWS;
    var value, all := part + [c] + tail, [TrimOWS(part)] + parts;
    var k := |part|;
    assert value[..k] == part && value[k + 1..] == tail && all[1..] == parts;
    assert CutAt(value, k, delimiter, all[0]);
  }

  lemma BlankTrims(s: string)
    requires TrimOWS(s) == ""
    ensures forall i :: 0 <= i < |s| ==> IsOWS(s[i])
  {
    var left := TrimLeft(s, IsOWS);
    BlankRight(left);
    BlankLeft(s);
  }

  lemma {:induction false} BlankRight(s: string)
    requires TrimRight(s, IsOWS) == ""
    ensures forall i :: 0 <= i < |s| ==> IsOWS(s[i])
  {
    hide TrimRight, IsOWS;
    if s != "" {
      TrimRightStep(s, IsOWS);
      assert IsOWS(s[|s| - 1]);
      BlankRight(s[..|s| - 1]);
      forall i | 0 <= i < |s| - 1
        ensures IsOWS(s[i])
      {
        assert s[i] == s[..|s| - 1][i];
      }
    }
  }

  lemma {:induction false} BlankLeft(s: string)
    requires TrimLeft(s, IsOWS) == ""
    ensures forall i :: 0 <= i < |s| ==> IsOWS(s[i])
  {
    hide TrimLeft, IsOWS;
    if s != "" {
      TrimLeftStep(s, IsOWS);
      assert IsOWS(s[0]);
      BlankLeft(s[1..]);
      forall i | 0 < i < |s|
        ensures IsOWS(s[i])
      {
        assert s[i] == s[1..][i - 1];
      }
    }
  }

  lemma {:induction false} BlankQuiet(s: string, delimiter: char)
    requires IsDelimiter(delimiter) && forall i :: 0 <= i < |s| ==> IsOWS(s[i])
    ensures Quiet(s, delimiter, false, false) == Some((false, false))
  {
    if s != "" {
      assert IsOWS(s[0]);
      BlankQuiet(s[1..], delimiter);
    }
  }

  /** Splitting gives exactly the parts that the value consists of, and nothing when there is no way to see
      it so: a delimiter in quotes never separates, one outside always does, and an empty part, a control
      character or an open quote rejects the whole. */
  lemma SplitMeaning(value: string, delimiter: char, parts: seq<string>)
    requires IsDelimiter(delimiter)
    ensures Split(value, delimiter) == Some(parts) <==> Consists(value, delimiter, parts)
  {
    hide Quiet, TrimOWS, Consists;
    QuietNothing(delimiter);
    ScannedConsists("", value, delimiter, false, false);
    assert "" + value == value;
    if Consists(value, delimiter, parts) {
      ConsistsIsScanned(value, delimiter, parts);
    }
    SplitIsScan(value, delimiter);
  }

  /** The first check of splitting is never needed: blank text has an empty part. */
  lemma SplitIsScan(value: string, delimiter: char)
    requires IsDelimiter(delimiter)
    ensures Split(value, delimiter) == Scan(value, delimiter, "", false, false)
  {
    hide Quiet, TrimOWS;
    if TrimOWS(value) == "" {
      BlankTrims(value);
      BlankQuiet(value, delimiter);
      ScanBlank(value, delimiter);
    }
  }

  lemma ScanBlank(value: string, delimiter: char)
    requires Quiet(value, delimiter, false, false) == Some((false, false)) && TrimOWS(value) == ""
    ensures Scan(value, delimiter, "", false, false).None?
  {
    hide Quiet, TrimOWS;
    ScanQuiet(value, "", delimiter, "", false, false);
    assert value + "" == value && "" + value == value;
  }

  lemma {:induction false} ScanJoin(parts: seq<string>, delimiter: char)
    requires IsDelimiter(delimiter) && parts != [] && forall i :: 0 <= i < |parts| ==> Clean(parts[i], delimiter)
    ensures Scan(Join(parts, delimiter), delimiter, "", false, false) == Some(parts)
    decreases |parts|
  {
    hide Scan, Quiet, TrimOWS;
    TrimClean(parts[0]);
    if |parts| == 1 {
      ScanOnly(parts[0], delimiter);
      assert [parts[0]] == parts;
    } else {
      ScanJoin(parts[1..], delimiter);
      ScanFirst(parts[0], Join(parts[1..], delimiter), delimiter);
      assert [parts[0]] + parts[1..] == parts;
    }
  }

  lemma {:induction false} JoinEnds(parts: seq<string>, delimiter: char)
    requires parts != [] && forall i :: 0 <= i < |parts| ==> Bare(parts[i])
    ensures Bare(Join(parts, delimiter))
    decreases |parts|
  {
    if |parts| > 1 {
      JoinEnds(parts[1..], delimiter);
    }
  }

  /** Splitting undoes joining. */
  lemma SplitJoin(parts: seq<string>, delimiter: char)
    requires IsDelimiter(delimiter) && parts != [] && forall i :: 0 <= i < |parts| ==> Clean(parts[i], delimiter)
    ensures Split(Join(parts, delimiter), delimiter) == Some(parts)
  {
    ScanJoin(parts, delimiter);
    JoinEnds(parts, delimiter);
    TrimClean(Join(parts, delimiter));
  }

  // ----- what decoding means

  /** s is one of the ways to write v inside a quoted string: any character may be escaped, a quote and a
      backslash must be, and no control character may appear. */
  predicate Writes(s: string, v: string)
    decreases |v|
  {
    if v == "" then
      s == ""
    else
      !IsControl(v[0]) && s != ""
      && if s[0] == '\\' then |s| >= 2 && s[1] == v[0] && Writes(s[2..], v[1..])
         else v[0] != '"' && s[0] == v[0] && Writes(s[1..], v[1..])
  }

  lemma {:induction false} UnescapeMeaning(s: string, v: string)
    ensures Unescape(s) == Some(v) <==> Writes(s, v)
    decreases |v|
  {
    if v != "" && s != "" && s[0] == '\\' {
      if |s| >= 2 {
        UnescapeMeaning(s[2..], v[1..]);
        PushIs(s[1], Unescape(s[2..]), v);
      }
    } else if v != "" && s != "" {
      UnescapeMeaning(s[1..], v[1..]);
      PushIs(s[0], Unescape(s[1..]), v);
    }
  }

  lemma PushIs(c: char, r: Option<string>, v: string)
    requires v != ""
    ensures Push(c, r) == Some(v) <==> v[0] == c && r == Some(v[1..])
  {
    assert [v[0]] + v[1..] == v;
  }

  /** A value is decoded to v exactly when it is the token v, or a quoted string that writes v. */
  lemma DecodeMeaning(value: string, v: string)
    ensures Decode(value) == Some(v) <==>
              (IsToken(value) && v == value)
              || (|value| >= 2 && value[0] == '"' && value[|value| - 1] == '"' && Writes(value[1..|value| - 1], v))
  {
    if value != "" && value[0] == '"' {
      assert !IsTokenChar(value[0]);
      if |value| >= 2 {
        UnescapeMeaning(value[1..|value| - 1], v);
      }
    }
  }

  lemma {:induction false} UnescapeEscape(v: string)
    requires AllPrintable(v)
    ensures Unescape(Escape(v)) == Some(v)
  {
    if v != "" {
      var c, tail := v[0], Escape(v[1..]);
      UnescapeEscape(v[1..]);
      assert IsPrintable(c) && v == [c] + v[1..];
      if c == '"' || c == '\\' {
        assert Escape(v)[2..] == tail;
      } else {
        assert Escape(v)[1..] == tail;
      }
    }
  }

  lemma DecodeQuote(v: string)
    requires AllPrintable(v)
    ensures Decode(Quote(v)) == Some(v)
  {
    UnescapeEscape(v);
    assert Quote(v)[1..|Quote(v)| - 1] == Escape(v);
  }

  function Lowered(p: Param): Param {
    Param(ToLower(p.name), p.value)
  }

  function Texts(ps: seq<Param>): (texts: seq<string>)
    ensures |texts| == |ps|
    ensures forall i :: 0 <= i < |ps| ==> texts[i] == PrintParam(ps[i])
  {
    if ps == [] then [] else Texts(ps[..|ps| - 1]) + [PrintParam(ps[|ps| - 1])]
  }

  function LoweredAll(ps: seq<Param>): (r: seq<Param>)
    ensures |r| == |ps|
    ensures forall i :: 0 <= i < |ps| ==> r[i] == Lowered(ps[i])
  {
    if ps == [] then [] else LoweredAll(ps[..|ps| - 1]) + [Lowered(ps[|ps| - 1])]
  }

  /** An element that can be printed: at least one parameter, names distinct ignoring case. */
  ghost predicate PrintableElement(ps: seq<Param>) {
    && ps != []
    && (forall i :: 0 <= i < |ps| ==> Printable(ps[i]))
    && (forall i, j :: 0 <= i < j < |ps| ==> !EqualFold(ps[i].name, ps[j].name))
  }

  function PrintElement(ps: seq<Param>): string {
    Join(Texts(ps), ';')
  }

  lemma NameEnds(p: Param)
    requires Printable(p)
    ensures Bare(PrintParam(p))
    ensures TrimOWS(p.name) == p.name
  {
    hide Escape, TrimOWS, IsTokenChar;
    TokenIsBare(p.name);
    TrimClean(p.name);
    var s := PrintParam(p);
    assert s[0] == p.name[0] && s[|s| - 1] == '"';
  }

  lemma TokenIsBare(name: string)
    requires IsToken(name)
    ensures Bare(name)
  {
    assert IsTokenChar(name[0]) && IsTokenChar(name[|name| - 1]);
  }

  /** The first `=` is the one after the name. */
  lemma CutAtName(p: Param)
    requires Printable(p)
    ensures Index(PrintParam(p), "=") == |p.name|
    ensures PrintParam(p)[..|p.name|] == p.name && PrintParam(p)[|p.name| + 1..] == Quote(p.value)
  {
    hide Quote;
    var s := PrintParam(p);
    assert s[|p.name|..|p.name| + 1] == "=";
    assert OccursAt(s, "=", |p.name|);
    forall j: nat | j < |p.name|
      ensures !OccursAt(s, "=", j)
    {
      assert IsTokenChar(p.name[j]) && s[j] == p.name[j];
      assert s[j..j + 1][0] == s[j];
    }
  }

  lemma LowerToken(name: string)
    requires IsToken(name)
    ensures IsToken(ToLower(name))
  {
    hide ToLower;
    forall i | 0 <= i < |name|
      ensures IsTokenChar(ToLower(name)[i])
    {
      assert IsTokenChar(name[i]);
    }
  }

  /** Reading back one printed parameter. */
  lemma ParseParamRoundTrip(p: Param)
    requires Printable(p)
    ensures ParseParam(PrintParam(p)) == Some(Lowered(p))
  {
    hide Quote, TrimOWS, Decode, IsToken, ToLower, Printable;
    NameEnds(p);
    TrimClean(PrintParam(p));
    CutAtName(p);
    PrintableParts(p);
    LowerToken(p.name);
    QuoteEnds(p.value);
    TrimClean(Quote(p.value));
    DecodeQuote(p.value);
  }

  lemma PrintableParts(p: Param)
    requires Printable(p)
    ensures IsToken(p.name) && AllPrintable(p.value)
  {
  }

  lemma QuoteEnds(v: string)
    ensures Quote(v) != "" && Quote(v)[0] == '"' && Quote(v)[|Quote(v)| - 1] == '"'
  {
  }

  lemma {:induction false} ParseTexts(ps: seq<Param>)
    requires (forall i :: 0 <= i < |ps| ==> Printable(ps[i]))
    requires (forall i, j :: 0 <= i < j < |ps| ==> !EqualFold(ps[i].name, ps[j].name))
    ensures ParseParams(Texts(ps)) == Some(LoweredAll(ps))
    decreases |ps|
  {
    hide ParseParam, PrintParam, Printable, ToLower;
    if ps != [] {
      var init, p := ps[..|ps| - 1], ps[|ps| - 1];
      ParseTexts(init);
      ParseParamRoundTrip(p);
      assert Texts(ps)[..|ps| - 1] == Texts(init);
      forall i | 0 <= i < |init|
        ensures LoweredAll(init)[i].name != ToLower(p.name)
      {
        assert !EqualFold(ps[i].name, ps[|ps| - 1].name);
      }
    }
  }

  /** Reading back one printed element. */
  lemma ElementRoundTrip(ps: seq<Param>)
    requires PrintableElement(ps)
    ensures ParseElement(PrintElement(ps)) == Some(LoweredAll(ps))
  {
    hide Split, ParseParams, PrintParam, Quiet, Join;
    forall i | 0 <= i < |ps|
      ensures Clean(Texts(ps)[i], ';')
    {
      NameEnds(ps[i]);
      QuietParam(ps[i], ';');
    }
    SplitJoin(Texts(ps), ';');
    ParseTexts(ps);
  }

  lemma {:induction false} QuietJoin(parts: seq<string>)
    requires parts != [] && forall i :: 0 <= i < |parts| ==> Quiet(parts[i], ',', false, false) == Some((false, false))
    ensures Quiet(Join(parts, ';'), ',', false, false) == Some((false, false))
    decreases |parts|
  {
    if |parts| > 1 {
      var rest := [';'] + Join(parts[1..], ';');
      QuietJoin(parts[1..]);
      QuietAppend(parts[0], rest, ',', false, false);
      assert rest[1..] == Join(parts[1..], ';');
      assert parts[0] + rest == Join(parts, ';');
    }
  }

  lemma CleanElement(ps: seq<Param>)
    requires PrintableElement(ps)
    ensures Clean(PrintElement(ps), ',')
  {
    hide PrintParam, Quiet, Join, Bare;
    forall i | 0 <= i < |ps|
      ensures Quiet(Texts(ps)[i], ',', false, false) == Some((false, false))
      ensures Bare(Texts(ps)[i])
    {
      NameEnds(ps[i]);
      QuietParam(ps[i], ',');
    }
    QuietJoin(Texts(ps));
    JoinEnds(Texts(ps), ';');
  }

  lemma {:induction false} ValueOfAt(ps: seq<Param>, name: string, i: nat)
    requires i < |ps| && ps[i].name == name && forall j :: i < j < |ps| ==> ps[j].name != name
    ensures ValueOf(ps, name) == ps[i].value
  {
    if i < |ps| - 1 {
      ValueOfAt(ps[..|ps| - 1], name, i);
    }
  }

  lemma {:induction false} ValueOfNone(ps: seq<Param>, name: string)
    requires forall j :: 0 <= j < |ps| ==> ps[j].name != name
    ensures ValueOf(ps, name) == ""
  {
    if ps != [] {
      ValueOfNone(ps[..|ps| - 1], name);
    }
  }

  /** A printed element names the address that its parameter `for` names, however that is capitalised and
      wherever it stands; without one, or with an empty one, it names none. */
  lemma ForMeaning<A>(parse: string -> Option<A>, ps: seq<Param>)
    requires PrintableElement(ps)
    ensures forall i :: 0 <= i < |ps| && ToLower(ps[i].name) == "for" ==>
              ElementAddress(parse, PrintElement(ps)) == if ps[i].value == "" then None else parse(ps[i].value)
    ensures (forall i :: 0 <= i < |ps| ==> ToLower(ps[i].name) != "for") ==> ElementAddress(parse, PrintElement(ps)) == None
  {
    hide ToLower, PrintElement, ParseElement, ValueOf;
    ElementRoundTrip(ps);
    var lowered := LoweredAll(ps);
    forall i | 0 <= i < |ps| && ToLower(ps[i].name) == "for"
      ensures ValueOf(lowered, "for") == ps[i].value
    {
      forall j | i < j < |ps|
        ensures lowered[j].name != "for"
      {
        assert !EqualFold(ps[i].name, ps[j].name);
      }
      ValueOfAt(lowered, "for", i);
    }
    if forall i :: 0 <= i < |ps| ==> ToLower(ps[i].name) != "for" {
      ValueOfNone(lowered, "for");
    }
  }

  // ----- whole headers

  type Element = seq<Param>

  function Elements(es: seq<Element>): (texts: seq<string>)
    ensures |texts| == |es|
    ensures forall i :: 0 <= i < |es| ==> texts[i] == PrintElement(es[i])
  {
    if es == [] then [] else [PrintElement(es[0])] + Elements(es[1..])
  }

  function PrintHeader(es: seq<Element>): string {
    Join(Elements(es), ',')
  }

  ghost predicate PrintableHeader(es: seq<Element>) {
    es != [] && forall i :: 0 <= i < |es| ==> PrintableElement(es[i])
  }

  /** Splitting a printed header gives its elements, and parsing each gives its parameters. */
  lemma HeaderRoundTrip(es: seq<Element>)
    requires PrintableHeader(es)
    ensures Split(PrintHeader(es), ',') == Some(Elements(es))
    ensures forall i :: 0 <= i < |es| ==> ParseElement(Elements(es)[i]) == Some(LoweredAll(es[i]))
  {
    forall i | 0 <= i < |es|
      ensures Clean(Elements(es)[i], ',')
      ensures ParseElement(Elements(es)[i]) == Some(LoweredAll(es[i]))
    {
      CleanElement(es[i]);
      ElementRoundTrip(es[i]);
    }
    SplitJoin(Elements(es), ',');
  }
}
