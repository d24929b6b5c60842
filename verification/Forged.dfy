/** What text in front of a Forwarded header can do, if proxies append their elements to whatever a client
    sent: the scanner and the parser of internal/clientip/resolver.go on text that is not printed by anybody. */
module Forged {
  import opened Strings
  import opened Forwarded

  // ----- quotes and backslashes

  /** Whether the scanner is inside quotes, and after a backslash there, at the end of a text. */
  function EndState(text: string, quoted: bool, escaped: bool): (bool, bool)
    decreases |text|
  {
    if text == "" then
      (quoted, escaped)
    else
      var c, tail := text[0], text[1..];
      if c == '\\' then EndState(tail, quoted, if quoted then !escaped else escaped)
      else if c == '"' then EndState(tail, if escaped then quoted else !quoted, false)
      else EndState(tail, quoted, false)
  }

  /** There is a backslash outside quotes. */
  predicate StrayBackslash(text: string, quoted: bool, escaped: bool)
    decreases |text|
  {
    if text == "" then
      false
    else
      var c, tail := text[0], text[1..];
      if c == '\\' then !quoted || StrayBackslash(tail, quoted, !escaped)
      else if c == '"' then StrayBackslash(tail, if escaped then quoted else !quoted, false)
      else StrayBackslash(tail, quoted, false)
  }

  lemma {:induction false} EndStateAppend(a: string, b: string, quoted: bool, escaped: bool)
    ensures var (q, e) := EndState(a, quoted, escaped);
            EndState(a + b, quoted, escaped) == EndState(b, q, e)
    decreases |a|
  {
    if a == "" {
      assert a + b == b;
    } else {
      var c, tail := a[0], a[1..];
      assert (a + b)[0] == c && (a + b)[1..] == tail + b;
      var q := if c == '"' && !escaped then !quoted else quoted;
      var e := if c == '\\' then (if quoted then !escaped else escaped) else false;
      EndStateAppend(tail, b, q, e);
    }
  }

  lemma {:induction false} StrayAppend(a: string, b: string, quoted: bool, escaped: bool)
    ensures var (q, e) := EndState(a, quoted, escaped);
            StrayBackslash(a + b, quoted, escaped) <==> StrayBackslash(a, quoted, escaped) || StrayBackslash(b, q, e)
    decreases |a|
  {
    if a == "" {
      assert a + b == b;
    } else {
      var c, tail := a[0], a[1..];
      assert (a + b)[0] == c && (a + b)[1..] == tail + b;
      if c != '\\' || quoted {
        var q := if c == '"' && !escaped then !quoted else quoted;
        var e := if c == '\\' then !escaped else false;
        StrayAppend(tail, b, q, e);
      }
    }
  }

  predicate Plain(text: string) {
    forall i :: 0 <= i < |text| ==> text[i] != '"' && text[i] != '\\'
  }

  lemma {:induction false} PlainStays(text: string, quoted: bool)
    requires Plain(text)
    ensures EndState(text, quoted, false) == (quoted, false) && !StrayBackslash(text, quoted, false)
  {
    if text != "" {
      PlainStays(text[1..], quoted);
    }
  }

  lemma {:induction false} QuietEnds(text: string, delimiter: char, quoted: bool, escaped: bool)
    ensures match Quiet(text, delimiter, quoted, escaped)
            case Some(state) => state == EndState(text, quoted, escaped)
            case None => true
    decreases |text|
  {
    if text != "" {
      var c, tail := text[0], text[1..];
      var q := if c == '"' && !escaped then !quoted else quoted;
      var e := if c == '\\' then (if quoted then !escaped else escaped) else false;
      QuietEnds(tail, delimiter, q, e);
    }
  }

  /** Only text that closes its quotes is split. */
  lemma {:induction false} ScanEnds(text: string, delimiter: char, part: string, quoted: bool, escaped: bool)
    requires IsDelimiter(delimiter)
    ensures Scan(text, delimiter, part, quoted, escaped).Some? ==> EndState(text, quoted, escaped) == (false, false)
    decreases |text|
  {
    if text != "" {
      var c, tail := text[0], text[1..];
      var q := if c == '"' && !escaped then !quoted else quoted;
      var e := if c == '\\' then (if quoted then !escaped else escaped) else false;
      ScanEnds(tail, delimiter, if c == delimiter && !quoted then "" else part + [c], q, e);
    }
  }

  // ----- a comma between two texts

  function Both(a: Option<seq<string>>, b: Option<seq<string>>): Option<seq<string>> {
    if a.None? || b.None? then None else Some(a.value + b.value)
  }

  lemma CloseBoth(part: string, a: Option<seq<string>>, b: Option<seq<string>>)
    ensures Both(Close(part, a), b) == Close(part, Both(a, b))
  {
    hide TrimOWS;
    if a.Some? && b.Some? {
      assert [TrimOWS(part)] + a.value + b.value == [TrimOWS(part)] + (a.value + b.value);
    }
  }

  /** A delimiter outside quotes separates what is before it from what is after it. */
  lemma {:induction false} ScanApart(s: string, t: string, delimiter: char, part: string, quoted: bool, escaped: bool)
    requires IsDelimiter(delimiter) && (escaped ==> quoted) && !EndState(s, quoted, escaped).0
    ensures Scan(s + [delimiter] + t, delimiter, part, quoted, escaped) ==
            Both(Scan(s, delimiter, part, quoted, escaped), Scan(t, delimiter, "", false, false))
    decreases |s|
  {
    hide TrimOWS, Close;
    var whole := s + [delimiter] + t;
    if s == "" {
      assert whole[0] == delimiter && whole[1..] == t;
      CloseBoth(part, Some([]), Scan(t, delimiter, "", false, false));
      BothNothing(Scan(t, delimiter, "", false, false));
    } else {
      var c, tail := s[0], s[1..];
      assert whole[0] == c && whole[1..] == tail + [delimiter] + t;
      var q := if c == '"' && !escaped then !quoted else quoted;
      var e := if c == '\\' then (if quoted then !escaped else escaped) else false;
      if c == delimiter && !quoted {
        ScanApart(tail, t, delimiter, "", q, e);
        CloseBoth(part, Scan(tail, delimiter, "", q, e), Scan(t, delimiter, "", false, false));
      } else {
        ScanApart(tail, t, delimiter, part + [c], q, e);
      }
    }
  }

  lemma BothNothing(r: Option<seq<string>>)
    ensures Both(Some([]), r) == r
  {
    if r.Some? {
      assert [] + r.value == r.value;
    }
  }

  // ----- what is accepted has no stray backslash

  lemma WithoutOuterBlank(s: string) returns (a: string, b: string)
    ensures s == a + TrimOWS(s) + b && Plain(a) && Plain(b)
  {
    hide Trim;
    a, b := TrimMeaning(s, IsOWS);
    BlankIsPlain(a);
    BlankIsPlain(b);
  }

  lemma BlankIsPlain(s: string)
    requires forall i :: 0 <= i < |s| ==> IsOWS(s[i])
    ensures Plain(s)
  {
    forall i | 0 <= i < |s|
      ensures s[i] != '"' && s[i] != '\\'
    {
      assert IsOWS(s[i]);
    }
  }

  /** White space around a text makes no backslash stray. */
  lemma TrimmedStray(s: string)
    requires !StrayBackslash(TrimOWS(s), false, false)
    ensures !StrayBackslash(s, false, false)
  {
    hide StrayBackslash, EndState, TrimOWS, Plain;
    var a, b := WithoutOuterBlank(s);
    var t := TrimOWS(s);
    PlainStays(a, false);
    StrayAppend(a, t + b, false, false);
    StrayAppend(t, b, false, false);
    EndStateOfBlank(b, EndState(t, false, false).0, EndState(t, false, false).1);
    assert a + (t + b) == a + t + b;
  }

  /** Nor does plain text add any, whatever comes before it. */
  lemma {:induction false} EndStateOfBlank(text: string, quoted: bool, escaped: bool)
    requires Plain(text)
    ensures !StrayBackslash(text, quoted, escaped)
  {
    if text != "" {
      EndStateOfBlank(text[1..], quoted, false);
    }
  }

  lemma TokenIsPlain(s: string)
    requires IsToken(s)
    ensures Plain(s)
  {
    forall i | 0 <= i < |s|
      ensures s[i] != '"' && s[i] != '\\'
    {
      assert IsTokenChar(s[i]);
    }
  }

  lemma LoweredTokenIsPlain(s: string)
    requires IsToken(ToLower(s))
    ensures Plain(s)
  {
    hide ToLower;
    forall i | 0 <= i < |s|
      ensures s[i] != '"' && s[i] != '\\'
    {
      assert IsTokenChar(ToLower(s)[i]);
      assert ToLower(s)[i] == LowerChar(s[i]);
    }
  }

  /** What a quoted string may contain keeps the scanner inside it. */
  lemma {:induction false} QuotedStays(s: string)
    requires Unescape(s).Some?
    ensures EndState(s, true, false) == (true, false) && !StrayBackslash(s, true, false)
    decreases |s|
  {
    if s != "" {
      if s[0] == '\\' {
        var c, tail := s[1], s[2..];
        assert s[1..] == [c] + tail && s[1..][1..] == tail;
        QuotedStays(tail);
      } else {
        QuotedStays(s[1..]);
      }
    }
  }

  lemma DecodedHasNoStray(value: string)
    requires Decode(value).Some?
    ensures !StrayBackslash(value, false, false)
  {
    if value[0] != '"' {
      TokenIsPlain(value);
      PlainStays(value, false);
    } else {
      var body := value[1..|value| - 1];
      QuotedStays(body);
      StrayAppend(body, "\"", true, false);
      assert value[1..] == body + "\"";
      assert "\""[1..] == "";
    }
  }

  lemma ParamHasNoStray(text: string)
    requires ParseParam(text).Some?
    ensures !StrayBackslash(text, false, false)
  {
    hide StrayBackslash, EndState, TrimOWS, Plain, Index, Decode, IsToken, ToLower;
    var p := TrimOWS(text);
    var i := Index(p, "=");
    EqualsAt(p);
    var name, value := p[..i], p[i + 1..];
    LoweredTokenIsPlain(TrimOWS(name));
    PlainStays(TrimOWS(name), false);
    TrimmedStray(name);
    DecodedHasNoStray(TrimOWS(value));
    TrimmedStray(value);
    NameIsPlain(name);
    PlainStays(name + "=", false);
    StrayAppend(name + "=", value, false, false);
    TrimmedStray(text);
  }

  lemma EqualsAt(p: string)
    ensures Index(p, "=") >= 0 ==> Index(p, "=") < |p| && p == p[..Index(p, "=")] + "=" + p[Index(p, "=") + 1..]
  {
    hide Index;
    var i := Index(p, "=");
    if i >= 0 {
      assert OccursAt(p, "=", i);
      assert p[i..i + 1] == "=";
    }
  }

  lemma NameIsPlain(name: string)
    requires Plain(TrimOWS(name))
    ensures Plain(name + "=")
  {
    hide TrimOWS;
    var a, b := WithoutOuterBlank(name);
    var t := TrimOWS(name);
    forall i | 0 <= i < |name|
      ensures name[i] != '"' && name[i] != '\\'
    {
      if i < |a| {
        assert name[i] == a[i];
      } else if i < |a| + |t| {
        assert name[i] == t[i - |a|];
      } else {
        assert name[i] == b[i - |a| - |t|];
      }
    }
  }

  ghost predicate NoneStray(parts: seq<string>) {
    forall i :: 0 <= i < |parts| ==> !StrayBackslash(parts[i], false, false)
  }

  /** If no part has a stray backslash, what consists of the parts has none. */
  lemma {:induction false} PartsHaveNoStray(value: string, delimiter: char, parts: seq<string>)
    requires IsDelimiter(delimiter) && Consists(value, delimiter, parts) && NoneStray(parts)
    ensures !StrayBackslash(value, false, false)
    decreases |parts|
  {
    hide StrayBackslash, EndState, TrimOWS, Quiet;
    assert !StrayBackslash(parts[0], false, false);
    if |parts| == 1 {
      TrimmedStray(value);
    } else {
      var k :| 0 <= k < |value| && CutAt(value, k, delimiter, parts[0]) && Consists(value[k + 1..], delimiter, parts[1..]);
      var first, rest := value[..k], value[k + 1..];
      TrimmedStray(first);
      QuietEnds(first, delimiter, false, false);
      PartsHaveNoStray(rest, delimiter, parts[1..]);
      DelimiterIsPlain(delimiter);
      StrayAppend(first, [delimiter] + rest, false, false);
      StrayAppend([delimiter], rest, false, false);
      assert value == first + ([delimiter] + rest);
    }
  }

  lemma DelimiterIsPlain(delimiter: char)
    requires IsDelimiter(delimiter)
    ensures EndState([delimiter], false, false) == (false, false) && !StrayBackslash([delimiter], false, false)
  {
    PlainStays([delimiter], false);
  }

  lemma {:induction false} ParamsParse(parts: seq<string>, i: nat)
    requires ParseParams(parts).Some? && i < |parts|
    ensures ParseParam(parts[i]).Some?
  {
    hide ParseParam;
    if i < |parts| - 1 {
      ParamsParse(parts[..|parts| - 1], i);
    }
  }

  lemma ElementHasNoStray(element: string)
    requires ParseElement(element).Some?
    ensures !StrayBackslash(element, false, false)
  {
    hide Split, Consists, ParseParams, ParseParam, StrayBackslash;
    var params := Split(element, ';').value;
    SplitMeaning(element, ';', params);
    forall i | 0 <= i < |params|
      ensures !StrayBackslash(params[i], false, false)
    {
      ParamsParse(params, i);
      ParamHasNoStray(params[i]);
    }
    PartsHaveNoStray(element, ';', params);
  }

  /** A line all of whose elements parse has no backslash outside quotes. */
  lemma LineHasNoStray(line: string, elements: seq<string>)
    requires Split(line, ',') == Some(elements)
    requires forall i :: 0 <= i < |elements| ==> ParseElement(elements[i]).Some?
    ensures !StrayBackslash(line, false, false)
  {
    hide Split, Consists, ParseElement, StrayBackslash;
    SplitMeaning(line, ',', elements);
    forall i | 0 <= i < |elements|
      ensures !StrayBackslash(elements[i], false, false)
    {
      ElementHasNoStray(elements[i]);
    }
    PartsHaveNoStray(line, ',', elements);
  }

  // ----- text that cannot be turned inside out

  /** Read from inside quotes, the text does not get out of them for good, or shows a backslash outside. */
  predicate Resists(text: string) {
    StrayBackslash(text, true, false) || EndState(text, true, false).0
  }

  /** Such a text is taken apart by itself, whatever text stands before a comma in front of it, or the line
      is rejected. */
  lemma HonestStandsAlone(forged: string, honest: string, elements: seq<string>)
    requires Resists(honest) && Split(forged + "," + honest, ',') == Some(elements)
    requires forall i :: 0 <= i < |elements| ==> ParseElement(elements[i]).Some?
    ensures Split(forged, ',').Some? && Split(honest, ',').Some?
    ensures elements == Split(forged, ',').value + Split(honest, ',').value
  {
    hide Split, Scan, ParseElement, StrayBackslash, EndState;
    var line := forged + "," + honest;
    LineHasNoStray(line, elements);
    SplitIsScan(line, ',');
    SplitIsScan(forged, ',');
    SplitIsScan(honest, ',');
    ScanEnds(line, ',', "", false, false);
    var (q, e) := EndState(forged, false, false);
    var rest := "," + honest;
    assert line == forged + rest;
    EndStateAppend(forged, rest, false, false);
    StrayAppend(forged, rest, false, false);
    AfterComma(honest, q, e);
    assert line == forged + [','] + honest;
    ScanApart(forged, honest, ',', "", false, false);
  }

  lemma AfterComma(honest: string, quoted: bool, escaped: bool)
    ensures EndState("," + honest, quoted, escaped) == EndState(honest, quoted, false)
    ensures StrayBackslash("," + honest, quoted, escaped) <==> StrayBackslash(honest, quoted, false)
  {
    assert ("," + honest)[0] == ',' && ("," + honest)[1..] == honest;
  }

  // ----- printed text is such a text

  /** Read from inside quotes, the text ends inside quotes, or shows a backslash outside. */
  predicate Returns(text: string) {
    StrayBackslash(text, true, false) || EndState(text, true, false) == (true, false)
  }

  lemma ReturnsAppend(a: string, b: string)
    requires Returns(a) && Returns(b)
    ensures Returns(a + b)
  {
    StrayAppend(a, b, true, false);
    EndStateAppend(a, b, true, false);
  }

  lemma PlainReturns(text: string)
    requires Plain(text)
    ensures Returns(text)
  {
    PlainStays(text, true);
  }

  /** Outside quotes, escaped text shows its escapes. */
  lemma {:induction false} EscapedOutside(v: string)
    ensures StrayBackslash(Escape(v), false, false) || EndState(Escape(v), false, false) == (false, false)
  {
    hide Escape;
    EscapeStep(v);
    if v != "" {
      var c, tail := v[0], Escape(v[1..]);
      EscapedOutside(v[1..]);
      if c == '"' || c == '\\' {
        assert (['\\'] + ([c] + tail))[0] == '\\';
      } else {
        assert ([c] + tail)[0] == c && ([c] + tail)[1..] == tail;
      }
    }
  }

  lemma QuoteReturns(v: string)
    ensures Returns(Quote(v))
  {
    hide Escape;
    var inner := Escape(v);
    EscapedOutside(v);
    var rest := inner + "\"";
    assert Quote(v)[0] == '"' && Quote(v)[1..] == rest;
    StrayAppend(inner, "\"", false, false);
    EndStateAppend(inner, "\"", false, false);
    assert "\""[1..] == "";
  }

  lemma ParamReturns(p: Param)
    requires Printable(p)
    ensures Returns(PrintParam(p))
  {
    hide Returns, Quote;
    PrintableParts(p);
    TokenIsPlain(p.name);
    assert Plain(p.name + "=");
    PlainReturns(p.name + "=");
    QuoteReturns(p.value);
    ReturnsAppend(p.name + "=", Quote(p.value));
  }

  lemma {:induction false} JoinReturns(parts: seq<string>, delimiter: char)
    requires IsDelimiter(delimiter) && forall i :: 0 <= i < |parts| ==> Returns(parts[i])
    ensures Returns(Join(parts, delimiter))
  {
    hide Returns;
    if |parts| == 0 {
      PlainReturns("");
    } else if |parts| > 1 {
      JoinReturns(parts[1..], delimiter);
      PlainReturns([delimiter]);
      ReturnsAppend(parts[0], [delimiter]);
      ReturnsAppend(parts[0] + [delimiter], Join(parts[1..], delimiter));
    }
  }

  /** Nothing that printed elements contain, quotes and backslashes included, helps who left a quote open
      in front of them. */
  lemma PrintedResists(es: seq<Element>)
    requires PrintableHeader(es)
    ensures Resists(PrintHeader(es))
  {
    hide Returns, Join, PrintParam, StrayBackslash, EndState;
    forall i | 0 <= i < |es|
      ensures Returns(Elements(es)[i])
    {
      assert PrintableElement(es[i]);
      forall j | 0 <= j < |es[i]|
        ensures Returns(Texts(es[i])[j])
      {
        ParamReturns(es[i][j]);
      }
      JoinReturns(Texts(es[i]), ';');
    }
    JoinReturns(Elements(es), ',');
    ReturningResists(PrintHeader(es));
  }

  lemma ReturningResists(text: string)
    requires Returns(text)
    ensures Resists(text)
  {
  }
}
