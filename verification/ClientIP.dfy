/** Finding the client behind trusted proxies: internal/clientip/resolver.go. What an address is, how
    it is parsed and which are trusted are inputs. */
module ClientIP {
  import opened Strings
  import opened Forwarded
  import opened Forged

  /** The address parser of the source, and its set of trusted proxies. */
  datatype Network<!A> = Network(parse: string -> Option<A>, trusted: A -> bool)

  function HeaderSize(values: seq<string>): nat {
    if values == [] then 0 else HeaderSize(values[..|values| - 1]) + |values[|values| - 1]|
  }

  // ----- the Forwarded header

  /** Adds the addresses of some elements to a chain; a chain has a limit. */
  function AddElements<A>(parse: string -> Option<A>, elements: seq<string>, chain: seq<A>): Option<seq<A>>
    decreases |elements|
  {
    if elements == [] then
      Some(chain)
    else if |chain| >= MAX_ADDRESSES then
      None
    else
      match ElementAddress(parse, elements[0])
      case None => None
      case Some(a) => AddElements(parse, elements[1..], chain + [a])
  }

  function AddHeaders<A>(parse: string -> Option<A>, values: seq<string>, chain: seq<A>): Option<seq<A>>
    decreases |values|
  {
    if values == [] then
      Some(chain)
    else
      match Split(values[0], ',')
      case None => None
      case Some(elements) =>
        match AddElements(parse, elements, chain)
        case None => None
        case Some(longer) => AddHeaders(parse, values[1..], longer)
  }

  function NonEmpty<A>(chain: Option<seq<A>>): Option<seq<A>> {
    if chain == Some([]) then None else chain
  }

  function ForwardedChain<A>(parse: string -> Option<A>, values: seq<string>): Option<seq<A>> {
    if HeaderSize(values) > MAX_HEADER_BYTES then None else NonEmpty(AddHeaders(parse, values, []))
  }

  method ComputeHeaderSize(values: seq<string>) returns (size: nat)
    ensures size == HeaderSize(values)
  {
    size := 0;
    for i := 0 to |values|
      invariant size == HeaderSize(values[..i])
    {
      assert values[..i + 1][..i] == values[..i];
      size := size + |values[i]|;
    }
    assert values[..|values|] == values;
  }

  method AppendElements<A>(parse: string -> Option<A>, elements: seq<string>, before: seq<A>) returns (r: Option<seq<A>>)
    ensures r == AddElements(parse, elements, before)
  {
    hide ElementAddress;
    var chain := before;
    for i := 0 to |elements|
      invariant AddElements(parse, elements, before) == AddElements(parse, elements[i..], chain)
    {
      assert elements[i..][1..] == elements[i + 1..];
      if |chain| >= MAX_ADDRESSES {
        return None;
      }
      var a := ForwardedForAddress(parse, elements[i]);
      if a.None? {
        return None;
      }
      chain := chain + [a.value];
    }
    r := Some(chain);
  }

  method ParseForwarded<A(==)>(parse: string -> Option<A>, values: seq<string>) returns (r: Option<seq<A>>)
    ensures r == ForwardedChain(parse, values)
  {
    hide Split, HeaderSize, AddElements;
    var size := ComputeHeaderSize(values);
    if size > MAX_HEADER_BYTES {
      return None;
    }
    var chain: seq<A> := [];
    for i := 0 to |values|
      invariant AddHeaders(parse, values, []) == AddHeaders(parse, values[i..], chain)
    {
      assert values[i..][1..] == values[i + 1..];
      var elements := SplitOutsideQuotes(values[i], ',');
      if elements.None? {
        return None;
      }
      var longer := AppendElements(parse, elements.value, chain);
      if longer.None? {
        return None;
      }
      chain := longer.value;
    }
    r := if chain == [] then None else Some(chain);
  }

  // ----- the round trip

  /** The addresses named by the `for` parameters of the elements; nothing if one of them has none. */
  function AddressesOf<A>(parse: string -> Option<A>, es: seq<Element>): Option<seq<A>> {
    if es == [] then
      Some([])
    else
      var first, others := ForAddress(parse, LoweredAll(es[0])), AddressesOf(parse, es[1..]);
      if first.None? || others.None? then None else Some([first.value] + others.value)
  }

  function Flat(hs: seq<seq<Element>>): seq<Element> {
    if hs == [] then [] else hs[0] + Flat(hs[1..])
  }

  function PrintAll(hs: seq<seq<Element>>): (values: seq<string>)
    ensures |values| == |hs|
  {
    if hs == [] then [] else [PrintHeader(hs[0])] + PrintAll(hs[1..])
  }

  function Extend<A>(chain: seq<A>, more: Option<seq<A>>): Option<seq<A>> {
    if more.None? then None else Some(chain + more.value)
  }

  lemma {:induction false} AddPrinted<A>(parse: string -> Option<A>, es: seq<Element>, texts: seq<string>, chain: seq<A>)
    requires |texts| == |es| && |chain| + |es| <= MAX_ADDRESSES
    requires forall i :: 0 <= i < |es| ==> ParseElement(texts[i]) == Some(LoweredAll(es[i]))
    ensures AddElements(parse, texts, chain) == Extend(chain, AddressesOf(parse, es))
    decreases |es|
  {
    hide ParseElement, ForAddress;
    if es == [] {
      assert chain + [] == chain;
    } else {
      var a := ForAddress(parse, LoweredAll(es[0]));
      if a.Some? {
        AddPrinted(parse, es[1..], texts[1..], chain + [a.value]);
        var others := AddressesOf(parse, es[1..]);
        if others.Some? {
          assert chain + [a.value] + others.value == chain + ([a.value] + others.value);
        }
      }
    }
  }

  lemma {:induction false} AddressesAppend<A>(parse: string -> Option<A>, a: seq<Element>, b: seq<Element>)
    ensures AddressesOf(parse, a + b) ==
            if AddressesOf(parse, a).None? then None else Extend(AddressesOf(parse, a).value, AddressesOf(parse, b))
    decreases |a|
  {
    hide ForAddress;
    if a == [] {
      assert a + b == b;
      if AddressesOf(parse, b).Some? {
        assert [] + AddressesOf(parse, b).value == AddressesOf(parse, b).value;
      }
    } else {
      assert (a + b)[0] == a[0] && (a + b)[1..] == a[1..] + b;
      AddressesAppend(parse, a[1..], b);
      var first, mine, others := ForAddress(parse, LoweredAll(a[0])), AddressesOf(parse, a[1..]), AddressesOf(parse, b);
      if first.Some? && mine.Some? && others.Some? {
        assert [first.value] + (mine.value + others.value) == [first.value] + mine.value + others.value;
      }
    }
  }

  /** One printed header line adds the addresses of its elements. */
  lemma AddPrintedHeader<A>(parse: string -> Option<A>, es: seq<Element>, others: seq<string>, chain: seq<A>)
    requires PrintableHeader(es) && |chain| + |es| <= MAX_ADDRESSES
    ensures AddHeaders(parse, [PrintHeader(es)] + others, chain) ==
            if AddressesOf(parse, es).None? then None else AddHeaders(parse, others, chain + AddressesOf(parse, es).value)
  {
    hide Split, AddElements, PrintHeader, ParseElement, AddressesOf, PrintableHeader;
    HeaderRoundTrip(es);
    AddPrinted(parse, es, Forwarded.Elements(es), chain);
    assert ([PrintHeader(es)] + others)[1..] == others;
  }

  lemma {:induction false} AddPrintedHeaders<A>(parse: string -> Option<A>, hs: seq<seq<Element>>, chain: seq<A>)
    requires forall i :: 0 <= i < |hs| ==> PrintableHeader(hs[i])
    requires |chain| + |Flat(hs)| <= MAX_ADDRESSES
    ensures AddHeaders(parse, PrintAll(hs), chain) == Extend(chain, AddressesOf(parse, Flat(hs)))
    decreases |hs|
  {
    hide Split, AddElements, PrintHeader, PrintableHeader, ForAddress;
    if hs == [] {
      assert chain + [] == chain;
    } else {
      hide AddHeaders, AddressesOf;
      var es, rest := hs[0], hs[1..];
      AddPrintedHeader(parse, es, PrintAll(rest), chain);
      AddressesAppend(parse, es, Flat(rest));
      var mine := AddressesOf(parse, es);
      if mine.Some? {
        AddressesCount(parse, es);
        AddPrintedHeaders(parse, rest, chain + mine.value);
        var others := AddressesOf(parse, Flat(rest));
        if others.Some? {
          assert chain + mine.value + others.value == chain + (mine.value + others.value);
        }
      }
    }
  }

  lemma {:induction false} AddressesCount<A>(parse: string -> Option<A>, es: seq<Element>)
    ensures AddressesOf(parse, es).Some? ==> |AddressesOf(parse, es).value| == |es|
  {
    if es != [] {
      AddressesCount(parse, es[1..]);
    }
  }

  /** Any list of elements printed over any number of header lines is read back as the addresses its
      `for` parameters name, in order, or rejected because one of them names none. */
  lemma ForwardedRoundTrip<A>(parse: string -> Option<A>, hs: seq<seq<Element>>)
    requires hs != [] && forall i :: 0 <= i < |hs| ==> PrintableHeader(hs[i])
    requires HeaderSize(PrintAll(hs)) <= MAX_HEADER_BYTES && |Flat(hs)| <= MAX_ADDRESSES
    ensures ForwardedChain(parse, PrintAll(hs)) == AddressesOf(parse, Flat(hs))
  {
    hide AddHeaders, HeaderSize;
    AddPrintedHeaders(parse, hs, []);
    AddressesCount(parse, Flat(hs));
    assert |Flat(hs)| > 0 by { assert PrintableHeader(hs[0]); }
    var r := AddressesOf(parse, Flat(hs));
    if r.Some? {
      assert [] + r.value == r.value;
    }
  }

  // ----- the X-Forwarded-For header

  function SplitOn(s: string, c: char): (parts: seq<string>)
    ensures parts != []
    decreases |s|
  {
    var i := Index(s, [c]);
    if i < 0 then [s] else [s[..i]] + SplitOn(s[i + 1..], c)
  }

  predicate HasControl(value: string) {
    exists i :: 0 <= i < |value| && IsControl(value[i]) && value[i] != '\t'
  }

  function AddRaw<A>(parse: string -> Option<A>, raws: seq<string>, chain: seq<A>): Option<seq<A>>
    decreases |raws|
  {
    if raws == [] then Some(chain)
    else if |chain| >= MAX_ADDRESSES || parse(raws[0]).None? then None
    else AddRaw(parse, raws[1..], chain + [parse(raws[0]).value])
  }

  function AddRawHeaders<A>(parse: string -> Option<A>, values: seq<string>, chain: seq<A>): Option<seq<A>>
    decreases |values|
  {
    if values == [] then Some(chain)
    else if HasControl(values[0]) then None
    else
      match AddRaw(parse, SplitOn(values[0], ','), chain)
      case None => None
      case Some(longer) => AddRawHeaders(parse, values[1..], longer)
  }

  function XForwardedForChain<A>(parse: string -> Option<A>, values: seq<string>): Option<seq<A>> {
    if HeaderSize(values) > MAX_HEADER_BYTES then None else NonEmpty(AddRawHeaders(parse, values, []))
  }

  method ParseXForwardedFor<A(==)>(parse: string -> Option<A>, values: seq<string>) returns (r: Option<seq<A>>)
    ensures r == XForwardedForChain(parse, values)
  {
    hide SplitOn, HeaderSize, HasControl;
    var size := ComputeHeaderSize(values);
    if size > MAX_HEADER_BYTES {
      return None;
    }
    var chain: seq<A> := [];
    for i := 0 to |values|
      invariant AddRawHeaders(parse, values, []) == AddRawHeaders(parse, values[i..], chain)
    {
      assert values[i..][1..] == values[i + 1..];
      if HasControl(values[i]) {
        return None;
      }
      var raws := SplitOn(values[i], ',');
      ghost var before := chain;
      for j := 0 to |raws|
        invariant AddRaw(parse, raws, before) == AddRaw(parse, raws[j..], chain)
      {
        assert raws[j..][1..] == raws[j + 1..];
        if |chain| >= MAX_ADDRESSES {
          return None;
        }
        var a := parse(raws[j]);
        if a.None? {
          return None;
        }
        chain := chain + [a.value];
      }
    }
    r := if chain == [] then None else Some(chain);
  }

  // ----- what the X-Forwarded-For header means

  /** The comma-separated parts of all lines, in order. */
  function PartsOf(values: seq<string>): seq<string> {
    if values == [] then [] else SplitOn(values[0], ',') + PartsOf(values[1..])
  }

  /** The chain is what the parts parse to, one address each. */
  ghost predicate Reads<A(!new)>(parse: string -> Option<A>, parts: seq<string>, chain: seq<A>) {
    |chain| == |parts| && forall i :: 0 <= i < |parts| ==> parse(parts[i]) == Some(chain[i])
  }

  lemma ReadsAppend<A(!new)>(parse: string -> Option<A>, a: seq<string>, b: seq<string>, chain: seq<A>)
    requires |chain| == |a| + |b|
    ensures Reads(parse, a + b, chain) <==> Reads(parse, a, chain[..|a|]) && Reads(parse, b, chain[|a|..])
  {
    var left, right := chain[..|a|], chain[|a|..];
    assert chain == left + right;
    if Reads(parse, a + b, chain) {
      forall i | 0 <= i < |a|
        ensures parse(a[i]) == Some(left[i])
      {
        assert (a + b)[i] == a[i];
      }
      forall i | 0 <= i < |b|
        ensures parse(b[i]) == Some(right[i])
      {
        assert (a + b)[|a| + i] == b[i];
      }
    }
  }

  /** chain is longer by what the parts parse to. */
  ghost predicate Grows<A(!new)>(parse: string -> Option<A>, chain: seq<A>, parts: seq<string>, longer: seq<A>) {
    |longer| == |chain| + |parts| && longer[..|chain|] == chain && Reads(parse, parts, longer[|chain|..])
  }

  lemma GrowsTwice<A(!new)>(parse: string -> Option<A>, chain: seq<A>, a: seq<string>, b: seq<string>, longer: seq<A>)
    requires |longer| == |chain| + |a| + |b|
    ensures Grows(parse, chain, a + b, longer) <==>
            Grows(parse, chain, a, longer[..|chain| + |a|]) && Grows(parse, longer[..|chain| + |a|], b, longer)
  {
    hide Reads;
    var added, n, m := longer[|chain|..], |chain|, |a|;
    var middle := longer[..n + m];
    assert middle[..n] == longer[..n] && middle[n..] == added[..m] && longer[n + m..] == added[m..];
    ReadsAppend(parse, a, b, added);
  }

  lemma {:induction false} AddRawMeaning<A(!new)>(parse: string -> Option<A>, raws: seq<string>, chain: seq<A>, longer: seq<A>)
    requires |chain| <= MAX_ADDRESSES
    ensures AddRaw(parse, raws, chain) == Some(longer) <==> |longer| <= MAX_ADDRESSES && Grows(parse, chain, raws, longer)
    decreases |raws|
  {
    hide Reads;
    if raws == [] {
      NothingAdded(parse, chain, longer);
    } else if |longer| == |chain| + |raws| {
      var first, rest := [raws[0]], raws[1..];
      assert raws == first + rest;
      GrowsTwice(parse, chain, first, rest, longer);
      GrowsByOne(parse, chain, raws[0], longer[..|chain| + 1]);
      if |chain| < MAX_ADDRESSES && parse(raws[0]).Some? {
        var next := chain + [parse(raws[0]).value];
        AddRawMeaning(parse, rest, next, longer);
      }
    } else if |chain| < MAX_ADDRESSES && parse(raws[0]).Some? {
      AddRawMeaning(parse, raws[1..], chain + [parse(raws[0]).value], longer);
    }
  }

  lemma NothingAdded<A(!new)>(parse: string -> Option<A>, chain: seq<A>, longer: seq<A>)
    ensures Grows(parse, chain, [], longer) <==> longer == chain
  {
    if |longer| == |chain| {
      assert longer[..|chain|] == longer;
    }
  }

  lemma GrowsByOne<A(!new)>(parse: string -> Option<A>, chain: seq<A>, raw: string, longer: seq<A>)
    ensures Grows(parse, chain, [raw], longer) <==> parse(raw).Some? && longer == chain + [parse(raw).value]
  {
    if |longer| == |chain| + 1 {
      assert longer == longer[..|chain|] + longer[|chain|..];
      assert longer[|chain|..] == [longer[|chain|]];
    }
  }

  ghost predicate NoControls(values: seq<string>) {
    forall v :: v in values ==> !HasControl(v)
  }

  lemma {:induction false} AddRawHeadersMeaning<A(!new)>(parse: string -> Option<A>, values: seq<string>, chain: seq<A>, longer: seq<A>)
    requires |chain| <= MAX_ADDRESSES
    ensures AddRawHeaders(parse, values, chain) == Some(longer) <==>
            NoControls(values) && |longer| <= MAX_ADDRESSES && Grows(parse, chain, PartsOf(values), longer)
    decreases |values|
  {
    hide Grows, HasControl, SplitOn, AddRaw;
    if values == [] {
      NothingAdded(parse, chain, longer);
    } else {
      var raws, others := SplitOn(values[0], ','), PartsOf(values[1..]);
      assert NoControls(values) <==> !HasControl(values[0]) && NoControls(values[1..]) by {
        assert values == [values[0]] + values[1..];
      }
      var added := AddRaw(parse, raws, chain);
      if added.Some? {
        AddRawMeaning(parse, raws, chain, added.value);
        AddRawHeadersMeaning(parse, values[1..], added.value, longer);
      }
      LineThenLines(parse, raws, others, chain, added, longer);
    }
  }

  lemma GrowsStarts<A(!new)>(parse: string -> Option<A>, chain: seq<A>, parts: seq<string>, longer: seq<A>)
    ensures Grows(parse, chain, parts, longer) ==> |longer| == |chain| + |parts| && longer[..|chain|] == chain
  {
  }

  lemma WrongLength<A(!new)>(parse: string -> Option<A>, chain: seq<A>, parts: seq<string>, longer: seq<A>)
    ensures |longer| != |chain| + |parts| ==> !Grows(parse, chain, parts, longer)
  {
  }

  /** The header gives a chain exactly when it is within the limits, holds no control character, and each
      of its parts is an address; the chain then has these addresses in order. */
  lemma XForwardedForMeaning<A(!new)>(parse: string -> Option<A>, values: seq<string>, chain: seq<A>)
    ensures XForwardedForChain(parse, values) == Some(chain) <==>
            && HeaderSize(values) <= MAX_HEADER_BYTES
            && (forall v, i :: v in values && 0 <= i < |v| ==> v[i] == '\t' || (v[i] as int >= 32 && v[i] as int != 127))
            && 1 <= |PartsOf(values)| <= MAX_ADDRESSES
            && Reads(parse, PartsOf(values), chain)
  {
    hide HeaderSize, NoControls, PartsOf, AddRawHeaders;
    AddRawHeadersMeaning(parse, values, [], chain);
    ControlsMeaning(values);
    assert chain[0..] == chain;
  }

  lemma ControlsMeaning(values: seq<string>)
    ensures NoControls(values) <==> forall v, i :: v in values && 0 <= i < |v| ==> v[i] == '\t' || (v[i] as int >= 32 && v[i] as int != 127)
  {
    forall v | v in values
      ensures HasControl(v) <==> exists i :: 0 <= i < |v| && !(v[i] == '\t' || (v[i] as int >= 32 && v[i] as int != 127))
    {
    }
  }

  // ----- what the Forwarded header means

  /** The elements of all lines, in order, if all lines can be taken apart. */
  function ElementsOf(values: seq<string>): Option<seq<string>> {
    if values == [] then Some([]) else Both(Split(values[0], ','), ElementsOf(values[1..]))
  }

  /** The address that an element names. */
  function AddressOf<A>(parse: string -> Option<A>): string -> Option<A> {
    (element: string) => ElementAddress(parse, element)
  }

  lemma {:induction false} ElementsAsParts<A>(parse: string -> Option<A>, elements: seq<string>, chain: seq<A>)
    ensures AddElements(parse, elements, chain) == AddRaw(AddressOf(parse), elements, chain)
    decreases |elements|
  {
    hide ElementAddress;
    if elements != [] && |chain| < MAX_ADDRESSES && ElementAddress(parse, elements[0]).Some? {
      ElementsAsParts(parse, elements[1..], chain + [ElementAddress(parse, elements[0]).value]);
    }
  }

  lemma {:induction false} AddHeadersMeaning<A(!new)>(parse: string -> Option<A>, values: seq<string>, chain: seq<A>, longer: seq<A>)
    requires |chain| <= MAX_ADDRESSES
    ensures AddHeaders(parse, values, chain) == Some(longer) <==>
            ElementsOf(values).Some? && |longer| <= MAX_ADDRESSES && Grows(AddressOf(parse), chain, ElementsOf(values).value, longer)
    decreases |values|
  {
    hide Grows, Split, AddRaw, AddElements, AddressOf;
    if values == [] {
      NothingAdded(AddressOf(parse), chain, longer);
    } else {
      var first, others := Split(values[0], ','), ElementsOf(values[1..]);
      if first.Some? {
        var added := AddElements(parse, first.value, chain);
        ElementsAsParts(parse, first.value, chain);
        if added.Some? {
          AddRawMeaning(AddressOf(parse), first.value, chain, added.value);
          AddHeadersMeaning(parse, values[1..], added.value, longer);
        }
        if others.Some? {
          LineThenLines(AddressOf(parse), first.value, others.value, chain, added, longer);
        }
      }
    }
  }

  /** Growing by the parts of a line and then by those of the others is growing by all of them. */
  lemma LineThenLines<A(!new)>(parse: string -> Option<A>, raws: seq<string>, others: seq<string>, chain: seq<A>, added: Option<seq<A>>, longer: seq<A>)
    requires |chain| <= MAX_ADDRESSES && added == AddRaw(parse, raws, chain)
    ensures |longer| <= MAX_ADDRESSES && Grows(parse, chain, raws + others, longer) <==>
            added.Some? && |longer| <= MAX_ADDRESSES && Grows(parse, added.value, others, longer)
  {
    hide Grows, AddRaw;
    if |longer| == |chain| + |raws| + |others| {
      var middle := longer[..|chain| + |raws|];
      GrowsTwice(parse, chain, raws, others, longer);
      AddRawMeaning(parse, raws, chain, middle);
      if added.Some? {
        AddRawMeaning(parse, raws, chain, added.value);
        GrowsStarts(parse, added.value, others, longer);
        GrowsStarts(parse, chain, raws, added.value);
      }
    } else {
      WrongLength(parse, chain, raws + others, longer);
      if added.Some? {
        AddRawMeaning(parse, raws, chain, added.value);
        GrowsStarts(parse, chain, raws, added.value);
        WrongLength(parse, added.value, others, longer);
      }
    }
  }

  /** The header gives a chain exactly when it is within the limits, can be taken apart, and each of its
      elements names an address; the chain then has these addresses in order. */
  lemma ForwardedMeaning<A(!new)>(parse: string -> Option<A>, values: seq<string>, chain: seq<A>)
    ensures ForwardedChain(parse, values) == Some(chain) <==>
            && HeaderSize(values) <= MAX_HEADER_BYTES
            && ElementsOf(values).Some? && 1 <= |ElementsOf(values).value| <= MAX_ADDRESSES
            && Reads(AddressOf(parse), ElementsOf(values).value, chain)
  {
    hide HeaderSize, ElementsOf, AddHeaders, AddressOf;
    AddHeadersMeaning(parse, values, [], chain);
    assert chain[0..] == chain;
  }

  lemma BothApart(a: Option<seq<string>>, b: Option<seq<string>>, c: Option<seq<string>>)
    ensures Both(Both(a, b), c) == Both(a, Both(b, c))
  {
    if a.Some? && b.Some? && c.Some? {
      assert a.value + b.value + c.value == a.value + (b.value + c.value);
    }
  }

  lemma {:induction false} ElementsAppend(a: seq<string>, b: seq<string>)
    ensures ElementsOf(a + b) == Both(ElementsOf(a), ElementsOf(b))
    decreases |a|
  {
    hide Split;
    if a == [] {
      assert a + b == b;
      BothNothing(ElementsOf(b));
    } else {
      assert (a + b)[0] == a[0] && (a + b)[1..] == a[1..] + b;
      ElementsAppend(a[1..], b);
      BothApart(Split(a[0], ','), ElementsOf(a[1..]), ElementsOf(b));
    }
  }

  lemma ElementsOfOne(line: string)
    ensures ElementsOf([line]) == Split(line, ',')
  {
    hide Split;
    assert [line][1..] == [];
    var r := Split(line, ',');
    if r.Some? {
      assert r.value + [] == r.value;
    }
  }

  // ----- the text of its parts

  /** The parts of a line are the texts between its commas. */
  lemma {:induction false} SplitOnMeaning(s: string, c: char)
    ensures Join(SplitOn(s, c), c) == s && forall i :: 0 <= i < |SplitOn(s, c)| ==> c !in SplitOn(s, c)[i]
    decreases |s|
  {
    hide SplitOn, Index, Join;
    var i := Index(s, [c]);
    BeforeFirst(s, c);
    if i < 0 {
      SplitOnNowhere(s, c);
      JoinOne(s, c);
    } else {
      SplitOnAt(s, c, i);
      SplitOnMeaning(s[i + 1..], c);
      JoinMore(s[..i], SplitOn(s[i + 1..], c), c);
      assert s == s[..i] + [c] + s[i + 1..];
    }
  }

  lemma BeforeFirst(s: string, c: char)
    ensures var i := Index(s, [c]);
            if i < 0 then c !in s else i < |s| && s[i] == c && c !in s[..i]
  {
    hide Index, OccursAt;
    var i := Index(s, [c]);
    forall j: nat | j < |s|
      ensures s[j] == c <==> OccursAt(s, [c], j)
    {
      OccursChar(s, c, j);
    }
    if i >= 0 {
      OccursChar(s, c, i);
    }
  }

  lemma JoinOne(s: string, c: char)
    ensures Join([s], c) == s
  {
  }

  lemma JoinMore(s: string, parts: seq<string>, c: char)
    requires parts != []
    ensures Join([s] + parts, c) == s + [c] + Join(parts, c)
  {
    assert ([s] + parts)[1..] == parts;
  }

  /** A comma between two texts separates their parts. */
  lemma {:induction false} SplitOnComma(s: string, t: string, c: char)
    ensures SplitOn(s + [c] + t, c) == SplitOn(s, c) + SplitOn(t, c)
    decreases |s|
  {
    hide SplitOn;
    var whole := s + [c] + t;
    var i := Index(s, [c]);
    if i < 0 {
      IndexIs(whole, c, |s|, s);
      SplitOnAt(whole, c, |s|);
      SplitOnNowhere(s, c);
      assert whole[..|s|] == s && whole[|s| + 1..] == t;
    } else {
      assert OccursAt(s, [c], i);
      IndexIs(whole, c, i, s);
      SplitOnAt(whole, c, i);
      SplitOnAt(s, c, i);
      assert whole[..i] == s[..i] && whole[i + 1..] == s[i + 1..] + [c] + t;
      SplitOnComma(s[i + 1..], t, c);
    }
  }

  lemma SplitOnNowhere(s: string, c: char)
    requires Index(s, [c]) < 0
    ensures SplitOn(s, c) == [s]
  {
  }

  lemma SplitOnAt(s: string, c: char, i: nat)
    requires Index(s, [c]) == i
    ensures i < |s| && SplitOn(s, c) == [s[..i]] + SplitOn(s[i + 1..], c)
  {
    hide Index, OccursAt;
    OccursChar(s, c, i);
  }

  lemma IndexIs(whole: string, c: char, i: nat, s: string)
    requires s <= whole && i < |whole| && whole[i] == c && i <= |s|
    requires forall j: nat :: j < i ==> !OccursAt(s, [c], j)
    ensures Index(whole, [c]) == i
  {
    hide Index, OccursAt;
    forall j: nat | j < i
      ensures !OccursAt(whole, [c], j)
    {
      OccursChar(s, c, j);
      OccursChar(whole, c, j);
      assert s[j] == whole[j];
    }
    OccursChar(whole, c, i);
    IndexIsFirst(whole, [c], i);
  }

  lemma {:induction false} PartsAppend(a: seq<string>, b: seq<string>)
    ensures PartsOf(a + b) == PartsOf(a) + PartsOf(b)
    decreases |a|
  {
    hide SplitOn;
    if a == [] {
      assert a + b == b;
    } else {
      assert (a + b)[0] == a[0] && (a + b)[1..] == a[1..] + b;
      PartsAppend(a[1..], b);
    }
  }

  /** Lines whose text up to some comma may have been written by anybody. */
  function Lines(front: seq<string>, forged: string, honest: string, back: seq<string>): seq<string> {
    front + [forged + "," + honest] + back
  }

  lemma PartsOfLines(front: seq<string>, forged: string, honest: string, back: seq<string>)
    ensures PartsOf(Lines(front, forged, honest, back)) == PartsOf(front) + SplitOn(forged, ',') + PartsOf([honest] + back)
  {
    hide SplitOn;
    var line := [forged + "," + honest];
    PartsAppend(front + line, back);
    PartsAppend(front, line);
    assert PartsOf(line) == SplitOn(line[0], ',') + PartsOf(line[1..]);
    SplitOnComma(forged, honest, ',');
    assert ([honest] + back)[1..] == back;
    assert PartsOf([honest] + back) == SplitOn(honest, ',') + PartsOf(back);
  }

  // ----- the client

  datatype Request = Request(remoteAddr: string, forwarded: seq<string>, xForwardedFor: seq<string>)

  datatype Client<+A> = Text(text: string) | Address(address: A)

  /** The chain both headers agree on; nothing if there is none or it is malformed or contradictory. */
  function AgreedChain<A(==)>(parse: string -> Option<A>, req: Request): Option<seq<A>> {
    var f := ForwardedChain(parse, req.forwarded);
    var x := XForwardedForChain(parse, req.xForwardedFor);
    if req.forwarded == [] && req.xForwardedFor == [] then None
    else if req.forwarded == [] then x
    else if req.xForwardedFor == [] then f
    else if f.Some? && x.Some? && f == x then f
    else None
  }

  function RightmostUntrusted<A>(trusted: A -> bool, chain: seq<A>): Option<A> {
    if chain == [] then None
    else if !trusted(chain[|chain| - 1]) then Some(chain[|chain| - 1])
    else RightmostUntrusted(trusted, chain[..|chain| - 1])
  }

  /** A proxy's own word about its peer counts, what stands to the left of the first untrusted address
      does not: nobody can choose the answer by sending a forged chain through trusted proxies. */
  lemma {:induction false} ForgedPrefixIsIgnored<A(!new)>(trusted: A -> bool, forged: seq<A>, other: seq<A>, appended: seq<A>)
    requires exists i :: 0 <= i < |appended| && !trusted(appended[i])
    ensures RightmostUntrusted(trusted, forged + appended) == RightmostUntrusted(trusted, other + appended)
    ensures RightmostUntrusted(trusted, forged + appended).Some?
    decreases |appended|
  {
    var n := |appended|;
    assert (forged + appended)[|forged + appended| - 1] == appended[n - 1] == (other + appended)[|other + appended| - 1];
    if trusted(appended[n - 1]) {
      assert (forged + appended)[..|forged + appended| - 1] == forged + appended[..n - 1];
      assert (other + appended)[..|other + appended| - 1] == other + appended[..n - 1];
      var i :| 0 <= i < n && !trusted(appended[i]);
      assert appended[..n - 1][i] == appended[i];
      ForgedPrefixIsIgnored(trusted, forged, other, appended[..n - 1]);
    }
  }

  /** The meaning of the walk: the address is untrusted and everything to its right is trusted. */
  lemma {:induction false} RightmostMeaning<A(!new)>(trusted: A -> bool, chain: seq<A>)
    ensures match RightmostUntrusted(trusted, chain)
            case None => forall i :: 0 <= i < |chain| ==> trusted(chain[i])
            case Some(a) => exists i :: 0 <= i < |chain| && chain[i] == a && !trusted(a) && forall j :: i < j < |chain| ==> trusted(chain[j])
  {
    if chain != [] && trusted(chain[|chain| - 1]) {
      var init := chain[..|chain| - 1];
      RightmostMeaning(trusted, init);
      var r := RightmostUntrusted(trusted, init);
      if r.Some? {
        var i :| 0 <= i < |init| && init[i] == r.value && !trusted(r.value) && forall j :: i < j < |init| ==> trusted(init[j]);
        assert forall j :: i < j < |init| ==> chain[j] == init[j];
        assert chain[i] == r.value;
      } else {
        assert forall i :: 0 <= i < |init| ==> chain[i] == init[i];
      }
    }
  }

  /** Headers count only when the peer is trusted; otherwise, and whenever they establish no client, the
      answer is the peer itself. */
  function ClientOf<A(==)>(net: Network<A>, req: Request): Client<A> {
    match net.parse(req.remoteAddr)
    case None => Text(TrimSpace(req.remoteAddr))
    case Some(peer) =>
      if !net.trusted(peer) then
        Address(peer)
      else
        match AgreedChain(net.parse, req)
        case None => Address(peer)
        case Some(chain) =>
          match RightmostUntrusted(net.trusted, chain)
          case None => Address(peer)
          case Some(client) => Address(client)
  }

  method FindClient<A(==)>(net: Network<A>, req: Request) returns (client: Client<A>)
    ensures client == ClientOf(net, req)
  {
    hide ForwardedChain, XForwardedForChain, TrimSpace;
    var parsed := net.parse(req.remoteAddr);
    if parsed.None? {
      return Text(TrimSpace(req.remoteAddr));
    }
    var peer := parsed.value;
    if !net.trusted(peer) {
      return Address(peer);
    }
    if req.forwarded == [] && req.xForwardedFor == [] {
      return Address(peer);
    }
    var chain: seq<A> := [];
    if req.forwarded != [] {
      var f := ParseForwarded(net.parse, req.forwarded);
      if f.None? {
        return Address(peer);
      }
      chain := f.value;
    }
    if req.xForwardedFor != [] {
      var x := ParseXForwardedFor(net.parse, req.xForwardedFor);
      if x.None? {
        return Address(peer);
      }
      if req.forwarded != [] && chain != x.value {
        return Address(peer);
      }
      chain := x.value;
    }
    assert AgreedChain(net.parse, req) == Some(chain);
    var i := |chain|;
    assert chain[..|chain|] == chain;
    while i > 0
      invariant 0 <= i <= |chain|
      invariant RightmostUntrusted(net.trusted, chain) == RightmostUntrusted(net.trusted, chain[..i])
    {
      i := i - 1;
      assert chain[..i + 1][..i] == chain[..i];
      if !net.trusted(chain[i]) {
        return Address(chain[i]);
      }
    }
    client := Address(peer);
  }

  // ----- what the answer means

  /** The headers there are name one and the same chain. */
  ghost predicate Establishes<A>(parse: string -> Option<A>, req: Request, chain: seq<A>) {
    && (req.forwarded != [] || req.xForwardedFor != [])
    && (req.forwarded != [] ==> ForwardedChain(parse, req.forwarded) == Some(chain))
    && (req.xForwardedFor != [] ==> XForwardedForChain(parse, req.xForwardedFor) == Some(chain))
  }

  lemma AgreedMeaning<A>(parse: string -> Option<A>, req: Request, chain: seq<A>)
    ensures AgreedChain(parse, req) == Some(chain) <==> Establishes(parse, req, chain)
  {
    hide ForwardedChain, XForwardedForChain;
  }

  ghost predicate IsRightmost<A(!new)>(trusted: A -> bool, chain: seq<A>, i: nat) {
    i < |chain| && !trusted(chain[i]) && forall j :: i < j < |chain| ==> trusted(chain[j])
  }

  /** Somebody other than the peer is the client exactly when the peer is trusted, all headers there are
      agree, and that address is the last untrusted one in their chain. */
  lemma ClientMeaning<A(!new)>(net: Network<A>, req: Request, peer: A, client: A)
    requires net.parse(req.remoteAddr) == Some(peer) && client != peer
    ensures ClientOf(net, req) == Address(client) <==>
            net.trusted(peer) && exists chain, i :: Establishes(net.parse, req, chain) && IsRightmost(net.trusted, chain, i) && chain[i] == client
  {
    hide Establishes, AgreedChain;
    if net.trusted(peer) && exists chain, i :: Establishes(net.parse, req, chain) && IsRightmost(net.trusted, chain, i) && chain[i] == client {
      var chain, i :| Establishes(net.parse, req, chain) && IsRightmost(net.trusted, chain, i) && chain[i] == client;
      AgreedMeaning(net.parse, req, chain);
      RightmostIs(net.trusted, chain, i);
    }
    if ClientOf(net, req) == Address(client) {
      var chain := AgreedChain(net.parse, req).value;
      AgreedMeaning(net.parse, req, chain);
      var i := RightmostAt(net.trusted, chain);
      assert Establishes(net.parse, req, chain) && IsRightmost(net.trusted, chain, i) && chain[i] == client;
    }
  }

  lemma RightmostAt<A(!new)>(trusted: A -> bool, chain: seq<A>) returns (i: nat)
    requires RightmostUntrusted(trusted, chain).Some?
    ensures IsRightmost(trusted, chain, i) && chain[i] == RightmostUntrusted(trusted, chain).value
  {
    RightmostMeaning(trusted, chain);
    var a := RightmostUntrusted(trusted, chain).value;
    i :| 0 <= i < |chain| && chain[i] == a && !trusted(a) && forall j :: i < j < |chain| ==> trusted(chain[j]);
  }

  lemma RightmostIs<A(!new)>(trusted: A -> bool, chain: seq<A>, i: nat)
    requires IsRightmost(trusted, chain, i)
    ensures RightmostUntrusted(trusted, chain) == Some(chain[i])
    decreases |chain|
  {
    var n := |chain|;
    if i < n - 1 {
      assert trusted(chain[n - 1]);
      assert chain[..n - 1][i] == chain[i];
      RightmostIs(trusted, chain[..n - 1], i);
    }
  }

  /** What a chain ends in decides, if one of its addresses there is untrusted. */
  lemma TailDecides<A(!new)>(net: Network<A>, req: Request, peer: A, forged: seq<string>, tail: seq<string>, k: nat)
    requires net.parse(req.remoteAddr) == Some(peer) && net.trusted(peer) && req.xForwardedFor != []
    requires PartsOf(req.xForwardedFor) == forged + tail
    requires LastUntrusted(net.trusted, net.parse, tail, k)
    ensures ClientOf(net, req) ==
            if AgreedChain(net.parse, req).Some? then Address(net.parse(tail[k]).value) else Address(peer)
  {
    hide AgreedChain, PartsOf, HeaderSize, NoControls, XForwardedForChain;
    var agreed := AgreedChain(net.parse, req);
    if agreed.Some? {
      var chain := agreed.value;
      AgreedMeaning(net.parse, req, chain);
      XForwardedForMeaning(net.parse, req.xForwardedFor, chain);
      RightmostOfTail(net.trusted, net.parse, forged, tail, chain, k);
    }
  }

  /** The k-th of these parts is the last that is an untrusted address. */
  ghost predicate LastUntrusted<A(!new)>(trusted: A -> bool, parse: string -> Option<A>, tail: seq<string>, k: nat) {
    && k < |tail| && parse(tail[k]).Some? && !trusted(parse(tail[k]).value)
    && forall j :: k < j < |tail| && parse(tail[j]).Some? ==> trusted(parse(tail[j]).value)
  }

  lemma RightmostOfTail<A(!new)>(trusted: A -> bool, parse: string -> Option<A>, forged: seq<string>, tail: seq<string>, chain: seq<A>, k: nat)
    requires Reads(parse, forged + tail, chain) && LastUntrusted(trusted, parse, tail, k)
    ensures parse(tail[k]).Some? && RightmostUntrusted(trusted, chain) == parse(tail[k])
  {
    var i := |forged| + k;
    forall j | 0 <= j < |tail|
      ensures parse(tail[j]) == Some(chain[|forged| + j])
    {
      assert (forged + tail)[|forged| + j] == tail[j];
    }
    forall j | i < j < |chain|
      ensures trusted(chain[j])
    {
      assert parse(tail[j - |forged|]) == Some(chain[j]);
    }
    RightmostIs(trusted, chain, i);
  }

  /** Nobody can choose the answer by what stands in the X-Forwarded-For lines to the left of an untrusted
      address that trusted proxies have appended: whatever text that is, and whatever other header comes with
      it, the answer is the last such address, or the peer if the headers are rejected. */
  lemma ForgedTextIsIgnored<A(!new)>(net: Network<A>, req: Request, peer: A, front: seq<string>, forged: string, honest: string, back: seq<string>, k: nat)
    requires net.parse(req.remoteAddr) == Some(peer) && net.trusted(peer)
    requires req.xForwardedFor == Lines(front, forged, honest, back)
    requires LastUntrusted(net.trusted, net.parse, PartsOf([honest] + back), k)
    ensures ClientOf(net, req) ==
            if AgreedChain(net.parse, req).Some? then Address(net.parse(PartsOf([honest] + back)[k]).value) else Address(peer)
  {
    hide AgreedChain, PartsOf, ClientOf;
    PartsOfLines(front, forged, honest, back);
    TailDecides(net, req, peer, PartsOf(front) + SplitOn(forged, ','), PartsOf([honest] + back), k);
  }

  /** The elements at the end of the Forwarded lines decide, as soon as one of them is an untrusted address;
      so lines that proxies add of their own are safe from those before. */
  lemma ElementTailDecides<A(!new)>(net: Network<A>, req: Request, peer: A, forged: seq<string>, tail: seq<string>, k: nat)
    requires net.parse(req.remoteAddr) == Some(peer) && net.trusted(peer) && req.forwarded != []
    requires ElementsOf(req.forwarded) == Some(forged + tail)
    requires LastUntrusted(net.trusted, AddressOf(net.parse), tail, k)
    ensures ClientOf(net, req) ==
            if AgreedChain(net.parse, req).Some? then Address(AddressOf(net.parse)(tail[k]).value) else Address(peer)
  {
    hide AgreedChain, ElementsOf, AddressOf, HeaderSize, ForwardedChain, LastUntrusted;
    var agreed := AgreedChain(net.parse, req);
    if agreed.Some? {
      AgreedMeaning(net.parse, req, agreed.value);
      ForwardedMeaning(net.parse, req.forwarded, agreed.value);
      RightmostOfTail(net.trusted, AddressOf(net.parse), forged, tail, agreed.value, k);
    }
  }

  /** The same for the Forwarded lines, where quotes make it harder: text that leaves a quote open cannot swallow
      the elements after it, if they are such text as proxies print. */
  lemma ForgedElementsAreIgnored<A(!new)>(net: Network<A>, req: Request, peer: A, front: seq<string>, forged: string, honest: string, back: seq<string>, k: nat)
    requires net.parse(req.remoteAddr) == Some(peer) && net.trusted(peer)
    requires req.forwarded == Lines(front, forged, honest, back) && Resists(honest)
    requires ElementsOf([honest] + back).Some?
    requires LastUntrusted(net.trusted, AddressOf(net.parse), ElementsOf([honest] + back).value, k)
    ensures ClientOf(net, req) ==
            if AgreedChain(net.parse, req).Some? then Address(AddressOf(net.parse)(ElementsOf([honest] + back).value[k]).value)
            else Address(peer)
  {
    hide AgreedChain, ElementsOf, AddressOf, HeaderSize, ForwardedChain, Resists, LastUntrusted;
    var agreed := AgreedChain(net.parse, req);
    if agreed.Some? {
      var chain, tail := agreed.value, ElementsOf([honest] + back).value;
      AgreedMeaning(net.parse, req, chain);
      ForwardedMeaning(net.parse, req.forwarded, chain);
      var before := ElementsOfLines(net.parse, front, forged, honest, back, chain);
      ElementTailDecides(net, req, peer, before, tail, k);
    }
  }

  /** The elements of accepted lines are those of the forged text and then those of the honest one. */
  lemma ElementsOfLines<A(!new)>(parse: string -> Option<A>, front: seq<string>, forged: string, honest: string, back: seq<string>, chain: seq<A>)
    returns (before: seq<string>)
    requires Resists(honest) && ElementsOf([honest] + back).Some?
    requires var all := ElementsOf(Lines(front, forged, honest, back)); all.Some? && Reads(AddressOf(parse), all.value, chain)
    ensures ElementsOf(Lines(front, forged, honest, back)).value == before + ElementsOf([honest] + back).value
  {
    hide Split, ElementsOf, ParseElement, Resists;
    var line := forged + "," + honest;
    ElementsAppend(front + [line], back);
    ElementsAppend(front, [line]);
    ElementsAppend([honest], back);
    ElementsOfOne(line);
    ElementsOfOne(honest);
    var a, b, c := ElementsOf(front).value, Split(line, ',').value, ElementsOf(back).value;
    var all := ElementsOf(Lines(front, forged, honest, back)).value;
    assert all == a + b + c;
    forall i | 0 <= i < |b|
      ensures ParseElement(b[i]).Some?
    {
      assert all[|a| + i] == b[i];
      assert AddressOf(parse)(all[|a| + i]) == Some(chain[|a| + i]);
    }
    HonestStandsAlone(forged, honest, b);
    before := a + Split(forged, ',').value;
    assert a + (Split(forged, ',').value + Split(honest, ',').value) + c == before + (Split(honest, ',').value + c);
  }

  /** In terms of what proxies print: the elements es, on a line that may begin with any text, and more lines. */
  lemma PrintedElementsDecide<A(!new)>(net: Network<A>, req: Request, peer: A, front: seq<string>, forged: string, es: seq<Element>, more: seq<seq<Element>>, k: nat)
    requires net.parse(req.remoteAddr) == Some(peer) && net.trusted(peer)
    requires PrintableHeader(es) && forall i :: 0 <= i < |more| ==> PrintableHeader(more[i])
    requires req.forwarded == Lines(front, forged, PrintHeader(es), PrintAll(more))
    requires LastUntrusted(net.trusted, AddressOf(net.parse), Elements(es + Flat(more)), k)
    ensures ClientOf(net, req) ==
            if AgreedChain(net.parse, req).Some? then Address(AddressOf(net.parse)(Elements(es + Flat(more))[k]).value)
            else Address(peer)
  {
    hide AgreedChain, ClientOf, LastUntrusted, AddressOf, PrintHeader, PrintableHeader, Resists;
    PrintedResists(es);
    PrintedLines([es] + more);
    assert PrintAll([es] + more) == [PrintHeader(es)] + PrintAll(more) && Flat([es] + more) == es + Flat(more) by {
      assert ([es] + more)[1..] == more;
    }
    ForgedElementsAreIgnored(net, req, peer, front, forged, PrintHeader(es), PrintAll(more), k);
  }

  lemma {:induction false} PrintedLines(hs: seq<seq<Element>>)
    requires forall i :: 0 <= i < |hs| ==> PrintableHeader(hs[i])
    ensures ElementsOf(PrintAll(hs)) == Some(Elements(Flat(hs)))
    decreases |hs|
  {
    hide Split, PrintHeader, PrintableHeader;
    if hs != [] {
      HeaderRoundTrip(hs[0]);
      PrintedLines(hs[1..]);
      ElementsOfAll(hs[0], Flat(hs[1..]));
    }
  }

  lemma {:induction false} ElementsOfAll(a: seq<Element>, b: seq<Element>)
    ensures Elements(a + b) == Elements(a) + Elements(b)
  {
    hide PrintElement;
    if a == [] {
      assert a + b == b;
    } else {
      assert (a + b)[0] == a[0] && (a + b)[1..] == a[1..] + b;
      ElementsOfAll(a[1..], b);
    }
  }
}
