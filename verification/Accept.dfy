/** Accept and Accept-Encoding headers: parsing and printing (httpx/accept.go). */
module AcceptHeaders {
  import opened Bytes
  import opened Lex
  import opened Quotes
  import opened Media

  /** strconv.ParseFloat, with errors ignored, and the verb %.1f. */
  datatype Decimal = Decimal(parse: string -> real, show: real -> string)
  {
    ghost predicate Lawful() {
      forall q: real :: IsToken(show(q))
    }

    /** q has at most one decimal: printing it loses nothing. */
    predicate Exact(q: real) {
      parse(show(q)) == q
    }
  }

  datatype Item = Item(typ: string, sub: string, q: real, params: seq<Param>, extens: seq<Param>)

  // ----- printing -----

  /** The parameters of an item as they are printed: the weight stands between the two lists. */
  function AllParams(d: Decimal, item: Item): seq<Param> {
    item.params + [Param("q", d.show(item.q))] + item.extens
  }

  function FormatItem(d: Decimal, item: Item): string {
    item.typ + ['/'] + (item.sub + (FormatParams(item.params) + ";q=" + d.show(item.q) + FormatParams(item.extens)))
  }

  function FormatItems(d: Decimal, items: seq<Item>): string {
    if items == [] then ""
    else if |items| == 1 then FormatItem(d, items[0])
    else Join(FormatItem(d, items[0]), FormatItems(d, items[1..]))
  }

  // ----- parsing -----

  function IndexOfQ(ps: seq<Param>): (r: Option<nat>)
    ensures r.Some? ==> r.value < |ps| && ps[r.value].name == "q"
    ensures forall k :: 0 <= k < (if r.Some? then r.value else |ps|) ==> ps[k].name != "q"
  {
    if ps == [] then None
    else if ps[0].name == "q" then Some(0)
    else
      assert forall k :: 1 <= k < |ps| ==> ps[k] == ps[1..][k - 1];
      match IndexOfQ(ps[1..])
      case Some(i) => Some(i + 1)
      case None => None
  }

  predicate NoQ(ps: seq<Param>) {
    forall i :: 0 <= i < |ps| ==> ps[i].name != "q"
  }

  /** The parameters before the first q are the range's own, those after it are extensions. */
  function ItemOf(d: Decimal, r: Range): Item {
    match IndexOfQ(r.params)
    case None => Item(r.typ, r.sub, 1.0, r.params, [])
    case Some(i) => Item(r.typ, r.sub, d.parse(r.params[i].value), r.params[..i], r.params[i + 1..])
  }

  function ParseItem(d: Decimal, s: string): Option<Item> {
    match ParseRange(s)
    case None => None
    case Some(r) => Some(ItemOf(d, r))
  }

  /** The items of a header in their order, up to the first that cannot be parsed, and whether all could. */
  function ParseItems(d: Decimal, s: string): (seq<Item>, bool)
    decreases |s|
  {
    if s == "" then ([], true)
    else
      var (head, tail) := SplitTrim(s, ',');
      match ParseItem(d, head)
      case None => ([], false)
      case Some(item) =>
        var (items, ok) := ParseItems(d, tail);
        ([item] + items, ok)
  }

  // ----- what is printed and what is read back -----

  predicate TokenItem(item: Item) {
    IsToken(item.typ) && IsToken(item.sub) && TokenNames(item.params) && TokenNames(item.extens)
  }

  /** Nothing in the item is taken for something else when it is read back. */
  predicate Readable(item: Item) {
    NoSemicolons(item.params) && NoSemicolons(item.extens)
  }

  predicate Faithful(item: Item) {
    Readable(item) && NoQ(item.params)
  }

  lemma {:induction false} FormatParamsAppend(a: seq<Param>, b: seq<Param>)
    ensures FormatParams(a + b) == FormatParams(a) + FormatParams(b)
  {
    if a == [] {
      assert a + b == b;
    } else {
      assert (a + b)[0] == a[0] && (a + b)[1..] == a[1..] + b;
      FormatParamsAppend(a[1..], b);
    }
  }

  /** An item is printed like a range that has its weight among its parameters. */
  lemma ItemAsRange(d: Decimal, item: Item)
    requires d.Lawful()
    ensures FormatItem(d, item) == FormatRange(Range(item.typ, item.sub, AllParams(d, item)))
  {
    var q := Param("q", d.show(item.q));
    FormatParamsAppend(item.params, [q] + item.extens);
    assert AllParams(d, item) == item.params + ([q] + item.extens);
    assert ([q] + item.extens)[1..] == item.extens;
    WeightText(FormatParams(item.params), d.show(item.q), FormatParams(item.extens));
    assert FormatParam(q) == "q" + ['='] + d.show(item.q);
  }

  lemma WeightText(a: string, q: string, b: string)
    ensures a + ";q=" + q + b == a + ([';'] + ("q" + ['='] + q + b))
  {
  }

  lemma AllParamsShape(d: Decimal, item: Item)
    requires d.Lawful() && TokenItem(item)
    ensures TokenNames(AllParams(d, item))
    ensures NoSemicolons(AllParams(d, item)) <==> Readable(item)
    ensures NoQ(item.params) ==> IndexOfQ(AllParams(d, item)) == Some(|item.params|)
  {
    TokenExcludes(d.show(item.q));
    ParamsAround(item.params, Param("q", d.show(item.q)), item.extens);
    var all := AllParams(d, item);
    assert all[|item.params|].name == "q";
    assert forall i :: 0 <= i < |item.params| ==> all[i] == item.params[i];
  }

  lemma ParamsAround(a: seq<Param>, p: Param, b: seq<Param>)
    ensures TokenNames(a + [p] + b) <==> TokenNames(a) && IsToken(p.name) && TokenNames(b)
    ensures NoSemicolons(a + [p] + b) <==> NoSemicolons(a) && NoSemicolons([p]) && NoSemicolons(b)
  {
    var all := a + [p] + b;
    assert all[|a|] == p;
    assert forall i :: 0 <= i < |a| ==> all[i] == a[i];
    assert forall i :: 0 <= i < |b| ==> all[|a| + 1 + i] == b[i];
  }

  /** The range that was printed for an item is that item exactly when no parameter of its own is called q. */
  lemma ItemOfAll(d: Decimal, item: Item)
    requires d.Lawful() && TokenItem(item) && d.Exact(item.q)
    ensures var read := ItemOf(d, Range(item.typ, item.sub, AllParams(d, item)));
            NoQ(read.params) && (read == item <==> NoQ(item.params))
  {
    var all := AllParams(d, item);
    AllParamsShape(d, item);
    if NoQ(item.params) {
      assert all[..|item.params|] == item.params && all[|item.params| + 1..] == item.extens;
    }
  }

  /** An item is read back exactly when no value holds a semicolon and no parameter is called q. */
  lemma ItemRoundTrip(d: Decimal, item: Item)
    requires d.Lawful() && TokenItem(item) && d.Exact(item.q)
    ensures ParseItem(d, FormatItem(d, item)).Some? <==> Readable(item)
    ensures ParseItem(d, FormatItem(d, item)) == Some(item) <==> Faithful(item)
    ensures ParseItem(d, FormatItem(d, item)).Some? ==> NoQ(ParseItem(d, FormatItem(d, item)).value.params)
  {
    ItemAsRange(d, item);
    AllParamsShape(d, item);
    ItemOfAll(d, item);
    RangeRoundTrip(Range(item.typ, item.sub, AllParams(d, item)));
  }

  /**
   Whatever the text of the weight, the parameters in front of it are the range's
   own, and those behind it are extensions.
   */
  lemma WeightedItem(d: Decimal, typ: string, sub: string, ps: seq<Param>, weight: string, es: seq<Param>)
    requires IsToken(typ) && IsToken(sub) && TokenNames(ps) && NoSemicolons(ps) && NoQ(ps)
    requires ';' !in weight && TokenNames(es) && NoSemicolons(es)
    ensures ParseItem(d, FormatRange(Range(typ, sub, ps + [Param("q", weight)] + es)))
         == Some(Item(typ, sub, d.parse(weight), ps, es))
  {
    var q := Param("q", weight);
    var all := ps + [q] + es;
    ParamsAround(ps, q, es);
    RangeRoundTrip(Range(typ, sub, all));
    WeightAt(ps, q, es);
  }

  lemma WeightAt(ps: seq<Param>, q: Param, es: seq<Param>)
    requires NoQ(ps) && q.name == "q"
    ensures var all := ps + [q] + es;
            IndexOfQ(all) == Some(|ps|) && all[|ps|] == q && all[..|ps|] == ps && all[|ps| + 1..] == es
  {
    var all := ps + [q] + es;
    assert all[|ps|] == q;
    assert forall i :: 0 <= i < |ps| ==> all[i] == ps[i];
  }

  /** A range printed without a weight is read back as an item of weight 1. */
  lemma UnweightedItem(d: Decimal, typ: string, sub: string, ps: seq<Param>)
    requires IsToken(typ) && IsToken(sub) && TokenNames(ps) && NoSemicolons(ps) && NoQ(ps)
    ensures ParseItem(d, FormatRange(Range(typ, sub, ps))) == Some(Item(typ, sub, 1.0, ps, []))
  {
    RangeRoundTrip(Range(typ, sub, ps));
  }

  // ----- the list -----

  lemma ClosedParam(p: Param)
    requires IsToken(p.name)
    ensures Closed(FormatParam(p), ',')
  {
    TokenExcludes(p.name);
    ClosedPlain(p.name + ['='], ',');
    if IsToken(p.value) {
      TokenExcludes(p.value);
      ClosedPlain(p.value, ',');
    } else {
      ClosedQuote(p.value, ',');
    }
    ClosedAppend(p.name + ['='], FormatText(p.value), ',');
  }

  lemma {:induction false} ClosedParams(ps: seq<Param>)
    requires TokenNames(ps)
    ensures Closed(FormatParams(ps), ',')
  {
    if ps != [] {
      var rest := FormatParams(ps[1..]);
      ClosedParam(ps[0]);
      ClosedParams(ps[1..]);
      ClosedAppend(FormatParam(ps[0]), rest, ',');
      ClosedPlain([';'], ',');
      ClosedAppend([';'], FormatParam(ps[0]) + rest, ',');
    }
  }

  /** However its values are quoted, a printed item is one piece for the splitter. */
  lemma ClosedItem(d: Decimal, item: Item)
    requires d.Lawful() && TokenItem(item)
    ensures Closed(FormatItem(d, item), ',') && Trimmed(FormatItem(d, item)) && FormatItem(d, item) != ""
  {
    var all := AllParams(d, item);
    ItemAsRange(d, item);
    AllParamsShape(d, item);
    TokenExcludes(item.typ);
    TokenExcludes(item.sub);
    ClosedPlain(item.typ + ['/'], ',');
    ClosedPlain(item.sub, ',');
    ClosedParams(all);
    ClosedAppend(item.sub, FormatParams(all), ',');
    ClosedAppend(item.typ + ['/'], item.sub + FormatParams(all), ',');
    TrimmedEnd(all);
    assert all[|item.params|].name == "q";
    RangeEnds(item.typ, item.sub, FormatParams(all));
  }

  lemma RangeEnds(typ: string, sub: string, params: string)
    requires IsToken(typ) && params != "" && !IsOWS(params[|params| - 1])
    ensures Trimmed(typ + ['/'] + (sub + params)) && typ + ['/'] + (sub + params) != ""
  {
    assert !IsOWS(typ[0]);
  }

  lemma {:induction false} TrimmedEnd(ps: seq<Param>)
    requires TokenNames(ps) && ps != []
    ensures FormatParams(ps) != "" && !IsOWS(FormatParams(ps)[|FormatParams(ps)| - 1])
  {
    ParseFormatParam(ps[0]);
    assert FormatParam(ps[0]) != "";
    if |ps| > 1 {
      TrimmedEnd(ps[1..]);
    } else {
      assert ps[1..] == [];
    }
  }

  predicate TokenItems(items: seq<Item>) {
    forall i :: 0 <= i < |items| ==> TokenItem(items[i])
  }

  predicate ExactItems(d: Decimal, items: seq<Item>) {
    forall i :: 0 <= i < |items| ==> d.Exact(items[i].q)
  }

  predicate AllFaithful(items: seq<Item>) {
    forall i :: 0 <= i < |items| ==> Faithful(items[i])
  }

  predicate AllReadable(items: seq<Item>) {
    forall i :: 0 <= i < |items| ==> Readable(items[i])
  }

  /** The items of a printed header, one by one. */
  function Reread(d: Decimal, items: seq<Item>): (seq<Item>, bool)
  {
    if items == [] then ([], true)
    else
      match ParseItem(d, FormatItem(d, items[0]))
      case None => ([], false)
      case Some(item) =>
        var (rest, ok) := Reread(d, items[1..]);
        ([item] + rest, ok)
  }

  /** Splitting a printed header gives the printed items back, commas within values or not. */
  lemma {:induction false} ParsePrinted(d: Decimal, items: seq<Item>)
    requires d.Lawful() && TokenItems(items)
    ensures ParseItems(d, FormatItems(d, items)) == Reread(d, items)
    ensures Trimmed(FormatItems(d, items)) && (items != [] ==> FormatItems(d, items) != "")
  {
    if items != [] {
      var f, more := FormatItem(d, items[0]), FormatItems(d, items[1..]);
      ClosedItem(d, items[0]);
      ParsePrinted(d, items[1..]);
      SplitJoined(f, more);
    }
  }

  /** One entry of a printed list, in front of the others. */
  function Join(f: string, more: string): string {
    f + ([','] + (" " + more))
  }

  lemma SplitJoined(f: string, more: string)
    requires Closed(f, ',') && Trimmed(f) && f != "" && Trimmed(more)
    ensures SplitTrim(f, ',') == (f, "")
    ensures SplitTrim(Join(f, more), ',') == (f, more)
    ensures more != "" ==> Trimmed(Join(f, more))
  {
    TrimOfTrimmed(f);
    TrimOfTrimmed(more);
    SplitClosed(f, ',', "");
    SplitClosed(f, ',', " " + more);
    JoinEnds(f, more);
  }

  lemma JoinEnds(f: string, more: string)
    requires f != ""
    ensures Join(f, more) == f + [','] + (" " + more)
    ensures Join(f, more)[0] == f[0]
    ensures more != "" ==> Join(f, more)[|Join(f, more)| - 1] == more[|more| - 1]
  {
  }

  predicate AllNoQ(items: seq<Item>) {
    forall i :: 0 <= i < |items| ==> NoQ(items[i].params)
  }

  lemma {:induction false} RereadItems(d: Decimal, items: seq<Item>)
    requires d.Lawful() && TokenItems(items) && ExactItems(d, items)
    ensures var (r, ok) := Reread(d, items);
            (ok <==> AllReadable(items)) && (ok && r == items <==> AllFaithful(items)) && AllNoQ(r)
  {
    if items != [] {
      ItemRoundTrip(d, items[0]);
      RereadItems(d, items[1..]);
      SplitAll(items);
      var (rest, _) := Reread(d, items[1..]);
      var item := ParseItem(d, FormatItem(d, items[0]));
      if item.Some? {
        FirstAndRest(item.value, rest, items);
      }
    }
  }

  lemma FirstAndRest(item: Item, rest: seq<Item>, items: seq<Item>)
    requires items != []
    ensures [item] + rest == items <==> item == items[0] && rest == items[1..]
    ensures NoQ(item.params) && AllNoQ(rest) ==> AllNoQ([item] + rest)
  {
    assert ([item] + rest)[1..] == rest;
  }

  lemma SplitAll(items: seq<Item>)
    requires items != []
    ensures items == [items[0]] + items[1..]
    ensures AllReadable(items) <==> Readable(items[0]) && AllReadable(items[1..])
    ensures AllFaithful(items) <==> Faithful(items[0]) && AllFaithful(items[1..])
  {
    assert forall i :: 1 <= i < |items| ==> items[i] == items[1..][i - 1];
  }

  /**
   A printed header is accepted exactly when no value holds a semicolon, and it
   is read back as the same items, as a multiset and even in the same order,
   exactly when besides no parameter before the weight is called q.
   */
  lemma AcceptRoundTrip(d: Decimal, items: seq<Item>)
    requires d.Lawful() && TokenItems(items) && ExactItems(d, items)
    ensures var (r, ok) := ParseItems(d, FormatItems(d, items));
            && (ok <==> AllReadable(items))
            && (ok && multiset(r) == multiset(items) <==> AllFaithful(items))
            && (AllFaithful(items) ==> r == items)
  {
    ParsePrinted(d, items);
    RereadItems(d, items);
    var r, ok := Reread(d, items).0, Reread(d, items).1;
    if ok && multiset(r) == multiset(items) {
      forall i | 0 <= i < |items| ensures Faithful(items[i]) {
        assert items[i] in multiset(items);
        assert items[i] in multiset(r);
      }
    }
  }

  // ----- what the parser produces -----

  lemma {:induction false} UnescapeSemicolons(s: string, e: bool)
    requires ';' !in s && Unescape(s, e).Some?
    ensures ';' !in Unescape(s, e).value
  {
    if s != "" {
      var rest := s[1..];
      UnescapeSemicolons(rest, !e && s[0] == '\\');
    }
  }

  lemma ParamIsFaithful(s: string)
    requires ';' !in s && ParseParam(s).Some?
    ensures IsToken(ParseParam(s).value.name) && ';' !in ParseParam(s).value.value
  {
    var t := s[IndexOf(s, '=').value + 1..];
    if !IsToken(t) {
      UnescapeSemicolons(t[1..|t| - 1], false);
    }
  }

  lemma {:induction false} ParamsAreFaithful(s: string)
    requires ParseParams(s).Some?
    ensures TokenNames(ParseParams(s).value) && NoSemicolons(ParseParams(s).value)
    decreases |s|
  {
    if s != "" {
      var (f, rest) := Field(s);
      FieldIsPlain(s);
      ParamIsFaithful(Trim(f));
      ParamsAreFaithful(rest);
      assert ParseParams(s) == Media.Glue([ParseParam(Trim(f)).value], ParseParams(rest));
      OneMoreParam(ParseParam(Trim(f)).value, ParseParams(rest).value);
    }
  }

  lemma FieldIsPlain(s: string)
    ensures ';' !in Trim(Field(s).0)
  {
    IndexOfIsFirst(s, ';');
    var a, b := TrimKeepsMiddle(Field(s).0);
  }

  lemma OneMoreParam(p: Param, ps: seq<Param>)
    requires IsToken(p.name) && ';' !in p.value && TokenNames(ps) && NoSemicolons(ps)
    ensures TokenNames([p] + ps) && NoSemicolons([p] + ps)
  {
  }

  /** The parser produces only items that the printer can give back. */
  lemma ParsedIsFaithful(d: Decimal, s: string)
    ensures match ParseItem(d, s) case Some(item) => TokenItem(item) && Faithful(item) case None => true
  {
    if ParseItem(d, s).Some? {
      var i := IndexOf(s, '/').value;
      ParamsAreFaithful(Field(s[i + 1..]).1);
    }
  }

  lemma {:induction false} ParsedAreFaithful(d: Decimal, s: string)
    ensures TokenItems(ParseItems(d, s).0) && AllFaithful(ParseItems(d, s).0)
    decreases |s|
  {
    if s != "" {
      var (head, tail) := SplitTrim(s, ',');
      ParsedIsFaithful(d, head);
      ParsedAreFaithful(d, tail);
      if ParseItem(d, head).Some? {
        OneMoreItem(ParseItem(d, head).value, ParseItems(d, tail).0);
      }
    }
  }

  lemma OneMoreItem(item: Item, items: seq<Item>)
    requires TokenItem(item) && Faithful(item) && TokenItems(items) && AllFaithful(items)
    ensures TokenItems([item] + items) && AllFaithful([item] + items)
  {
  }

  /**
   Whatever header was parsed, and as far as it was: printing the items and parsing
   them again gives the same items, if their weights are exact.
   */
  lemma ParsingIsStable(d: Decimal, s: string)
    requires d.Lawful() && ExactItems(d, ParseItems(d, s).0)
    ensures ParseItems(d, FormatItems(d, ParseItems(d, s).0)) == (ParseItems(d, s).0, true)
  {
    var items := ParseItems(d, s).0;
    ParsedAreFaithful(d, s);
    AcceptRoundTrip(d, items);
  }

  // ----- Accept-Encoding -----

  datatype Encoding = Encoding(coding: string, q: real)

  function FormatEncoding(d: Decimal, e: Encoding): string {
    e.coding + [';'] + ("q=" + d.show(e.q))
  }

  function FormatEncodings(d: Decimal, es: seq<Encoding>): string {
    if es == [] then ""
    else if |es| == 1 then FormatEncoding(d, es[0])
    else Join(FormatEncoding(d, es[0]), FormatEncodings(d, es[1..]))
  }

  function ParseEncoding(d: Decimal, s: string): Option<Encoding> {
    match IndexOf(s, ';')
    case None => if IsToken(s) then Some(Encoding(s, 1.0)) else None
    case Some(i) =>
      match ParseParam(Trim(s[i + 1..]))
      case None => None
      case Some(p) => if p.name == "q" && IsToken(s[..i]) then Some(Encoding(s[..i], d.parse(p.value))) else None
  }

  function ParseEncodings(d: Decimal, s: string): (seq<Encoding>, bool)
    decreases |s|
  {
    if s == "" then ([], true)
    else
      var (head, tail) := SplitTrim(s, ',');
      match ParseEncoding(d, head)
      case None => ([], false)
      case Some(e) =>
        var (es, ok) := ParseEncodings(d, tail);
        ([e] + es, ok)
  }

  lemma EncodingRoundTrip(d: Decimal, e: Encoding)
    requires d.Lawful() && IsToken(e.coding) && d.Exact(e.q)
    ensures var f := FormatEncoding(d, e);
            ParseEncoding(d, f) == Some(e) && Closed(f, ',') && Trimmed(f) && f != ""
  {
    var weight := "q=" + d.show(e.q);
    TokenExcludes(e.coding);
    TokenExcludes(d.show(e.q));
    assert weight == FormatParam(Param("q", d.show(e.q)));
    ParseFormatParam(Param("q", d.show(e.q)));
    ReadEncoding(d, e.coding, weight);
    ClosedPlain(FormatEncoding(d, e), ',');
  }

  /** A bare coding has weight 1. */
  lemma UnweightedEncoding(d: Decimal, coding: string)
    requires ';' !in coding
    ensures ParseEncoding(d, coding) == if IsToken(coding) then Some(Encoding(coding, 1.0)) else None
  {
    IndexOfNone(coding, ';');
  }

  lemma ReadEncoding(d: Decimal, coding: string, weight: string)
    requires IsToken(coding) && ';' !in coding && Trimmed(weight) && weight != ""
    ensures var f := coding + [';'] + weight;
            && Trimmed(f) && f != ""
            && ParseEncoding(d, f) == match ParseParam(weight)
                 case None => None
                 case Some(p) => if p.name == "q" then Some(Encoding(coding, d.parse(p.value))) else None
  {
    IndexOfFirst(coding, ';', weight);
    Halves(coding, weight);
    TrimOfTrimmed(weight);
    assert !IsOWS(coding[0]);
  }

  lemma Halves(a: string, b: string)
    requires a != "" && b != ""
    ensures var f := a + [';'] + b;
            f[..|a|] == a && f[|a| + 1..] == b && f[0] == a[0] && f[|f| - 1] == b[|b| - 1]
  {
  }

  /** A printed Accept-Encoding header is always read back as the same list. */
  lemma {:induction false} EncodingsRoundTrip(d: Decimal, es: seq<Encoding>)
    requires d.Lawful() && forall i :: 0 <= i < |es| ==> IsToken(es[i].coding) && d.Exact(es[i].q)
    ensures ParseEncodings(d, FormatEncodings(d, es)) == (es, true)
    ensures Trimmed(FormatEncodings(d, es)) && (es != [] ==> FormatEncodings(d, es) != "")
  {
    if es != [] {
      EncodingRoundTrip(d, es[0]);
      EncodingsRoundTrip(d, es[1..]);
      SplitJoined(FormatEncoding(d, es[0]), FormatEncodings(d, es[1..]));
      assert es == [es[0]] + es[1..];
    }
  }
}
