/** Optional white space in Accept and Accept-Encoding headers (httpx/accept.go, httpx/media.go, httpx/quote.go). */
module AcceptSpaces {
  import opened AcceptHeaders
  import opened Bytes
  import opened Lex
  import opened Media
  import opened Quotes

  // ----- around semicolons -----

  predicate Spaces(sp: seq<(string, string)>) {
    forall i :: 0 <= i < |sp| ==> OnlyOWS(sp[i].0) && OnlyOWS(sp[i].1)
  }

  /** Every parameter behind its semicolon, with white space around it. */
  function Spaced(ps: seq<Param>, sp: seq<(string, string)>): string
    requires |sp| == |ps|
  {
    if ps == [] then ""
    else [';'] + (sp[0].0 + FormatParam(ps[0]) + sp[0].1 + Spaced(ps[1..], sp[1..]))
  }

  lemma PlainSpace(a: string)
    requires OnlyOWS(a)
    ensures ';' !in a && ',' !in a && '"' !in a && '/' !in a
  {
  }

  lemma TrimAround(a: string, f: string, b: string)
    requires OnlyOWS(a) && OnlyOWS(b)
    ensures Trim(a + f + b) == Trim(f)
  {
    TrimIgnores(a, f, "");
    TrimIgnores("", a + f, b);
  }

  lemma FieldOfSpaced(p: Param, a: string, b: string, more: string)
    requires IsToken(p.name) && OnlyOWS(a) && OnlyOWS(b) && (more == "" || more[0] == ';')
    ensures var s := a + FormatParam(p) + b + more;
            && s != ""
            && if ';' in p.value then ParseParam(Trim(Field(s).0)) == None
               else Field(s).1 == (if more == "" then "" else more[1..]) && Trim(Field(s).0) == FormatParam(p)
  {
    var f := FormatParam(p);
    ParseFormatParam(p);
    PlainSpace(a);
    PlainSpace(b);
    TextSemicolons(p.value);
    assert ';' in f <==> ';' in p.value;
    if ';' in f {
      IndexOfIsFirst(f, ';');
      var j := IndexOf(f, ';').value;
      CutSpaced(a, f, b, j, more);
      CutParamRejected(p, f[..j]);
    } else {
      assert ';' !in a + f + b;
      FieldAppend(a + f + b, more);
      TrimAround(a, f, b);
      TrimOfTrimmed(f);
    }
  }

  lemma CutSpaced(a: string, f: string, b: string, j: nat, more: string)
    requires OnlyOWS(a) && ';' !in a && j < |f| && f[j] == ';' && ';' !in f[..j]
    ensures Trim(Field(a + f + b + more).0) == Trim(f[..j])
  {
    assert a + f + b + more == (a + f[..j]) + [';'] + (f[j + 1..] + b + more) by {
      assert f == f[..j] + [';'] + f[j + 1..];
    }
    IndexOfFirst(a + f[..j], ';', f[j + 1..] + b + more);
    assert Field(a + f + b + more).0 == a + f[..j];
    TrimIgnores(a, f[..j], "");
  }

  lemma FirstSpaced(p: Param, a: string, b: string, more: string)
    requires IsToken(p.name) && OnlyOWS(a) && OnlyOWS(b) && (more == "" || more[0] == ';')
    ensures ParseParams(a + FormatParam(p) + b + more)
         == if ';' in p.value then None else Media.Glue([p], ParseParams(if more == "" then "" else more[1..]))
  {
    FieldOfSpaced(p, a, b, more);
    ParseFormatParam(p);
  }

  /** Parameters are read with white space around them as they are read without. */
  lemma {:induction false} SpacedParams(ps: seq<Param>, sp: seq<(string, string)>)
    requires TokenNames(ps) && ps != [] && |sp| == |ps| && Spaces(sp)
    ensures ParseParams(Spaced(ps, sp)[1..]) == if NoSemicolons(ps) then Some(ps) else None
  {
    var p, more := ps[0], Spaced(ps[1..], sp[1..]);
    SpacedFront(ps, sp);
    FirstSpaced(p, sp[0].0, sp[0].1, more);
    SplitParams(ps);
    if ps[1..] != [] {
      SpacedParams(ps[1..], sp[1..]);
    }
  }

  lemma SpacedFront(ps: seq<Param>, sp: seq<(string, string)>)
    requires ps != [] && |sp| == |ps|
    ensures Spaced(ps, sp)[1..] == sp[0].0 + FormatParam(ps[0]) + sp[0].1 + Spaced(ps[1..], sp[1..])
    ensures Spaced(ps[1..], sp[1..]) == "" || Spaced(ps[1..], sp[1..])[0] == ';'
    ensures Spaced(ps[1..], sp[1..]) == "" <==> ps[1..] == []
  {
  }

  function SpacedRange(r: Range, sp: seq<(string, string)>): string
    requires |sp| == |r.params|
  {
    r.typ + ['/'] + (r.sub + Spaced(r.params, sp))
  }

  lemma SpacedRangeIsRead(r: Range, sp: seq<(string, string)>)
    requires IsToken(r.typ) && IsToken(r.sub) && TokenNames(r.params) && |sp| == |r.params| && Spaces(sp)
    ensures ParseRange(SpacedRange(r, sp)) == ParseRange(FormatRange(r))
    ensures ParseRange(SpacedRange(r, sp)) == if NoSemicolons(r.params) then Some(r) else None
  {
    var s, tail := SpacedRange(r, sp), Spaced(r.params, sp);
    RangeRoundTrip(r);
    TokenExcludes(r.typ);
    TokenExcludes(r.sub);
    IndexOfFirst(r.typ, '/', r.sub + tail);
    assert s[..|r.typ|] == r.typ && s[|r.typ| + 1..] == r.sub + tail;
    if r.params == [] {
      assert r.sub + tail == r.sub;
      IndexOfNone(r.sub, ';');
    } else {
      assert r.sub + tail == r.sub + [';'] + tail[1..];
      IndexOfFirst(r.sub, ';', tail[1..]);
      assert Field(r.sub + tail) == (r.sub, tail[1..]);
      SpacedParams(r.params, sp);
    }
  }

  /** But not in front of the first semicolon: there the subtype is not trimmed. */
  lemma SpaceBehindSubtype(typ: string, sub: string, w: string, x: string)
    requires IsToken(typ) && IsToken(sub) && OnlyOWS(w) && w != ""
    ensures ParseRange(typ + ['/'] + (sub + w + [';'] + x)) == None
  {
    var rest := sub + w + [';'] + x;
    TokenExcludes(typ);
    TokenExcludes(sub);
    PlainSpace(w);
    IndexOfFirst(typ, '/', rest);
    var s := typ + ['/'] + rest;
    assert s[..|typ|] == typ && s[|typ| + 1..] == rest;
    IndexOfFirst(sub + w, ';', x);
    assert Field(rest).0 == sub + w;
    assert (sub + w)[|sub|] == w[0] && !IsTokenChar(w[0]);
  }

  // ----- around commas -----

  lemma {:induction false} NoCut(b: string, sep: char, st: Scan)
    requires sep !in b
    ensures CutAt(b, sep, st) == None
  {
    if b != "" {
      NoCut(b[1..], sep, Next(st, b[0]));
    }
  }

  lemma {:induction false} CutStays(t: string, b: string, sep: char, st: Scan)
    requires CutAt(t, sep, st).Some?
    ensures CutAt(t + b, sep, st) == CutAt(t, sep, st)
  {
    assert (t + b)[0] == t[0] && (t + b)[1..] == t[1..] + b;
    if !(!st.quoted && t[0] != '"' && t[0] == sep) {
      CutStays(t[1..], b, sep, Next(st, t[0]));
    }
  }

  lemma CutIgnores(a: string, t: string, b: string, sep: char)
    requires OnlyOWS(a) && OnlyOWS(b) && !IsOWS(sep) && sep != '"'
    ensures CutAt(a + (t + b), sep, OUTSIDE)
         == match CutAt(t, sep, OUTSIDE) case Some(i) => Some(|a| + i) case None => None
  {
    ClosedPlain(a, sep);
    ScanAppend(a, t + b, sep, OUTSIDE);
    NoCut(b, sep, After(OUTSIDE, t));
    ScanAppend(t, b, sep, OUTSIDE);
    if CutAt(t, sep, OUTSIDE).Some? {
      CutStays(t, b, sep, OUTSIDE);
    }
  }

  lemma Halves(a: string, t: string, b: string, i: nat)
    requires i < |t|
    ensures (a + (t + b))[..|a| + i] == a + t[..i] && (a + (t + b))[|a| + i + 1..] == t[i + 1..] + b
  {
  }

  /** White space around a list changes nothing about its first entry. */
  lemma SplitIgnores(a: string, t: string, b: string, sep: char)
    requires OnlyOWS(a) && OnlyOWS(b) && !IsOWS(sep) && sep != '"'
    ensures SplitTrim(a + t + b, sep) == SplitTrim(t, sep)
  {
    Associate(a, t, b);
    CutIgnores(a, t, b, sep);
    match CutAt(t, sep, OUTSIDE)
    case None =>
      TrimAround(a, t, b);
      WholeOf(a + (t + b), sep);
      WholeOf(t, sep);
    case Some(i) => SplitAround(a, t, b, sep, i);
  }

  lemma Associate(a: string, t: string, b: string)
    ensures a + t + b == a + (t + b)
  {
  }

  lemma SplitAround(a: string, t: string, b: string, sep: char, i: nat)
    requires OnlyOWS(a) && OnlyOWS(b)
    requires CutAt(t, sep, OUTSIDE) == Some(i) && CutAt(a + (t + b), sep, OUTSIDE) == Some(|a| + i)
    ensures SplitTrim(a + (t + b), sep) == SplitTrim(t, sep)
  {
    Halves(a, t, b, i);
    SplitOf(a + (t + b), sep, |a| + i);
    SplitOf(t, sep, i);
    TrimFront(a, t[..i]);
    TrimBack(t[i + 1..], b);
  }

  lemma WholeOf(s: string, sep: char)
    requires CutAt(s, sep, OUTSIDE) == None
    ensures SplitTrim(s, sep) == (Trim(s), Trim(""))
  {
  }

  lemma SplitOf(s: string, sep: char, k: nat)
    requires CutAt(s, sep, OUTSIDE) == Some(k)
    ensures SplitTrim(s, sep) == (Trim(s[..k]), Trim(s[k + 1..]))
  {
  }

  lemma TrimFront(a: string, x: string)
    requires OnlyOWS(a)
    ensures Trim(a + x) == Trim(x)
  {
    TrimIgnores(a, x, "");
  }

  lemma TrimBack(x: string, b: string)
    requires OnlyOWS(b)
    ensures Trim(x + b) == Trim(x)
  {
    TrimIgnores("", x, b);
  }

  lemma ParseTrimmed(d: Decimal, s: string)
    requires Trim(s) != ""
    ensures ParseItems(d, Trim(s)) == ParseItems(d, s)
  {
    var a, b := TrimKeepsMiddle(s);
    SplitIgnores(a, Trim(s), b, ',');
  }

  /** A list of texts, with white space around every one of them. */
  function SpacedList(texts: seq<string>, gaps: seq<(string, string)>): string
    requires |gaps| == |texts|
  {
    if texts == [] then ""
    else if |texts| == 1 then gaps[0].0 + texts[0] + gaps[0].1
    else gaps[0].0 + texts[0] + gaps[0].1 + [','] + SpacedList(texts[1..], gaps[1..])
  }

  predicate Piece(t: string) {
    Closed(t, ',') && Trimmed(t) && t != ""
  }

  predicate Pieces(texts: seq<string>) {
    forall i :: 0 <= i < |texts| ==> Piece(texts[i])
  }

  /** The items of texts that were cut already. */
  function ReadTexts(d: Decimal, texts: seq<string>): (seq<Item>, bool) {
    if texts == [] then ([], true)
    else
      match ParseItem(d, texts[0])
      case None => ([], false)
      case Some(item) =>
        var (rest, ok) := ReadTexts(d, texts[1..]);
        ([item] + rest, ok)
  }

  lemma FirstOfList(t: string, a: string, b: string, more: string)
    requires Piece(t) && OnlyOWS(a) && OnlyOWS(b)
    ensures SplitTrim(a + t + b, ',') == (t, "")
    ensures SplitTrim(a + t + b + [','] + more, ',') == (t, Trim(more))
  {
    var s := a + t + b;
    PlainSpace(a);
    PlainSpace(b);
    ClosedPlain(a, ',');
    ClosedPlain(b, ',');
    ClosedAppend(a, t, ',');
    ClosedAppend(a + t, b, ',');
    SplitClosed(s, ',', more);
    TrimAround(a, t, b);
    TrimOfTrimmed(t);
  }

  lemma HoldsText(s: string, c: char)
    requires c in s && !IsOWS(c)
    ensures Trim(s) != ""
  {
    var a, b := TrimKeepsMiddle(s);
    assert c !in a && c !in b;
  }

  lemma ListHoldsText(texts: seq<string>, gaps: seq<(string, string)>)
    requires texts != [] && |gaps| == |texts| && Piece(texts[0])
    ensures Trim(SpacedList(texts, gaps)) != "" && SpacedList(texts, gaps) != ""
  {
    var s := SpacedList(texts, gaps);
    assert s[|gaps[0].0|] == texts[0][0];
    HoldsText(s, texts[0][0]);
  }

  lemma {:induction false} SpacedListIsRead(d: Decimal, texts: seq<string>, gaps: seq<(string, string)>)
    requires |gaps| == |texts| && Spaces(gaps) && Pieces(texts)
    ensures ParseItems(d, SpacedList(texts, gaps)) == ReadTexts(d, texts)
  {
    if texts != [] {
      var (a, t, b) := (gaps[0].0, texts[0], gaps[0].1);
      var rest := SpacedList(texts[1..], gaps[1..]);
      ListHoldsText(texts, gaps);
      FirstOfList(t, a, b, rest);
      SpacedListIsRead(d, texts[1..], gaps[1..]);
      if |texts| > 1 {
        ListHoldsText(texts[1..], gaps[1..]);
        ParseTrimmed(d, rest);
      }
    }
  }

  // ----- whole headers -----

  /** White space for the parameters of an item: none behind the last, where that around the comma begins. */
  predicate Fitting(sp: seq<(string, string)>, item: Item) {
    |sp| == |item.params| + 1 + |item.extens| && Spaces(sp) && sp[|sp| - 1].1 == ""
  }

  function SpacedItem(d: Decimal, item: Item, sp: seq<(string, string)>): string
    requires Fitting(sp, item)
  {
    SpacedRange(Range(item.typ, item.sub, AllParams(d, item)), sp)
  }

  lemma {:induction false} SpacedIsClosed(ps: seq<Param>, sp: seq<(string, string)>)
    requires TokenNames(ps) && |sp| == |ps| && Spaces(sp)
    ensures Closed(Spaced(ps, sp), ',')
  {
    if ps != [] {
      var (a, f, b, rest) := (sp[0].0, FormatParam(ps[0]), sp[0].1, Spaced(ps[1..], sp[1..]));
      ClosedParam(ps[0]);
      ClosedAround(a, f, b);
      SpacedIsClosed(ps[1..], sp[1..]);
      ClosedAppend(a + f + b, rest, ',');
      ClosedPlain([';'], ',');
      ClosedAppend([';'], a + f + b + rest, ',');
    }
  }

  lemma {:induction false} SpacedEnds(ps: seq<Param>, sp: seq<(string, string)>)
    requires TokenNames(ps) && ps != [] && |sp| == |ps| && sp[|sp| - 1].1 == ""
    ensures Spaced(ps, sp) != "" && !IsOWS(Spaced(ps, sp)[|Spaced(ps, sp)| - 1])
  {
    var (a, f, b, rest) := (sp[0].0, FormatParam(ps[0]), sp[0].1, Spaced(ps[1..], sp[1..]));
    ParamEnds(ps[0]);
    if |ps| > 1 {
      SpacedEnds(ps[1..], sp[1..]);
      EndOf(a + f + b, rest);
    } else {
      NoRest(a, f);
      EndOf(a, f);
    }
    EndOf([';'], a + f + b + rest);
  }

  lemma ParamEnds(p: Param)
    requires IsToken(p.name)
    ensures FormatParam(p) != "" && !IsOWS(FormatParam(p)[|FormatParam(p)| - 1])
  {
    ParseFormatParam(p);
  }

  lemma NoRest(a: string, f: string)
    ensures a + f + "" + "" == a + f
  {
  }

  lemma EndOf(a: string, b: string)
    requires b != ""
    ensures a + b != "" && (a + b)[|a + b| - 1] == b[|b| - 1]
  {
  }

  lemma ClosedAround(a: string, f: string, b: string)
    requires OnlyOWS(a) && OnlyOWS(b) && Closed(f, ',')
    ensures Closed(a + f + b, ',')
  {
    PlainSpace(a);
    PlainSpace(b);
    ClosedPlain(a, ',');
    ClosedPlain(b, ',');
    ClosedAppend(a, f, ',');
    ClosedAppend(a + f, b, ',');
  }

  lemma SpacedItemIsRead(d: Decimal, item: Item, sp: seq<(string, string)>)
    requires d.Lawful() && TokenItem(item) && Fitting(sp, item)
    ensures Piece(SpacedItem(d, item, sp))
    ensures ParseItem(d, SpacedItem(d, item, sp)) == ParseItem(d, FormatItem(d, item))
  {
    var all := AllParams(d, item);
    var tail := Spaced(all, sp);
    AllParamsShape(d, item);
    ItemAsRange(d, item);
    SpacedRangeIsRead(Range(item.typ, item.sub, all), sp);
    SpacedIsClosed(all, sp);
    SpacedEnds(all, sp);
    TokenExcludes(item.typ);
    TokenExcludes(item.sub);
    ClosedPlain(item.typ + ['/'], ',');
    ClosedPlain(item.sub, ',');
    ClosedAppend(item.sub, tail, ',');
    ClosedAppend(item.typ + ['/'], item.sub + tail, ',');
    RangeEnds(item.typ, item.sub, tail);
  }

  function SpacedItems(d: Decimal, items: seq<Item>, sps: seq<seq<(string, string)>>): (texts: seq<string>)
    requires |sps| == |items| && forall i :: 0 <= i < |items| ==> Fitting(sps[i], items[i])
    ensures |texts| == |items|
  {
    if items == [] then [] else [SpacedItem(d, items[0], sps[0])] + SpacedItems(d, items[1..], sps[1..])
  }

  lemma {:induction false} SpacedItemsAreRead(d: Decimal, items: seq<Item>, sps: seq<seq<(string, string)>>)
    requires d.Lawful() && TokenItems(items)
    requires |sps| == |items| && forall i :: 0 <= i < |items| ==> Fitting(sps[i], items[i])
    ensures Pieces(SpacedItems(d, items, sps))
    ensures ReadTexts(d, SpacedItems(d, items, sps)) == Reread(d, items)
  {
    if items != [] {
      var first, rest := SpacedItem(d, items[0], sps[0]), SpacedItems(d, items[1..], sps[1..]);
      SpacedItemIsRead(d, items[0], sps[0]);
      SpacedItemsAreRead(d, items[1..], sps[1..]);
      assert SpacedItems(d, items, sps) == [first] + rest && ([first] + rest)[1..] == rest;
    }
  }

  /**
   White space around commas, behind semicolons, and in front of all semicolons but
   the first of an item makes no difference: the header is read as it is printed
   without any.
   */
  lemma SpacesDoNotMatter(d: Decimal, items: seq<Item>, sps: seq<seq<(string, string)>>, gaps: seq<(string, string)>)
    requires d.Lawful() && TokenItems(items)
    requires |sps| == |items| && forall i :: 0 <= i < |items| ==> Fitting(sps[i], items[i])
    requires |gaps| == |items| && Spaces(gaps)
    ensures ParseItems(d, SpacedList(SpacedItems(d, items, sps), gaps)) == ParseItems(d, FormatItems(d, items))
  {
    SpacedItemsAreRead(d, items, sps);
    SpacedListIsRead(d, SpacedItems(d, items, sps), gaps);
    ParsePrinted(d, items);
  }

  lemma EncodingParts(d: Decimal, s: string, rest: string)
    requires ';' !in s
    ensures ParseEncoding(d, s + [';'] + rest)
         == match ParseParam(Trim(rest))
            case None => None
            case Some(p) => if p.name == "q" && IsToken(s) then Some(Encoding(s, d.parse(p.value))) else None
  {
    IndexOfFirst(s, ';', rest);
    assert (s + [';'] + rest)[..|s|] == s && (s + [';'] + rest)[|s| + 1..] == rest;
  }

  lemma WeightIsRead(q: string, a: string, b: string)
    requires IsToken(q) && OnlyOWS(a) && OnlyOWS(b)
    ensures ParseParam(Trim(a + ("q=" + q) + b)) == Some(Param("q", q))
  {
    assert "q=" + q == FormatParam(Param("q", q));
    ParseFormatParam(Param("q", q));
    TrimAround(a, "q=" + q, b);
    TrimOfTrimmed("q=" + q);
  }

  /** The same for the weight of a coding. */
  lemma SpacedCoding(d: Decimal, e: Encoding, w: string, a: string, b: string)
    requires d.Lawful() && IsToken(e.coding) && d.Exact(e.q) && OnlyOWS(w) && OnlyOWS(a) && OnlyOWS(b)
    ensures ParseEncoding(d, e.coding + w + [';'] + (a + ("q=" + d.show(e.q)) + b)) == if w == "" then Some(e) else None
  {
    TokenExcludes(e.coding);
    PlainSpace(w);
    WeightIsRead(d.show(e.q), a, b);
    EncodingParts(d, e.coding + w, a + ("q=" + d.show(e.q)) + b);
    if w == "" {
      assert e.coding + w == e.coding;
    } else {
      assert (e.coding + w)[|e.coding|] == w[0] && !IsTokenChar(w[0]);
    }
  }
}
