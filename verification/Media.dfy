/** Media ranges, types and parameters (httpx/media.go). */
module Media {
  import opened Bytes
  import opened Lex
  import opened Quotes

  datatype Param = Param(name: string, value: string)

  datatype Range = Range(typ: string, sub: string, params: seq<Param>)

  datatype Type = Type(typ: string, sub: string)
  {
    /** This type is a superset of t2 or equal to it. */
    predicate Contains(t2: Type) {
      typ == "*" || (typ == t2.typ && (sub == "*" || sub == t2.sub))
    }
  }

  // ----- printing -----

  function FormatParam(p: Param): string {
    p.name + ['='] + FormatText(p.value)
  }

  /** Every parameter, each behind its own semicolon. */
  function FormatParams(ps: seq<Param>): string {
    if ps == [] then "" else [';'] + (FormatParam(ps[0]) + FormatParams(ps[1..]))
  }

  function FormatRange(r: Range): string {
    r.typ + ['/'] + (r.sub + FormatParams(r.params))
  }

  // ----- parsing -----

  function ParseParam(s: string): Option<Param> {
    match IndexOf(s, '=')
    case None => None
    case Some(i) =>
      var (name, value) := (s[..i], ParseText(s[i + 1..]));
      if IsToken(name) && value.Some? then Some(Param(name, value.value)) else None
  }

  /** The text up to the first semicolon, and the text after it. */
  function Field(s: string): (r: (string, string))
    ensures s != "" ==> |r.1| < |s|
  {
    match IndexOf(s, ';')
    case None => (s, "")
    case Some(i) => (s[..i], s[i + 1..])
  }

  /** Parameters separated by semicolons; the splitting does not look at quotes. */
  function ParseParams(s: string): Option<seq<Param>>
    decreases |s|
  {
    if s == "" then Some([])
    else
      var (f, rest) := Field(s);
      match ParseParam(Trim(f))
      case None => None
      case Some(p) =>
        Glue([p], ParseParams(rest))
  }

  function ParseRange(s: string): Option<Range> {
    match IndexOf(s, '/')
    case None => None
    case Some(i) =>
      var (sub, rest) := Field(s[i + 1..]);
      if !IsToken(s[..i]) || !IsToken(sub) then None
      else match ParseParams(rest)
        case None => None
        case Some(ps) => Some(Range(s[..i], sub, ps))
  }

  function ParseType(s: string): Option<Type> {
    match IndexOf(s, '/')
    case None => None
    case Some(i) =>
      if IsToken(s[..i]) && IsToken(s[i + 1..]) then Some(Type(s[..i], s[i + 1..])) else None
  }

  /** A type is a token, a slash and a token, and nothing else. */
  lemma TypeIsExact(s: string, typ: string, sub: string)
    ensures ParseType(s) == Some(Type(typ, sub)) <==> IsToken(typ) && IsToken(sub) && s == typ + ['/'] + sub
  {
    IndexOfIsFirst(s, '/');
    if IsToken(typ) && s == typ + ['/'] + sub {
      TokenExcludes(typ);
      IndexOfFirst(typ, '/', sub);
      assert s[..|typ|] == typ && s[|typ| + 1..] == sub;
    }
    if IndexOf(s, '/').Some? {
      var i := IndexOf(s, '/').value;
      assert s == s[..i] + ['/'] + s[i + 1..];
    }
  }

  // ----- the loops -----

  method ParseMediaParam(s: string) returns (p: Option<Param>)
    ensures p == ParseParam(s)
  {
    var i := IndexOf(s, '=');
    if i.None? {
      return None;
    }
    var s1, s2 := s[..i.value], s[i.value + 1..];
    if !IsToken(s1) {
      return None;
    }
    var q := ParseQuoted(s2);
    p := if q.Some? then Some(Param(s1, q.value)) else None;
  }

  method ParseMediaRange(s: string) returns (r: Option<Range>)
    ensures r == ParseRange(s)
  {
    var i := IndexOf(s, '/');
    if i.None? {
      return None;
    }
    var s1, rest := s[..i.value], s[i.value + 1..];
    var s2, s3 := rest, "";
    var j := IndexOf(rest, ';');
    if j.Some? {
      s2, s3 := rest[..j.value], rest[j.value + 1..];
    }
    if !IsToken(s1) || !IsToken(s2) {
      return None;
    }
    var mp := ParseParamList(s3);
    r := if mp.Some? then Some(Range(s1, s2, mp.value)) else None;
  }

  /** The loop of ParseMediaRange over the text behind the subtype. */
  method ParseParamList(s: string) returns (r: Option<seq<Param>>)
    ensures r == ParseParams(s)
  {
    var mp, s3 := [], s;
    GlueParams([], ParseParams(s));
    while s3 != ""
      invariant ParseParams(s) == Glue(mp, ParseParams(s3))
      decreases |s3|
    {
      var k := IndexOf(s3, ';');
      var end := if k.None? then |s3| else k.value;
      assert s3[..|s3|] == s3;
      var f := TrimOWS(s3[..end]);
      var p := ParseMediaParam(f);
      if p.None? {
        return None;
      }
      var left := s3[end..];
      if left != "" {
        left := left[1..];
      }
      assert left == Field(s3).1;
      GlueParam(mp, p.value, ParseParams(left));
      mp, s3 := mp + [p.value], left;
    }
    GlueParams(mp, None);
    return Some(mp);
  }

  function Glue(mp: seq<Param>, r: Option<seq<Param>>): Option<seq<Param>> {
    match r
    case Some(ps) => Some(mp + ps)
    case None => None
  }

  lemma GlueParams(mp: seq<Param>, r: Option<seq<Param>>)
    ensures Glue([], r) == r && Glue(mp, Some([])) == Some(mp)
  {
    assert mp + [] == mp;
    if r.Some? {
      assert [] + r.value == r.value;
    }
  }

  lemma GlueParam(mp: seq<Param>, p: Param, r: Option<seq<Param>>)
    ensures Glue(mp, Glue([p], r)) == Glue(mp + [p], r)
  {
    if r.Some? {
      assert mp + ([p] + r.value) == mp + [p] + r.value;
    }
  }

  // ----- what is printed and what is read back -----

  predicate TokenNames(ps: seq<Param>) {
    forall i :: 0 <= i < |ps| ==> IsToken(ps[i].name)
  }

  /** No value holds the semicolon that the parser splits at. */
  predicate NoSemicolons(ps: seq<Param>) {
    forall i :: 0 <= i < |ps| ==> ';' !in ps[i].value
  }

  lemma ParseFormatParam(p: Param)
    requires IsToken(p.name)
    ensures ParseParam(FormatParam(p)) == Some(p)
    ensures Trimmed(FormatParam(p))
    ensures '/' !in p.name && ';' !in p.name && '=' !in p.name && '"' !in p.name && ',' !in p.name
  {
    var s := FormatParam(p);
    TokenExcludes(p.name);
    IndexOfFirst(p.name, '=', FormatText(p.value));
    assert s[..|p.name|] == p.name && s[|p.name| + 1..] == FormatText(p.value);
    QuoteRoundTrip(p.value);
    assert s[0] == p.name[0];
    assert FormatText(p.value) != "" && s[|s| - 1] == FormatText(p.value)[|FormatText(p.value)| - 1];
  }

  lemma TokenExcludes(t: string)
    requires IsToken(t)
    ensures '/' !in t && ';' !in t && '=' !in t && '"' !in t && ',' !in t && ' ' !in t && '\t' !in t
  {
  }

  lemma {:induction false} EscapeSemicolons(s: string)
    ensures ';' in Escape(s) <==> ';' in s
  {
    if s != "" {
      EscapeSemicolons(s[1..]);
      assert s == [s[0]] + s[1..];
    }
  }

  lemma TextSemicolons(s: string)
    ensures ';' in FormatText(s) <==> ';' in s
  {
    if IsToken(s) {
      TokenExcludes(s);
    } else {
      EscapeSemicolons(s);
      assert Quote(s) == "\"" + Escape(s) + "\"";
    }
  }

  /** Where a quoted value begins: behind the name, the equals sign and the quote. */
  function Opening(name: string): string {
    name + "=\""
  }

  /** What the printed parameter has before its first semicolon lies within the escaped value. */
  lemma CutInside(p: Param, x: string)
    requires IsToken(p.name) && !IsToken(p.value)
    requires x <= FormatParam(p) && |x| < |FormatParam(p)| && FormatParam(p)[|x|] == ';'
    ensures Opening(p.name) <= x && x[|Opening(p.name)|..] <= Escape(p.value)
  {
    var head, body := Opening(p.name), Escape(p.value) + "\"";
    TokenExcludes(p.name);
    var f := head + body;
    assert FormatParam(p) == f;
    assert ';' !in head;
    assert forall k :: 0 <= k < |head| ==> f[k] == head[k];
    assert |x| >= |head|;
    assert f[|head|..] == body && x[|head|..] == body[..|x| - |head|];
    assert body[|x| - |head|] == f[|x|] == ';';
  }

  /** A quoted value that was cut, trimmed or not, is rejected. */
  lemma CutValueRejected(name: string, value: string, y: string)
    requires IsToken(name) && y <= Escape(value)
    ensures ParseParam(Trim(Opening(name) + y)) == None
  {
    var head := Opening(name);
    var x := head + y;
    assert x[0] == name[0] && TrimLeft(x) == x;
    TrimRightKeeps(head, y);
    var z := TrimRight(x)[|head|..];
    CutQuoteRejected(value, z);
    OpeningRejected(name, z);
    assert TrimRight(x) == Opening(name) + z;
  }

  lemma OpeningRejected(name: string, z: string)
    requires IsToken(name) && ParseText("\"" + z) == None
    ensures ParseParam(Opening(name) + z) == None
  {
    var t, q := Opening(name) + z, "\"" + z;
    assert t == name + ['='] + q;
    TokenExcludes(name);
    IndexOfFirst(name, '=', q);
    assert t[|name| + 1..] == q;
  }

  /** A parameter whose value holds a semicolon is cut there, and what is left is rejected. */
  lemma CutParamRejected(p: Param, x: string)
    requires IsToken(p.name) && ';' in p.value
    requires x <= FormatParam(p) && ';' !in x && |x| < |FormatParam(p)| && FormatParam(p)[|x|] == ';'
    ensures ParseParam(Trim(x)) == None
  {
    if IsToken(p.value) {
      TokenExcludes(p.value);
    }
    CutInside(p, x);
    var y := x[|Opening(p.name)|..];
    assert x == Opening(p.name) + y;
    CutValueRejected(p.name, p.value, y);
  }

  lemma {:induction false} TrimRightKeeps(a: string, b: string)
    requires a != "" && !IsOWS(a[|a| - 1])
    ensures |TrimRight(a + b)| >= |a|
  {
    if b != "" && IsOWS(b[|b| - 1]) {
      assert (a + b)[..|a + b| - 1] == a + b[..|b| - 1];
      TrimRightKeeps(a, b[..|b| - 1]);
    }
  }

  /**
   Parameters that were printed are read back exactly when no value holds a
   semicolon, and are rejected otherwise.
   */
  lemma {:induction false} ParamsRoundTrip(ps: seq<Param>)
    requires TokenNames(ps) && ps != []
    ensures ParseParams(FormatParams(ps)[1..]) == if NoSemicolons(ps) then Some(ps) else None
  {
    var p, rest := ps[0], ps[1..];
    var more := FormatParams(rest);
    assert FormatParams(ps)[1..] == FormatParam(p) + more;
    SplitParams(ps);
    FirstParam(p, more);
    if rest != [] && ';' !in p.value {
      ParamsRoundTrip(rest);
    }
  }

  lemma SplitParams(ps: seq<Param>)
    requires ps != []
    ensures ps == [ps[0]] + ps[1..]
    ensures TokenNames(ps) <==> IsToken(ps[0].name) && TokenNames(ps[1..])
    ensures NoSemicolons(ps) <==> ';' !in ps[0].value && NoSemicolons(ps[1..])
  {
    assert forall i :: 1 <= i < |ps| ==> ps[i] == ps[1..][i - 1];
  }

  lemma FirstParam(p: Param, more: string)
    requires IsToken(p.name) && (more == "" || more[0] == ';')
    ensures ParseParams(FormatParam(p) + more) ==
              if ';' in p.value then None
              else Glue([p], ParseParams(if more == "" then "" else more[1..]))
  {
    var f := FormatParam(p);
    ParseFormatParam(p);
    FieldOfParams(p, more);
    if ';' in p.value {
      IndexOfIsFirst(f, ';');
      CutParamRejected(p, f[..IndexOf(f, ';').value]);
    } else {
      TrimOfTrimmed(f);
    }
  }

  lemma FieldOfParams(p: Param, more: string)
    requires IsToken(p.name) && (more == "" || more[0] == ';')
    ensures var f := FormatParam(p);
            if ';' in p.value then IndexOf(f, ';').Some? && Field(f + more).0 == f[..IndexOf(f, ';').value]
            else Field(f + more) == (f, if more == "" then "" else more[1..])
    ensures FormatParam(p) + more != ""
  {
    TokenExcludes(p.name);
    TextSemicolons(p.value);
    assert ';' in FormatParam(p) <==> ';' in p.value;
    FieldAppend(FormatParam(p), more);
  }

  lemma FieldAppend(f: string, more: string)
    requires more == "" || more[0] == ';'
    ensures if ';' in f then IndexOf(f, ';').Some? && Field(f + more).0 == f[..IndexOf(f, ';').value]
            else Field(f + more) == (f, if more == "" then "" else more[1..])
  {
    IndexOfIsFirst(f, ';');
    if ';' in f {
      IndexOfPrefix(f, more, ';');
    } else if more == "" {
      assert f + more == f;
    } else {
      assert f + more == f + [';'] + more[1..];
      IndexOfFirst(f, ';', more[1..]);
    }
  }

  lemma {:induction false} IndexOfPrefix(s: string, t: string, c: char)
    requires IndexOf(s, c).Some?
    ensures IndexOf(s + t, c) == IndexOf(s, c)
  {
    assert (s + t)[0] == s[0] && (s + t)[1..] == s[1..] + t;
    if s[0] != c {
      IndexOfPrefix(s[1..], t, c);
    }
  }

  /** A printed media range is read back exactly when no parameter value holds a semicolon. */
  lemma RangeRoundTrip(r: Range)
    requires IsToken(r.typ) && IsToken(r.sub) && TokenNames(r.params)
    ensures ParseRange(FormatRange(r)) == if NoSemicolons(r.params) then Some(r) else None
  {
    var s, tail := FormatRange(r), FormatParams(r.params);
    TokenExcludes(r.typ);
    TokenExcludes(r.sub);
    IndexOfFirst(r.typ, '/', r.sub + tail);
    assert s[..|r.typ|] == r.typ && s[|r.typ| + 1..] == r.sub + tail;
    if r.params == [] {
      assert r.sub + tail == r.sub;
      IndexOfNone(r.sub, ';');
    } else {
      assert r.sub + tail == r.sub + [';'] + tail[1..];
      IndexOfFirst(r.sub, ';', tail[1..]);
      assert Field(r.sub + tail) == (r.sub, tail[1..]);
      ParamsRoundTrip(r.params);
    }
  }

  // ----- the order of media types -----

  /** Go's order on strings. */
  predicate StringLess(a: string, b: string) {
    b != "" && (a == "" || a[0] < b[0] || (a[0] == b[0] && StringLess(a[1..], b[1..])))
  }

  /** Where two texts first differ the smaller character decides, and a text comes before its extensions. */
  lemma {:induction false} StringLessMeans(p: string, c: char, a: string, d: char, b: string)
    ensures StringLess(p + [c] + a, p + [d] + b) <==> c < d || (c == d && StringLess(a, b))
    ensures StringLess(p, p + [d] + b)
  {
    var x, y := p + [c] + a, p + [d] + b;
    if p == "" {
      assert x[0] == c && y[0] == d && x[1..] == a && y[1..] == b;
    } else {
      assert x[0] == y[0] == p[0] && x[1..] == p[1..] + [c] + a && y[1..] == p[1..] + [d] + b;
      StringLessMeans(p[1..], c, a, d, b);
    }
  }

  /** Alphabetical, with the wildcard behind everything else. */
  predicate MediaTypeLess(t1: string, t2: string) {
    if t1 == t2 || t1 == "*" then false
    else if t2 == "*" then true
    else StringLess(t1, t2)
  }

  lemma {:induction false} StringOrder(a: string, b: string, c: string)
    ensures !StringLess(a, a)
    ensures a == b || StringLess(a, b) || StringLess(b, a)
    ensures StringLess(a, b) && StringLess(b, c) ==> StringLess(a, c)
    ensures !(StringLess(a, b) && StringLess(b, a))
  {
    if a != "" && b != "" {
      assert a == [a[0]] + a[1..] && b == [b[0]] + b[1..];
      StringOrder(a[1..], b[1..], if c == "" then "" else c[1..]);
    } else if a != "" {
      StringOrder(a[1..], a[1..], a[1..]);
    }
  }

  /** mediaTypeLess is a strict total order, and the wildcard is its last element. */
  lemma MediaTypeOrder(a: string, b: string, c: string)
    ensures !MediaTypeLess(a, a)
    ensures a == b || MediaTypeLess(a, b) || MediaTypeLess(b, a)
    ensures MediaTypeLess(a, b) && MediaTypeLess(b, c) ==> MediaTypeLess(a, c)
    ensures !(MediaTypeLess(a, b) && MediaTypeLess(b, a))
    ensures (a != "*" ==> MediaTypeLess(a, "*")) && !MediaTypeLess("*", a)
    ensures a != "*" && b != "*" ==> (MediaTypeLess(a, b) <==> StringLess(a, b))
  {
    StringOrder(a, b, c);
    StringOrder(a, c, b);
    StringOrder(a, a, a);
  }
}
