/** Lexical rules shared by the header parsers (httpx/httplex.go). */
module Lex {
  import opened Bytes

  predicate IsTokenChar(c: char) {
    || '0' <= c <= '9' || 'A' <= c <= 'Z' || 'a' <= c <= 'z'
    || c in {'!', '#', '$', '%', '&', '\'', '*', '+', '-', '.', '^', '_', '`', '|', '~'}
  }

  /** The characters of tokens are visible ASCII without the delimiters of section 3.2.6 of RFC 7230. */
  lemma TokenChars(c: char)
    ensures IsTokenChar(c) <==> '!' <= c <= '~' && c !in "\"(),/:;<=>?@[\\]{}"
    ensures IsOWS(c) <==> c in " \t"
  {
  }

  predicate IsToken(s: string) {
    s != "" && forall i :: 0 <= i < |s| ==> IsTokenChar(s[i])
  }

  predicate IsOWS(c: char) {
    c == ' ' || c == '\t'
  }

  function TrimLeft(s: string): (r: string)
    ensures |r| <= |s| && (r != "" ==> !IsOWS(r[0]))
  {
    if s != "" && IsOWS(s[0]) then TrimLeft(s[1..]) else s
  }

  function TrimRight(s: string): (r: string)
    ensures |r| <= |s| && r == s[..|r|] && (r != "" ==> !IsOWS(r[|r| - 1]))
  {
    if s != "" && IsOWS(s[|s| - 1]) then TrimRight(s[..|s| - 1]) else s
  }

  /** s without the optional white space around it. */
  function Trim(s: string): (r: string)
    ensures |r| <= |s|
  {
    TrimRight(TrimLeft(s))
  }

  /** No optional white space at either end. */
  predicate Trimmed(s: string) {
    s != "" ==> !IsOWS(s[0]) && !IsOWS(s[|s| - 1])
  }

  lemma TrimIsTrimmed(s: string)
    ensures Trimmed(Trim(s))
  {
    var t := TrimLeft(s);
    assert TrimRight(t) == t[..|TrimRight(t)|];
  }

  lemma TrimOfTrimmed(s: string)
    requires Trimmed(s)
    ensures Trim(s) == s && Trim(" " + s) == s && Trim([]) == []
  {
    assert (" " + s)[1..] == s;
    assert TrimLeft(" " + s) == TrimLeft(s) == s;
  }

  predicate OnlyOWS(s: string) {
    forall i :: 0 <= i < |s| ==> IsOWS(s[i])
  }

  lemma {:induction false} TrimmedLeft(s: string) returns (a: string)
    ensures s == a + TrimLeft(s) && OnlyOWS(a)
  {
    a := "";
    if s != "" && IsOWS(s[0]) {
      a := TrimmedLeft(s[1..]);
      assert s == ([s[0]] + a) + TrimLeft(s);
      a := [s[0]] + a;
    }
  }

  lemma {:induction false} TrimmedRight(s: string)
    ensures OnlyOWS(s[|TrimRight(s)|..])
  {
    if s != "" && IsOWS(s[|s| - 1]) {
      TrimmedRight(s[..|s| - 1]);
      assert s[..|s| - 1][|TrimRight(s)|..] == s[|TrimRight(s)|..|s| - 1];
    }
  }

  /** Whatever was trimmed is white space, and nothing inside was touched. */
  lemma TrimKeepsMiddle(s: string) returns (a: string, b: string)
    ensures s == a + Trim(s) + b && OnlyOWS(a) && OnlyOWS(b) && Trimmed(Trim(s))
  {
    var t := TrimLeft(s);
    a := TrimmedLeft(s);
    TrimmedRight(t);
    b := t[|TrimRight(t)|..];
    Middle(s, a, t, |TrimRight(t)|);
    TrimIsTrimmed(s);
  }

  lemma Middle(s: string, a: string, t: string, k: nat)
    requires s == a + t && k <= |t|
    ensures s == a + t[..k] + t[k..]
  {
  }

  lemma {:induction false} TrimLeftSkips(a: string, x: string)
    requires OnlyOWS(a)
    ensures TrimLeft(a + x) == TrimLeft(x)
  {
    if a == "" {
      assert a + x == x;
    } else {
      assert (a + x)[1..] == a[1..] + x;
      TrimLeftSkips(a[1..], x);
    }
  }

  lemma {:induction false} TrimRightSkips(x: string, b: string)
    requires OnlyOWS(b)
    ensures TrimRight(x + b) == TrimRight(x)
  {
    if b == "" {
      assert x + b == x;
    } else {
      assert (x + b)[..|x + b| - 1] == x + b[..|b| - 1];
      TrimRightSkips(x, b[..|b| - 1]);
    }
  }

  lemma {:induction false} TrimLeftAppend(x: string, b: string)
    requires OnlyOWS(b)
    ensures TrimLeft(x + b) == if TrimLeft(x) == "" then "" else TrimLeft(x) + b
  {
    if x == "" {
      assert x + b == b + "";
      TrimLeftSkips(b, "");
    } else if IsOWS(x[0]) {
      assert (x + b)[1..] == x[1..] + b;
      TrimLeftAppend(x[1..], b);
    }
  }

  /** White space around a text does not change what trimming leaves. */
  lemma TrimIgnores(a: string, x: string, b: string)
    requires OnlyOWS(a) && OnlyOWS(b)
    ensures Trim(a + x) == Trim(x) && Trim(x + b) == Trim(x)
  {
    TrimLeftSkips(a, x);
    TrimLeftAppend(x, b);
    TrimRightSkips(TrimLeft(x), b);
  }

  method TrimOWS(s: string) returns (x: string)
    ensures x == Trim(s)
  {
    x := s;
    while |x| > 0 && IsOWS(x[0])
      invariant TrimLeft(x) == TrimLeft(s)
    {
      x := x[1..];
    }
    while |x| > 0 && IsOWS(x[|x| - 1])
      invariant TrimRight(x) == Trim(s)
    {
      x := x[..|x| - 1];
    }
  }

  /** strings.IndexByte. */
  function IndexOf(s: string, c: char): (r: Option<nat>)
    ensures r.Some? ==> r.value < |s| && s[r.value] == c
  {
    if s == "" then None
    else if s[0] == c then Some(0)
    else match IndexOf(s[1..], c)
      case Some(i) => Some(i + 1)
      case None => None
  }

  /** It is the first one. */
  lemma {:induction false} IndexOfIsFirst(s: string, c: char)
    ensures IndexOf(s, c).Some? <==> c in s
    ensures IndexOf(s, c).Some? ==> c !in s[..IndexOf(s, c).value]
  {
    if s != "" && s[0] != c {
      IndexOfIsFirst(s[1..], c);
      assert s == [s[0]] + s[1..];
      if IndexOf(s, c).Some? {
        var i := IndexOf(s[1..], c).value;
        assert s[..i + 1] == [s[0]] + s[1..][..i];
      }
    }
  }

  lemma {:induction false} IndexOfFirst(a: string, c: char, b: string)
    requires c !in a
    ensures IndexOf(a + [c] + b, c) == Some(|a|)
  {
    var s := a + [c] + b;
    if a == "" {
      assert s[0] == c;
    } else {
      assert s[0] == a[0] && s[1..] == a[1..] + [c] + b;
      IndexOfFirst(a[1..], c, b);
    }
  }

  lemma {:induction false} IndexOfNone(a: string, c: char)
    requires c !in a
    ensures IndexOf(a, c) == None
  {
    if a != "" {
      IndexOfNone(a[1..], c);
    }
  }

  function Lower(c: char): char {
    if 'A' <= c <= 'Z' then (c as int + 32) as char else c
  }

  function Upper(c: char): char {
    if 'a' <= c <= 'z' then (c as int - 32) as char else c
  }

  /** Equal up to the case of ASCII letters, and without any character outside ASCII. */
  ghost predicate SameToken(a: string, b: string) {
    |a| == |b| && forall i :: 0 <= i < |a| ==> a[i] < '\U{80}' && Lower(a[i]) == Lower(b[i])
  }

  /** Character by character: ASCII, and the same or the other case of a letter. */
  lemma SameTokenMeans(a: string, b: string)
    ensures SameToken(a, b)
       <==> |a| == |b| && forall i :: 0 <= i < |a| ==>
              && a[i] <= '\U{7F}'
              && (a[i] == b[i] || ('A' <= a[i] <= 'Z' && b[i] as int == a[i] as int + 32)
                  || ('a' <= a[i] <= 'z' && b[i] as int == a[i] as int - 32))
  {
    forall i | 0 <= i < |a| && |a| == |b| && a[i] <= '\U{7F}'
      ensures Lower(a[i]) == Lower(b[i])
         <==> (a[i] == b[i] || ('A' <= a[i] <= 'Z' && b[i] as int == a[i] as int + 32)
               || ('a' <= a[i] <= 'z' && b[i] as int == a[i] as int - 32))
    {
      SameLetter(a[i], b[i]);
    }
  }

  lemma SameLetter(c: char, d: char)
    ensures Lower(c) == Lower(d)
       <==> c == d || ('A' <= c <= 'Z' && d as int == c as int + 32) || ('a' <= c <= 'z' && d as int == c as int - 32)
  {
  }

  method TokenEqual(t1: string, t2: string) returns (r: bool)
    ensures r == SameToken(t1, t2)
  {
    if |t1| != |t2| {
      return false;
    }
    for i := 0 to |t1|
      invariant forall k :: 0 <= k < i ==> t1[k] < '\U{80}' && Lower(t1[k]) == Lower(t2[k])
    {
      if t1[i] >= '\U{80}' {
        return false;
      }
      if Lower(t1[i]) != Lower(t2[i]) {
        return false;
      }
    }
    return true;
  }

  /** tokenEqual only looks at its first argument for non-ASCII characters, and is symmetric all the same. */
  lemma SameTokenEquivalence(a: string, b: string, c: string)
    ensures SameToken(a, b) ==> SameToken(b, a)
    ensures SameToken(a, b) && SameToken(b, c) ==> SameToken(a, c)
  {
    if SameToken(a, b) {
      forall i | 0 <= i < |b| ensures b[i] < '\U{80}' && Lower(b[i]) == Lower(a[i]) {
        assert a[i] < '\U{80}';
      }
    }
  }
}
