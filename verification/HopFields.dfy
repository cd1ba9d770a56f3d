/** Hop-by-hop fields (httpx/proto.go:27-50). */
module HopFields {
  import opened HeaderLists
  import opened Headers
  import opened Lex

  function CanonFrom(s: string, upper: bool): string {
    if s == "" then ""
    else [if upper then Upper(s[0]) else Lower(s[0])] + CanonFrom(s[1..], s[0] == '-')
  }

  /** textproto.CanonicalMIMEHeaderKey: names that are not tokens are left alone. */
  function Canon(s: string): string {
    if s == "" || IsToken(s) then CanonFrom(s, true) else s
  }

  const CONNECTION := "Connection"
  const CLOSE := "close"

  const HOP_FIELDS: set<string> :=
    {"Connection"} + {"Keep-Alive"} + {"Proxy-Authenticate"} + {"Proxy-Authorization"} + {"Proxy-Connection"}
    + {"Te"} + {"Trailer"} + {"Transfer-Encoding"} + {"Upgrade"}

  lemma MinusTwice(h: Header, a: set<string>, b: set<string>)
    ensures h - a - b == h - (a + b)
  {
  }

  /** An http.Header, which its methods change in place. */
  class HeaderMap {
    var fields: Header

    constructor (fields: Header)
      ensures this.fields == fields
    {
      this.fields := fields;
    }

    method Del(name: string)
      modifies this
      ensures fields == old(fields) - {Canon(name)}
    {
      fields := fields - {Canon(name)};
    }

    function Lookup(name: string): seq<string>
      reads this
    {
      if name in fields then fields[name] else []
    }

    /** Removes the fields that describe one hop only. */
    method DeleteHopFields()
      modifies this
      ensures fields == HopFree(old(fields)) && NoHopField(fields)
    {
      var list := Lookup(CONNECTION);
      for i := 0 to |list|
        invariant fields == old(fields) - Named(list[..i])
      {
        NamedSnoc(list, i);
        DelListed(list[i]);
      }
      assert list[..|list|] == list;
      DelFixed();
      assert fields == old(fields) - (Named(list) + HOP_FIELDS);
      NoHopFieldIsLeft(old(fields));
    }

    /** Deletes the nine fields that always describe one hop. */
    method DelFixed()
      modifies this
      ensures fields == old(fields) - HOP_FIELDS
    {
      HopNamesAreCanonical();
      ghost var h, gone: set<string> := fields, {"Connection"};
      DelCanonical("Connection");
      DelCanonical("Keep-Alive");
      MinusTwice(h, gone, {"Keep-Alive"});
      gone := gone + {"Keep-Alive"};
      DelCanonical("Proxy-Authenticate");
      MinusTwice(h, gone, {"Proxy-Authenticate"});
      gone := gone + {"Proxy-Authenticate"};
      DelCanonical("Proxy-Authorization");
      MinusTwice(h, gone, {"Proxy-Authorization"});
      gone := gone + {"Proxy-Authorization"};
      DelCanonical("Proxy-Connection");
      MinusTwice(h, gone, {"Proxy-Connection"});
      gone := gone + {"Proxy-Connection"};
      DelCanonical("Te");
      MinusTwice(h, gone, {"Te"});
      gone := gone + {"Te"};
      DelCanonical("Trailer");
      MinusTwice(h, gone, {"Trailer"});
      gone := gone + {"Trailer"};
      DelCanonical("Transfer-Encoding");
      MinusTwice(h, gone, {"Transfer-Encoding"});
      gone := gone + {"Transfer-Encoding"};
      DelCanonical("Upgrade");
      MinusTwice(h, gone, {"Upgrade"});
      gone := gone + {"Upgrade"};
    }

    /** Del of a name that is canonical already. */
    method DelCanonical(name: string)
      requires CasedFrom(name, 0)
      modifies this
      ensures fields == old(fields) - {name}
    {
      CasedIsCanonical(name);
      Del(name);
    }

    /** Deletes the fields that one Connection value names. */
    method DelListed(value: string)
      modifies this
      ensures fields == old(fields) - NamedBy(Values(value))
    {
      var a := value;
      ghost var done: seq<string> := [];
      assert done + Values(a) == Values(a);
      NamedBySnoc(done, CLOSE);
      while a != ""
        invariant fields == old(fields) - NamedBy(done)
        invariant done + Values(a) == Values(value)
        decreases |a|
      {
        var (s, tail) := ReadHeaderValue(a);
        NamedBySnoc(done, s);
        MoveOne(done, s, Values(tail));
        MinusTwice(old(fields), NamedBy(done), {Canon(s)});
        done := done + [s];
        if s != CLOSE {
          Del(s);
        }
        a := tail;
      }
      assert done + [] == done;
    }
  }

  /** The field names that the values ask to delete. */
  function NamedBy(values: seq<string>): set<string> {
    set v | v in values && v != CLOSE :: Canon(v)
  }

  function Named(list: seq<string>): set<string> {
    set a, v | a in list && v in Values(a) && v != CLOSE :: Canon(v)
  }

  lemma NamedBySnoc(values: seq<string>, v: string)
    ensures NamedBy(values + [v]) == NamedBy(values) + if v == CLOSE then {} else {Canon(v)}
    ensures NamedBy([]) == {}
  {
  }

  lemma MoveOne(done: seq<string>, s: string, rest: seq<string>)
    ensures done + ([s] + rest) == (done + [s]) + rest
  {
  }

  lemma NamedSnoc(list: seq<string>, i: nat)
    requires i < |list|
    ensures Named(list[..i + 1]) == Named(list[..i]) + NamedBy(Values(list[i]))
  {
    assert list[..i + 1] == list[..i] + [list[i]];
  }

  lemma HopNamesAreCanonical()
    ensures CasedFrom("Connection", 0)
    ensures CasedFrom("Keep-Alive", 0)
    ensures CasedFrom("Proxy-Authenticate", 0)
    ensures CasedFrom("Proxy-Authorization", 0)
    ensures CasedFrom("Proxy-Connection", 0)
    ensures CasedFrom("Te", 0)
    ensures CasedFrom("Trailer", 0)
    ensures CasedFrom("Transfer-Encoding", 0)
    ensures CasedFrom("Upgrade", 0)
  {
    ShortNames();
    ProxyNames();
    TransferNames();
  }

  lemma ShortNames()
    ensures CasedFrom("Connection", 0)
    ensures CasedFrom("Keep-Alive", 0)
    ensures CasedFrom("Te", 0)
    ensures CasedFrom("Trailer", 0)
    ensures CasedFrom("Upgrade", 0)
  {
  }

  lemma ProxyNames()
    ensures CasedFrom("Proxy-Authenticate", 0)
    ensures CasedFrom("Proxy-Authorization", 0)
  {
    assert CasedFrom("Proxy-Authenticate", 12);
    assert CasedFrom("Proxy-Authenticate", 6);
    assert CasedFrom("Proxy-Authorization", 12);
    assert CasedFrom("Proxy-Authorization", 6);
  }

  lemma TransferNames()
    ensures CasedFrom("Proxy-Connection", 0)
    ensures CasedFrom("Transfer-Encoding", 0)
  {
    assert CasedFrom("Proxy-Connection", 12);
    assert CasedFrom("Proxy-Connection", 6);
    assert CasedFrom("Transfer-Encoding", 12);
    assert CasedFrom("Transfer-Encoding", 6);
  }

  /** From i on, the letters have the case that their place asks for. */
  predicate CasedFrom(s: string, i: nat)
    decreases |s| - i
  {
    i < |s| ==>
      && IsTokenChar(s[i])
      && s[i] == (if i == 0 || s[i - 1] == '-' then Upper(s[i]) else Lower(s[i]))
      && CasedFrom(s, i + 1)
  }

  lemma CasedIsCanonical(s: string)
    requires CasedFrom(s, 0)
    ensures Canon(s) == s
  {
    CasedRest(s, 0);
    assert s[0..] == s;
  }

  lemma {:induction false} CasedRest(s: string, i: nat)
    requires i <= |s| && CasedFrom(s, i)
    ensures forall k :: i <= k < |s| ==> IsTokenChar(s[k])
    ensures CanonFrom(s[i..], i == 0 || s[i - 1] == '-') == s[i..]
    decreases |s| - i
  {
    if i < |s| {
      CasedRest(s, i + 1);
      assert s[i..][1..] == s[i + 1..];
    }
  }

  /** The fields that deleteHopFields leaves. */
  function HopFree(h: Header): Header {
    h - (Named(if CONNECTION in h then h[CONNECTION] else []) + HOP_FIELDS)
  }

  // ----- what survives -----

  /** The texts are equal up to the case of ASCII letters. */
  predicate SameLower(a: string, b: string) {
    |a| == |b| && forall i :: 0 <= i < |a| ==> Lower(a[i]) == Lower(b[i])
  }

  lemma SameLowerRest(a: string, b: string)
    requires a != "" && SameLower(a, b)
    ensures Lower(a[0]) == Lower(b[0]) && SameLower(a[1..], b[1..])
  {
    forall i | 0 <= i < |a| - 1 ensures Lower(a[1..][i]) == Lower(b[1..][i]) {
      assert Lower(a[i + 1]) == Lower(b[i + 1]);
    }
  }

  /** The canonical form depends on nothing but the letters. */
  lemma {:induction false} CanonOfSame(a: string, b: string, upper: bool)
    requires SameLower(a, b)
    ensures CanonFrom(a, upper) == CanonFrom(b, upper)
  {
    if a != "" {
      SameLowerRest(a, b);
      CanonOfSame(a[1..], b[1..], a[0] == '-');
    }
  }

  /** It keeps the letters. */
  lemma {:induction false} CanonKeepsLetters(a: string, upper: bool)
    ensures SameLower(CanonFrom(a, upper), a)
  {
    if a != "" {
      var head, rest := [if upper then Upper(a[0]) else Lower(a[0])], CanonFrom(a[1..], a[0] == '-');
      CanonKeepsLetters(a[1..], a[0] == '-');
      assert a == [a[0]] + a[1..] && CanonFrom(a, upper) == head + rest;
      SameLowerBoth(head, [a[0]], rest, a[1..]);
    }
  }

  lemma SameLowerBoth(a: string, b: string, c: string, d: string)
    requires SameLower(a, b) && SameLower(c, d)
    ensures SameLower(a + c, b + d)
  {
  }

  lemma NamesTheSame(p: string, k: string)
    requires IsToken(k) && Canon(p) == k
    ensures SameToken(p, k)
  {
    CanonKeepsLetters(p, true);
    assert IsToken(p);
    forall i | 0 <= i < |p| ensures p[i] < '\U{80}' {
      assert IsTokenChar(p[i]);
    }
  }

  /** A canonical name is the canonical form of exactly the texts that are equal to it up to case. */
  lemma CanonIsSameToken(p: string, k: string)
    requires IsToken(k) && Canon(k) == k
    ensures Canon(p) == k <==> SameToken(p, k)
  {
    if Canon(p) == k {
      NamesTheSame(p, k);
    } else if SameToken(p, k) {
      CanonOfSame(p, k, true);
      forall i | 0 <= i < |p| ensures IsTokenChar(p[i]) {
        LettersOfTokens(p[i], k[i]);
      }
    }
  }

  lemma LettersOfTokens(c: char, d: char)
    requires Lower(c) == Lower(d) && IsTokenChar(d)
    ensures IsTokenChar(c)
  {
  }

  /** The name p means the field k: up to case, and literally if k is no token. */
  ghost predicate Means(p: string, k: string) {
    if IsToken(k) then SameToken(p, k) else p == k
  }

  lemma LowerUpper(c: char)
    ensures Upper(Upper(c)) == Upper(c) && Lower(Lower(c)) == Lower(c)
    ensures IsTokenChar(Upper(c)) == IsTokenChar(Lower(c)) == IsTokenChar(c)
    ensures (Upper(c) == '-') == (Lower(c) == '-') == (c == '-')
  {
  }

  lemma {:induction false} CanonTwice(s: string, upper: bool)
    ensures CanonFrom(CanonFrom(s, upper), upper) == CanonFrom(s, upper)
    ensures |CanonFrom(s, upper)| == |s|
    ensures forall i :: 0 <= i < |s| ==> IsTokenChar(CanonFrom(s, upper)[i]) == IsTokenChar(s[i])
  {
    if s != "" {
      LowerUpper(s[0]);
      CanonTwice(s[1..], s[0] == '-');
      assert CanonFrom(s, upper)[1..] == CanonFrom(s[1..], s[0] == '-');
    }
  }

  /** For every key, canonical or not: the canonical forms are the canonical keys, and each has its own names. */
  lemma CanonMeans(p: string, k: string)
    ensures Canon(p) == k <==> Canon(k) == k && Means(p, k)
  {
    CanonTwice(p, true);
    if IsToken(k) && Canon(k) == k {
      CanonIsSameToken(p, k);
    }
  }

  /** Connection names the field k by something else than the literal "close". */
  ghost predicate IsNamed(h: Header, k: string) {
    CONNECTION in h && exists a, v :: a in h[CONNECTION] && v in Values(a) && Means(v, k) && v != CLOSE
  }

  /**
   A field survives, with its values, exactly when it is not one of the nine and
   Connection names it at most by the literal "close"; a field that was stored
   under a name that is not canonical survives whatever Connection names.
   */
  lemma HopFreeIsExact(h: Header, k: string)
    ensures k in HopFree(h) <==> k in h && k !in HOP_FIELDS && !(Canon(k) == k && IsNamed(h, k))
    ensures k in HopFree(h) ==> HopFree(h)[k] == h[k]
  {
    forall v: string ensures Canon(v) == k <==> Canon(k) == k && Means(v, k) {
      CanonMeans(v, k);
    }
    if CONNECTION in h {
      assert k in Named(h[CONNECTION]) <==> Canon(k) == k && IsNamed(h, k);
    }
  }

  lemma ShortPairs()
    ensures SameToken("connection", "Connection") && SameToken("keep-alive", "Keep-Alive")
    ensures SameToken("te", "Te") && SameToken("trailer", "Trailer") && SameToken("upgrade", "Upgrade")
  {
  }

  lemma ProxyPairs()
    ensures SameToken("proxy-authenticate", "Proxy-Authenticate")
    ensures SameToken("proxy-authorization", "Proxy-Authorization")
  {
  }

  lemma OtherPairs()
    ensures SameToken("proxy-connection", "Proxy-Connection")
    ensures SameToken("transfer-encoding", "Transfer-Encoding")
  {
  }

  /** A canonical key that survives has not the name under which one of the nine is stored. */
  lemma IsNot(k: string, name: string, stored: string)
    requires Canon(k) == k && k != stored
    requires SameToken(name, stored) && CasedFrom(stored, 0) && stored != ""
    ensures !SameToken(k, name)
  {
    if SameToken(k, name) {
      CasedIsCanonical(stored);
      CasedRest(stored, 0);
      SameTokenEquivalence(k, name, stored);
      CanonIsSameToken(k, stored);
      assert false;
    }
  }

  ghost predicate NoShortName(k: string) {
    && !SameToken(k, "connection") && !SameToken(k, "keep-alive") && !SameToken(k, "te")
    && !SameToken(k, "trailer") && !SameToken(k, "upgrade")
  }

  ghost predicate NoLongName(k: string) {
    && !SameToken(k, "proxy-authenticate") && !SameToken(k, "proxy-authorization")
    && !SameToken(k, "proxy-connection") && !SameToken(k, "transfer-encoding")
  }

  /** No canonical field of the header has one of the nine names, in whatever case. */
  ghost predicate NoHopField(h: Header) {
    forall k :: k in h && Canon(k) == k ==> NoShortName(k) && NoLongName(k)
  }

  lemma NotShort(k: string)
    requires Canon(k) == k && k !in HOP_FIELDS
    ensures NoShortName(k)
  {
    ShortPairs();
    ShortNames();
    IsNot(k, "connection", "Connection");
    IsNot(k, "keep-alive", "Keep-Alive");
    IsNot(k, "te", "Te");
    IsNot(k, "trailer", "Trailer");
    IsNot(k, "upgrade", "Upgrade");
  }

  lemma NotLong(k: string)
    requires Canon(k) == k && k !in HOP_FIELDS
    ensures NoLongName(k)
  {
    ProxyPairs();
    OtherPairs();
    ProxyNames();
    TransferNames();
    IsNot(k, "proxy-authenticate", "Proxy-Authenticate");
    IsNot(k, "proxy-authorization", "Proxy-Authorization");
    IsNot(k, "proxy-connection", "Proxy-Connection");
    IsNot(k, "transfer-encoding", "Transfer-Encoding");
  }

  lemma NoHopFieldIsLeft(h: Header)
    ensures NoHopField(HopFree(h))
  {
    forall k | k in HopFree(h) && Canon(k) == k ensures NoShortName(k) && NoLongName(k) {
      NotShort(k);
      NotLong(k);
    }
  }

  /**
   Of the fields that Connection names as headerValuesContainsToken reads it,
   besides Close and the nine, exactly those survive that are stored under a name
   that is not canonical.
   */
  lemma NamedFieldsAreGone(h: Header, k: string)
    requires IsToken(k) && k != "Close" && CONNECTION in h && ListContains(h[CONNECTION], k)
    ensures k in HopFree(h) <==> k in h && k !in HOP_FIELDS && Canon(k) != k
  {
    HopFreeIsExact(h, k);
    if Canon(k) == k {
      var a, v := NamedByWalker(h[CONNECTION], k);
      if v == CLOSE {
        CloseMeansClose(k);
      }
      assert Means(v, k);
    }
  }

  lemma NamedByWalker(list: seq<string>, k: string) returns (a: string, v: string)
    requires k != "" && ListContains(list, k)
    ensures a in list && v in Values(a) && SameToken(v, k)
  {
    var i :| 0 <= i < |list| && ContainsToken(list[i], k);
    a := list[i];
    WalkersAgree(a, k);
    var j :| 0 <= j < |Values(a)| && SameToken(Values(a)[j], k);
    v := Values(a)[j];
  }

  lemma CloseMeansClose(k: string)
    requires IsToken(k) && Canon(k) == k && SameToken(CLOSE, k)
    ensures k == "Close"
  {
    CanonIsSameToken(CLOSE, k);
    CanonOfClose();
  }

  lemma CanonOfClose()
    ensures Canon(CLOSE) == "Close"
  {
    CasedIsCanonical("Close");
    assert CasedFrom("Close", 0);
    CanonOfSame("close", "Close", true);
  }
}
