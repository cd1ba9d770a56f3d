/** Sorting and negotiating Accept and Accept-Encoding headers (httpx/accept.go). */
module Sorting {

  /** Irreflexive, transitive, and incomparability is transitive too. */
  ghost predicate StrictWeakOrder<T(!new)>(less: (T, T) -> bool) {
    && (forall x: T :: !less(x, x))
    && (forall x: T, y: T, z: T :: less(x, y) && less(y, z) ==> less(x, z))
    && (forall x: T, y: T, z: T :: !less(x, y) && !less(y, z) ==> !less(x, z))
  }

  ghost predicate SortedBy<T>(less: (T, T) -> bool, xs: seq<T>) {
    forall i, j :: 0 <= i < j < |xs| ==> !less(xs[j], xs[i])
  }

  /**
   sort.Sort: some sorted permutation. Callers see only this contract, so that
   the order of equivalent elements is open, as it is in the original.
   */
  method Sort<T(!new)>(xs: seq<T>, less: (T, T) -> bool) returns (ys: seq<T>)
    requires StrictWeakOrder(less)
    ensures SortedBy(less, ys) && multiset(ys) == multiset(xs)
  {
    ys := [];
    for i := 0 to |xs|
      invariant SortedBy(less, ys) && multiset(ys) == multiset(xs[..i])
    {
      assert xs[..i + 1] == xs[..i] + [xs[i]];
      ys := Insert(ys, xs[i], less);
    }
    assert xs[..|xs|] == xs;
  }

  method Insert<T(!new)>(ys: seq<T>, x: T, less: (T, T) -> bool) returns (zs: seq<T>)
    requires StrictWeakOrder(less) && SortedBy(less, ys)
    ensures SortedBy(less, zs) && multiset(zs) == multiset(ys) + multiset{x}
  {
    var k := 0;
    while k < |ys| && !less(x, ys[k])
      invariant k <= |ys| && forall i :: 0 <= i < k ==> !less(x, ys[i])
    {
      k := k + 1;
    }
    assert forall j :: k <= j < |ys| ==> !less(ys[j], x) by {
      if k < |ys| {
        forall j | k <= j < |ys| ensures !less(ys[j], x) {
          assert less(x, ys[k]) && !less(ys[j], ys[k]);
        }
      }
    }
    assert ys == ys[..k] + ys[k..];
    zs := ys[..k] + [x] + ys[k..];
  }

  /** Two sorted permutations under a total order are the same sequence. */
  lemma {:induction false} SortedOnce<T(!new)>(less: (T, T) -> bool, xs: seq<T>, ys: seq<T>)
    requires StrictWeakOrder(less) && forall x: T, y: T :: x == y || less(x, y) || less(y, x)
    requires SortedBy(less, xs) && SortedBy(less, ys) && multiset(xs) == multiset(ys)
    ensures xs == ys
  {
    SamePermutation(xs, ys);
    if xs != [] {
      var i :| 0 <= i < |ys| && ys[i] == xs[0];
      var j :| 0 <= j < |xs| && xs[j] == ys[0];
      assert !less(xs[0], ys[0]) && !less(ys[0], xs[0]);
      DropHeads(xs, ys);
      SortedOnce(less, xs[1..], ys[1..]);
      assert xs == [xs[0]] + xs[1..] && ys == [ys[0]] + ys[1..];
    }
  }

  lemma SamePermutation<T>(xs: seq<T>, ys: seq<T>)
    requires multiset(xs) == multiset(ys)
    ensures |xs| == |ys| && (xs != [] ==> xs[0] in ys && ys[0] in xs)
  {
    assert |multiset(xs)| == |xs| && |multiset(ys)| == |ys|;
    if xs != [] {
      assert xs[0] in multiset(ys) && ys[0] in multiset(xs);
    }
  }

  lemma DropHeads<T>(xs: seq<T>, ys: seq<T>)
    requires xs != [] && ys != [] && xs[0] == ys[0] && multiset(xs) == multiset(ys)
    ensures multiset(xs[1..]) == multiset(ys[1..])
  {
    assert xs == [xs[0]] + xs[1..] && ys == [ys[0]] + ys[1..];
    assert multiset(xs[1..]) == multiset(xs) - multiset{xs[0]};
    assert multiset(ys[1..]) == multiset(ys) - multiset{xs[0]};
  }

  /** ys without the element at i. */
  function Without<T>(ys: seq<T>, i: nat): seq<T>
    requires i < |ys|
  {
    ys[..i] + ys[i + 1..]
  }

  lemma WithoutPermutes<T>(ys: seq<T>, i: nat)
    requires i < |ys|
    ensures multiset(ys) == multiset{ys[i]} + multiset(Without(ys, i))
    ensures multiset(Without(ys, i)) == multiset(ys) - multiset{ys[i]}
  {
    assert ys == ys[..i] + [ys[i]] + ys[i + 1..];
  }

  function Map<T, K>(f: T -> K, xs: seq<T>): (r: seq<K>)
    ensures |r| == |xs| && forall i :: 0 <= i < |xs| ==> r[i] == f(xs[i])
  {
    seq(|xs|, i requires 0 <= i < |xs| => f(xs[i]))
  }

  lemma MapWithout<T, K>(f: T -> K, ys: seq<T>, i: nat)
    requires i < |ys|
    ensures multiset(Map(f, ys)) == multiset{f(ys[i])} + multiset(Map(f, Without(ys, i)))
  {
    WithoutPermutes(Map(f, ys), i);
    assert Map(f, Without(ys, i)) == Without(Map(f, ys), i);
  }

  lemma {:induction false} MapPermutes<T, K>(f: T -> K, xs: seq<T>, ys: seq<T>)
    requires multiset(xs) == multiset(ys)
    ensures multiset(Map(f, xs)) == multiset(Map(f, ys))
    decreases |xs|
  {
    SamePermutation(xs, ys);
    if xs != [] {
      var i :| 0 <= i < |ys| && ys[i] == xs[0];
      WithoutPermutes(ys, i);
      WithoutPermutes(xs, 0);
      MapPermutes(f, Without(xs, 0), Without(ys, i));
      MapWithout(f, xs, 0);
      MapWithout(f, ys, i);
    }
  }
}

module Negotiation {
  import opened Bytes
  import opened Lex
  import opened Quotes
  import opened Media
  import opened AcceptHeaders
  import opened Sorting

  // ----- the order of items -----

  predicate ItemLess(a: Item, b: Item) {
    if a.q > b.q then true
    else if a.q < b.q then false
    else if a.typ == b.typ && a.sub == b.sub then |a.params| + |a.extens| > |b.params| + |b.extens|
    else if a.typ != b.typ then MediaTypeLess(a.typ, b.typ)
    else MediaTypeLess(a.sub, b.sub)
  }

  /** What the order of items looks at. */
  datatype Rank = Rank(q: real, typ: string, sub: string, size: nat)

  function RankOf(item: Item): Rank {
    Rank(item.q, item.typ, item.sub, |item.params| + |item.extens|)
  }

  predicate RankLess(a: Rank, b: Rank) {
    || a.q > b.q
    || (a.q == b.q && (
      || MediaTypeLess(a.typ, b.typ)
      || (a.typ == b.typ && (MediaTypeLess(a.sub, b.sub) || (a.sub == b.sub && a.size > b.size)))))
  }

  lemma RankOrder(a: Rank, b: Rank, c: Rank)
    ensures !RankLess(a, a)
    ensures a == b || RankLess(a, b) || RankLess(b, a)
    ensures RankLess(a, b) && RankLess(b, c) ==> RankLess(a, c)
    ensures !(RankLess(a, b) && RankLess(b, a))
  {
    MediaTypeOrder(a.typ, b.typ, c.typ);
    MediaTypeOrder(a.sub, b.sub, c.sub);
  }

  /**
   Less compares the ranks lexicographically: the greater weight, the smaller type,
   the smaller subtype, and the greater number of parameters come first.
   */
  lemma ItemLessIsRankLess(a: Item, b: Item)
    ensures ItemLess(a, b) <==> RankLess(RankOf(a), RankOf(b))
    ensures ItemLess(a, b)
       <==> || a.q > b.q
            || (a.q == b.q && MediaTypeLess(a.typ, b.typ))
            || (a.q == b.q && a.typ == b.typ && MediaTypeLess(a.sub, b.sub))
            || (a.q == b.q && a.typ == b.typ && a.sub == b.sub
                && |a.params| + |a.extens| > |b.params| + |b.extens|)
  {
    MediaTypeOrder(a.typ, b.typ, a.typ);
    MediaTypeOrder(a.sub, b.sub, a.sub);
  }

  lemma RankLessIsTotal()
    ensures StrictWeakOrder(RankLess)
    ensures forall x: Rank, y: Rank :: x == y || RankLess(x, y) || RankLess(y, x)
  {
    forall x: Rank, y: Rank, z: Rank
      ensures !RankLess(x, x)
      ensures x == y || RankLess(x, y) || RankLess(y, x)
      ensures RankLess(x, y) && RankLess(y, z) ==> RankLess(x, z)
      ensures !RankLess(x, y) && !RankLess(y, z) ==> !RankLess(x, z)
    {
      RankOrder(x, y, z);
      RankOrder(x, z, y);
      RankOrder(z, y, x);
    }
  }

  /** AcceptItem's Less is a strict weak order, so that sort.Sort may be used with it. */
  lemma ItemLessIsStrictWeakOrder()
    ensures StrictWeakOrder(ItemLess)
  {
    RankLessIsTotal();
    forall x: Item, y: Item ensures ItemLess(x, y) <==> RankLess(RankOf(x), RankOf(y)) {
      ItemLessIsRankLess(x, y);
    }
  }

  /** Two items are equivalent for the sort exactly when they have the same rank. */
  lemma EquivalentItems(a: Item, b: Item)
    ensures !ItemLess(a, b) && !ItemLess(b, a) <==> RankOf(a) == RankOf(b)
  {
    ItemLessIsRankLess(a, b);
    ItemLessIsRankLess(b, a);
    RankOrder(RankOf(a), RankOf(b), RankOf(a));
  }

  lemma SortedRanks(xs: seq<Item>)
    requires SortedBy(ItemLess, xs)
    ensures SortedBy(RankLess, Map(RankOf, xs))
  {
    forall i, j | 0 <= i < j < |xs| ensures !RankLess(RankOf(xs[j]), RankOf(xs[i])) {
      ItemLessIsRankLess(xs[j], xs[i]);
    }
  }

  /** Whatever the sort does with equivalent items, the sequence of ranks comes out the same. */
  lemma SortFixesRanks(xs: seq<Item>, ys: seq<Item>)
    requires multiset(xs) == multiset(ys) && SortedBy(ItemLess, xs) && SortedBy(ItemLess, ys)
    ensures |xs| == |ys| && forall i :: 0 <= i < |xs| ==> RankOf(xs[i]) == RankOf(ys[i])
  {
    SortedRanks(xs);
    SortedRanks(ys);
    MapPermutes(RankOf, xs, ys);
    RankLessIsTotal();
    SortedOnce(RankLess, Map(RankOf, xs), Map(RankOf, ys));
    forall i | 0 <= i < |xs| ensures RankOf(xs[i]) == RankOf(ys[i]) {
      assert Map(RankOf, xs)[i] == Map(RankOf, ys)[i];
    }
  }

  // ----- parsing a header -----

  method ParseAcceptItem(d: Decimal, s: string) returns (item: Option<Item>)
    ensures item == ParseItem(d, s)
  {
    var r := ParseMediaRange(s);
    if r.None? {
      return None;
    }
    var i := FindItem(d, r.value);
    return Some(i);
  }

  /** The loop over the parameters of a range. */
  method FindItem(d: Decimal, r: Range) returns (item: Item)
    ensures item == ItemOf(d, r)
  {
    var Range(typ, sub, params) := r;
    for i := 0 to |params|
      invariant forall k :: 0 <= k < i ==> params[k].name != "q"
    {
      if params[i].name == "q" {
        ItemWithQ(d, r, i);
        return Item(typ, sub, d.parse(params[i].value), params[..i], params[i + 1..]);
      }
    }
    return Item(typ, sub, 1.0, params, []);
  }

  lemma ItemWithQ(d: Decimal, r: Range, i: nat)
    requires i < |r.params| && r.params[i].name == "q" && forall k :: 0 <= k < i ==> r.params[k].name != "q"
    ensures ItemOf(d, r) == Item(r.typ, r.sub, d.parse(r.params[i].value), r.params[..i], r.params[i + 1..])
  {
    assert IndexOfQ(r.params) == Some(i);
  }

  /** A list that was parsed, behind a list parsed before. */
  function Behind<T>(xs: seq<T>, r: (seq<T>, bool)): (seq<T>, bool) {
    (xs + r.0, r.1)
  }

  lemma BehindAll<T>(xs: seq<T>, x: T, r: (seq<T>, bool))
    ensures Behind(xs, ([x] + r.0, r.1)) == Behind(xs + [x], r)
    ensures Behind([], r) == r && forall b :: Behind(xs, ([], b)) == (xs, b)
  {
    assert xs + ([x] + r.0) == xs + [x] + r.0;
    assert [] + r.0 == r.0 && xs + [] == xs;
  }

  method ParseAccept(d: Decimal, s: string) returns (accept: seq<Item>, ok: bool)
    ensures ok == ParseItems(d, s).1
    ensures multiset(accept) == multiset(ParseItems(d, s).0)
    ensures if ok then SortedBy(ItemLess, accept) else accept == ParseItems(d, s).0
  {
    accept, ok := [], true;
    var head, tail := "", s;
    var item := None;
    ghost var dummy := Item("", "", 0.0, [], []);
    BehindAll([], dummy, ParseItems(d, s));
    while tail != ""
      invariant ParseItems(d, s) == Behind(accept, ParseItems(d, tail))
      decreases |tail|
    {
      head, tail := SplitTrimOWS(tail, ',');
      item := ParseAcceptItem(d, head);
      if item.None? {
        BehindAll(accept, dummy, ([], false));
        return accept, false;
      }
      BehindAll(accept, item.value, ParseItems(d, tail));
      accept := accept + [item.value];
    }
    BehindAll(accept, dummy, ([], true));
    ItemLessIsStrictWeakOrder();
    accept := Sort(accept, ItemLess);
  }

  // ----- negotiation -----

  predicate Matches(item: Item, typ: string) {
    match ParseType(typ)
    case None => false
    case Some(t) => Type(item.typ, item.sub).Contains(t)
  }

  /** The first offer that the item matches. */
  function FirstOffer(item: Item, types: seq<string>): Option<string> {
    if types == [] then None
    else if Matches(item, types[0]) then Some(types[0])
    else FirstOffer(item, types[1..])
  }

  function Choose(accept: seq<Item>, types: seq<string>): Option<string> {
    if accept == [] then None
    else if FirstOffer(accept[0], types).Some? then FirstOffer(accept[0], types)
    else Choose(accept[1..], types)
  }

  function Negotiated(accept: seq<Item>, types: seq<string>): string {
    if types == [] then ""
    else match Choose(accept, types)
      case Some(typ) => typ
      case None => types[0]
  }

  /** The rule for ranges: the wildcard type takes every offer, and the wildcard subtype every one of its type. */
  predicate Meets(item: Item, typ: string) {
    match ParseType(typ)
    case None => false
    case Some(t) => item.typ == "*" || (item.typ == t.typ && (item.sub == "*" || item.sub == t.sub))
  }

  ghost predicate NothingMeets(accept: seq<Item>, types: seq<string>) {
    forall j, l :: 0 <= j < |accept| && 0 <= l < |types| ==> !Meets(accept[j], types[l])
  }

  /** The item number i is the first that meets an offer, and the offer number k the first that it meets. */
  ghost predicate FirstMet(accept: seq<Item>, types: seq<string>, i: int, k: int) {
    && 0 <= i < |accept| && 0 <= k < |types| && Meets(accept[i], types[k])
    && (forall j, l :: 0 <= j < i && 0 <= l < |types| ==> !Meets(accept[j], types[l]))
    && (forall l :: 0 <= l < k ==> !Meets(accept[i], types[l]))
  }

  /** No item that meets an offer weighs more than the item number i. */
  ghost predicate Heaviest(accept: seq<Item>, types: seq<string>, i: int)
    requires 0 <= i < |accept|
  {
    forall j, l :: 0 <= j < |accept| && 0 <= l < |types| && Meets(accept[j], types[l]) ==> accept[j].q <= accept[i].q
  }

  /** An offer is met by the ranges that are written so, and by no others. */
  lemma MeetsExactly(item: Item, t: string, u: string)
    requires IsToken(t) && IsToken(u)
    ensures Meets(item, t + ['/'] + u)
       <==> item.typ == "*" || (item.typ == t && item.sub == "*") || (item.typ == t && item.sub == u)
  {
    TypeIsExact(t + ['/'] + u, t, u);
  }

  lemma {:induction false} FirstOfferIs(item: Item, types: seq<string>)
    ensures match FirstOffer(item, types)
            case Some(t) =>
              exists k :: 0 <= k < |types| && types[k] == t && Meets(item, t)
                          && forall l :: 0 <= l < k ==> !Meets(item, types[l])
            case None => forall l :: 0 <= l < |types| ==> !Meets(item, types[l])
  {
    if types != [] && !Matches(item, types[0]) {
      var rest := types[1..];
      FirstOfferIs(item, rest);
      assert forall l :: 1 <= l < |types| ==> types[l] == rest[l - 1];
      match FirstOffer(item, rest)
      case None =>
      case Some(t) =>
        var k :| 0 <= k < |rest| && rest[k] == t && forall l :: 0 <= l < k ==> !Meets(item, rest[l]);
        assert types[k + 1] == t && forall l :: 0 <= l < k + 1 ==> !Meets(item, types[l]);
    }
  }

  lemma {:induction false} ChoiceIsFirst(accept: seq<Item>, types: seq<string>)
    ensures match Choose(accept, types)
            case Some(t) => exists i, k :: FirstMet(accept, types, i, k) && types[k] == t
            case None => NothingMeets(accept, types)
  {
    if accept != [] {
      FirstOfferIs(accept[0], types);
      match FirstOffer(accept[0], types)
      case Some(t) =>
        var k :| 0 <= k < |types| && types[k] == t && Meets(accept[0], t)
                 && forall l :: 0 <= l < k ==> !Meets(accept[0], types[l]);
        assert FirstMet(accept, types, 0, k);
      case None =>
        ChoiceIsFirst(accept[1..], types);
        ChoiceMoves(accept, types);
    }
  }

  /** An item that meets nothing can be left out in front. */
  lemma ChoiceMoves(accept: seq<Item>, types: seq<string>)
    requires accept != [] && forall l :: 0 <= l < |types| ==> !Meets(accept[0], types[l])
    ensures NothingMeets(accept[1..], types) ==> NothingMeets(accept, types)
    ensures forall i, k :: FirstMet(accept[1..], types, i, k) ==> FirstMet(accept, types, i + 1, k)
  {
    var rest := accept[1..];
    assert forall j :: 1 <= j < |accept| ==> accept[j] == rest[j - 1];
    forall i, k | FirstMet(rest, types, i, k) ensures FirstMet(accept, types, i + 1, k) {
      assert accept[i + 1] == rest[i];
    }
  }

  /** On a sorted list the first item that meets an offer weighs as much as any that does. */
  lemma FirstIsHeaviest(accept: seq<Item>, types: seq<string>, i: int, k: int)
    requires SortedBy(ItemLess, accept) && FirstMet(accept, types, i, k)
    ensures Heaviest(accept, types, i)
  {
    forall j, l | 0 <= j < |accept| && 0 <= l < |types| && Meets(accept[j], types[l])
      ensures accept[j].q <= accept[i].q
    {
      assert j >= i;
      assert j > i ==> !ItemLess(accept[j], accept[i]);
    }
  }

  /**
   The answer is the first offer that the first item to meet any meets, and on a
   sorted list that item weighs at least as much as every item that meets an
   offer; the fallback is taken only if nothing is met.
   */
  lemma NegotiationIsOptimal(accept: seq<Item>, types: seq<string>)
    requires types != []
    ensures var r := Negotiated(accept, types);
            && r in types
            && if NothingMeets(accept, types) then r == types[0]
               else exists i, k :: FirstMet(accept, types, i, k) && r == types[k]
                                   && (SortedBy(ItemLess, accept) ==> Heaviest(accept, types, i))
  {
    ChoiceIsFirst(accept, types);
    if Choose(accept, types).Some? {
      var i, k :| FirstMet(accept, types, i, k) && types[k] == Choose(accept, types).value;
      if SortedBy(ItemLess, accept) {
        FirstIsHeaviest(accept, types, i, k);
      }
    }
  }

  method Negotiate(accept: seq<Item>, types: seq<string>) returns (r: string)
    ensures r == Negotiated(accept, types)
    ensures types == [] ==> r == ""
    ensures types != [] ==> r in types
    ensures types != [] ==>
              if NothingMeets(accept, types) then r == types[0]
              else exists i, k :: FirstMet(accept, types, i, k) && r == types[k]
                                  && (SortedBy(ItemLess, accept) ==> Heaviest(accept, types, i))
  {
    if types != [] {
      NegotiationIsOptimal(accept, types);
    }
    if |types| == 0 {
      return "";
    }
    for i := 0 to |accept|
      invariant Choose(accept, types) == Choose(accept[i..], types)
    {
      assert accept[i..][1..] == accept[i + 1..];
      for j := 0 to |types|
        invariant FirstOffer(accept[i], types) == FirstOffer(accept[i], types[j..])
      {
        assert types[j..][1..] == types[j + 1..];
        var t2 := ParseType(types[j]);
        if t2.None? {
          continue;
        }
        if Type(accept[i].typ, accept[i].sub).Contains(t2.value) {
          return types[j];
        }
      }
      assert types[|types|..] == [];
    }
    assert accept[|accept|..] == [];
    return types[0];
  }

  /** Items of the same type are matched by the same offers. */
  lemma {:induction false} ChooseByRank(xs: seq<Item>, ys: seq<Item>, types: seq<string>)
    requires |xs| == |ys| && forall i :: 0 <= i < |xs| ==> RankOf(xs[i]) == RankOf(ys[i])
    ensures Choose(xs, types) == Choose(ys, types)
  {
    if xs != [] {
      assert RankOf(xs[0]) == RankOf(ys[0]);
      SameOffer(xs[0], ys[0], types);
      forall i | 0 <= i < |xs| - 1 ensures RankOf(xs[1..][i]) == RankOf(ys[1..][i]) {
        assert RankOf(xs[i + 1]) == RankOf(ys[i + 1]);
      }
      ChooseByRank(xs[1..], ys[1..], types);
    }
  }

  lemma {:induction false} SameOffer(a: Item, b: Item, types: seq<string>)
    requires a.typ == b.typ && a.sub == b.sub
    ensures FirstOffer(a, types) == FirstOffer(b, types)
  {
    if types != [] {
      SameOffer(a, b, types[1..]);
    }
  }

  /** The answer depends on the items only, not on their order or on how the sort breaks ties. */
  lemma OrderDoesNotMatter(xs: seq<Item>, ys: seq<Item>, types: seq<string>)
    requires multiset(xs) == multiset(ys) && SortedBy(ItemLess, xs) && SortedBy(ItemLess, ys)
    ensures Negotiated(xs, types) == Negotiated(ys, types)
  {
    SortFixesRanks(xs, ys);
    ChooseByRank(xs, ys, types);
  }

  /** Two headers with the same items in any order get the same answer. */
  method NegotiateHeaders(d: Decimal, s1: string, s2: string, types: seq<string>) returns (r1: string, r2: string)
    requires ParseItems(d, s1).1 && ParseItems(d, s2).1
    requires multiset(ParseItems(d, s1).0) == multiset(ParseItems(d, s2).0)
    ensures r1 == r2
    ensures exists accept :: multiset(accept) == multiset(ParseItems(d, s1).0) && SortedBy(ItemLess, accept)
                             && r1 == Negotiated(accept, types)
  {
    var a1, ok1 := ParseAccept(d, s1);
    var a2, ok2 := ParseAccept(d, s2);
    r1 := Negotiate(a1, types);
    r2 := Negotiate(a2, types);
    OrderDoesNotMatter(a1, a2, types);
  }

  // ----- Accept-Encoding -----

  predicate EncodingLess(a: Encoding, b: Encoding) {
    a.q > b.q || (a.q == b.q && MediaTypeLess(a.coding, b.coding))
  }

  /** AcceptEncoding's Less is even a total order: the sort leaves no choice. */
  lemma EncodingLessIsTotal()
    ensures StrictWeakOrder(EncodingLess)
    ensures forall x: Encoding, y: Encoding :: x == y || EncodingLess(x, y) || EncodingLess(y, x)
  {
    forall x: Encoding, y: Encoding, z: Encoding
      ensures !EncodingLess(x, x)
      ensures x == y || EncodingLess(x, y) || EncodingLess(y, x)
      ensures EncodingLess(x, y) && EncodingLess(y, z) ==> EncodingLess(x, z)
      ensures !EncodingLess(x, y) && !EncodingLess(y, z) ==> !EncodingLess(x, z)
    {
      MediaTypeOrder(x.coding, y.coding, z.coding);
      MediaTypeOrder(x.coding, z.coding, y.coding);
      MediaTypeOrder(z.coding, y.coding, x.coding);
    }
  }

  lemma EncodingSortIsUnique(xs: seq<Encoding>, ys: seq<Encoding>)
    requires multiset(xs) == multiset(ys) && SortedBy(EncodingLess, xs) && SortedBy(EncodingLess, ys)
    ensures xs == ys
  {
    EncodingLessIsTotal();
    SortedOnce(EncodingLess, xs, ys);
  }

  method ParseAcceptEncodingItem(d: Decimal, s: string) returns (e: Option<Encoding>)
    ensures e == ParseEncoding(d, s)
  {
    var i := IndexOf(s, ';');
    if i.None? {
      e := Some(Encoding(s, 1.0));
    } else {
      var t := TrimOWS(s[i.value + 1..]);
      var p := ParseMediaParam(t);
      if p.None? || p.value.name != "q" {
        return None;
      }
      e := Some(Encoding(s[..i.value], d.parse(p.value.value)));
    }
    if !IsToken(e.value.coding) {
      return None;
    }
  }

  method ParseAcceptEncoding(d: Decimal, s: string) returns (accept: seq<Encoding>, ok: bool)
    ensures ok == ParseEncodings(d, s).1
    ensures multiset(accept) == multiset(ParseEncodings(d, s).0)
    ensures if ok then SortedBy(EncodingLess, accept) else accept == ParseEncodings(d, s).0
  {
    accept, ok := [], true;
    var head, tail := "", s;
    var e := None;
    ghost var dummy := Encoding("", 0.0);
    BehindAll([], dummy, ParseEncodings(d, s));
    while tail != ""
      invariant ParseEncodings(d, s) == Behind(accept, ParseEncodings(d, tail))
      decreases |tail|
    {
      head, tail := SplitTrimOWS(tail, ',');
      e := ParseAcceptEncodingItem(d, head);
      if e.None? {
        BehindAll(accept, dummy, ([], false));
        return accept, false;
      }
      BehindAll(accept, e.value, ParseEncodings(d, tail));
      accept := accept + [e.value];
    }
    BehindAll(accept, dummy, ([], true));
    EncodingLessIsTotal();
    accept := Sort(accept, EncodingLess);
  }

  predicate HeaviestCoding(accept: seq<Encoding>, codings: seq<string>, i: nat)
    requires i < |accept|
  {
    forall j :: 0 <= j < |accept| && accept[j].coding in codings ==> accept[j].q <= accept[i].q
  }

  /** The first coding of the header that is offered; on a sorted header one of the greatest weight. */
  method NegotiateEncoding(accept: seq<Encoding>, codings: seq<string>) returns (r: string)
    requires SortedBy(EncodingLess, accept)
    ensures if forall i :: 0 <= i < |accept| ==> accept[i].coding !in codings then r == ""
            else
              && r in codings
              && exists i :: 0 <= i < |accept| && accept[i].coding == r && HeaviestCoding(accept, codings, i)
  {
    for i := 0 to |accept|
      invariant forall k :: 0 <= k < i ==> accept[k].coding !in codings
    {
      for j := 0 to |codings|
        invariant forall k :: 0 <= k < j ==> codings[k] != accept[i].coding
      {
        if codings[j] == accept[i].coding {
          forall k | 0 <= k < |accept| && accept[k].coding in codings ensures accept[k].q <= accept[i].q {
            assert k >= i;
            assert k > i ==> !EncodingLess(accept[k], accept[i]);
          }
          return codings[j];
        }
      }
    }
    return "";
  }
}
