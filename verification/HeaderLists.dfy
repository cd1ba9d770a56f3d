/** Comma-separated header values (httpx/proto.go:158-202, httpx/httplex.go:125-166). */
module HeaderLists {
  import opened Bytes
  import opened Lex

  /** The next value of a list, and the text behind its comma. */
  function ReadHeaderValue(s: string): (r: (string, string))
    ensures s != "" ==> |r.1| < |s|
  {
    match IndexOf(s, ',')
    case Some(i) => (Trim(s[..i]), s[i + 1..])
    case None => (Trim(s), "")
  }

  /** The values of a list as the loops over readHeaderValue see them. */
  function Values(s: string): seq<string>
    decreases |s|
  {
    if s == "" then []
    else var (v, tail) := ReadHeaderValue(s); [v] + Values(tail)
  }

  /** headerValueContainsToken, which walks the same list in its own way. */
  ghost predicate ContainsToken(s: string, token: string)
    decreases |s|
  {
    var v := Trim(s);
    match IndexOf(v, ',')
    case Some(i) => SameToken(Trim(v[..i]), token) || ContainsToken(v[i + 1..], token)
    case None => SameToken(v, token)
  }

  ghost predicate Has(values: seq<string>, token: string) {
    exists i :: 0 <= i < |values| && SameToken(values[i], token)
  }

  ghost predicate ListContains(list: seq<string>, token: string) {
    exists i :: 0 <= i < |list| && ContainsToken(list[i], token)
  }

  method HeaderValueContainsToken(s: string, token: string) returns (r: bool)
    ensures r == ContainsToken(s, token)
    decreases |s|
  {
    var v := TrimOWS(s);
    var comma := IndexOf(v, ',');
    if comma.Some? {
      var head := TrimOWS(v[..comma.value]);
      r := TokenEqual(head, token);
      if !r {
        r := HeaderValueContainsToken(v[comma.value + 1..], token);
      }
    } else {
      r := TokenEqual(v, token);
    }
  }

  method HeaderValuesContainsToken(list: seq<string>, token: string) returns (r: bool)
    ensures r == ListContains(list, token)
  {
    for i := 0 to |list|
      invariant forall k :: 0 <= k < i ==> !ContainsToken(list[k], token)
    {
      r := HeaderValueContainsToken(list[i], token);
      if r {
        return;
      }
    }
    r := false;
  }

  lemma HasSplit(v: string, values: seq<string>, token: string)
    ensures Has([v] + values, token) <==> SameToken(v, token) || Has(values, token)
  {
    var all := [v] + values;
    assert all[0] == v && forall i :: 0 <= i < |values| ==> all[i + 1] == values[i];
  }

  lemma ContainsTokenOfTrim(s: string, s': string, token: string)
    requires Trim(s) == Trim(s')
    ensures ContainsToken(s, token) == ContainsToken(s', token)
  {
  }

  /** One step of both walkers. */
  lemma OneStep(s: string, token: string)
    requires s != ""
    ensures var (v, tail) := ReadHeaderValue(s);
            if IndexOf(Trim(s), ',').Some? then
              ContainsToken(s, token) <==> SameToken(v, token) || ContainsToken(tail, token)
            else
              tail == "" && Values(tail) == [] && (ContainsToken(s, token) <==> SameToken(v, token))
  {
    ReadTrimmed(s);
    WalkerStep(s, IndexOf(Trim(s), ','), token);
    match IndexOf(Trim(s), ',')
    case None => assert Values("") == [];
    case Some(i) => ContainsTokenOfTrim(Trim(s)[i + 1..], ReadHeaderValue(s).1, token);
  }

  lemma WalkerStep(s: string, comma: Option<nat>, token: string)
    requires comma == IndexOf(Trim(s), ',')
    ensures ContainsToken(s, token)
       <==> match comma
            case Some(i) => SameToken(Trim(Trim(s)[..i]), token) || ContainsToken(Trim(s)[i + 1..], token)
            case None => SameToken(Trim(s), token)
  {
  }

  /** The two walkers agree on every non-empty token. */
  lemma {:induction false} WalkersAgree(s: string, token: string)
    requires token != ""
    ensures ContainsToken(s, token) <==> Has(Values(s), token)
    decreases |s|
  {
    if s != "" {
      var (v, tail) := ReadHeaderValue(s);
      HasSplit(v, Values(tail), token);
      OneStep(s, token);
      if IndexOf(Trim(s), ',').Some? {
        WalkersAgree(tail, token);
      }
    }
  }

  /** Trimming the list first does not change its first value, nor what is behind it up to trimming. */
  lemma ReadTrimmed(s: string)
    ensures var (v, tail) := ReadHeaderValue(s);
            var t := Trim(s);
            match IndexOf(t, ',')
            case None => v == t && tail == ""
            case Some(i) => v == Trim(t[..i]) && Trim(tail) == Trim(t[i + 1..])
  {
    var a, b := TrimKeepsMiddle(s);
    IndexOfIsFirst(Trim(s), ',');
    ReadMiddle(a, Trim(s), b, IndexOf(Trim(s), ','));
  }

  lemma ReadMiddle(a: string, t: string, b: string, comma: Option<nat>)
    requires OnlyOWS(a) && OnlyOWS(b)
    requires comma.None? ==> ',' !in t
    requires comma.Some? ==> comma.value < |t| && t[comma.value] == ',' && ',' !in t[..comma.value]
    ensures var (v, tail) := ReadHeaderValue(a + t + b);
            match comma
            case None => v == Trim(a + t + b) && tail == ""
            case Some(i) => v == Trim(t[..i]) && Trim(tail) == Trim(t[i + 1..])
  {
    match comma
    case None => ReadWithout(a, t, b);
    case Some(i) => ReadBehind(a, t, b, i);
  }

  lemma ReadWithout(a: string, t: string, b: string)
    requires OnlyOWS(a) && OnlyOWS(b) && ',' !in t
    ensures ReadHeaderValue(a + t + b) == (Trim(a + t + b), "")
  {
    IndexOfNone(a + t + b, ',');
  }

  lemma ReadBehind(a: string, t: string, b: string, i: nat)
    requires OnlyOWS(a) && OnlyOWS(b) && i < |t| && t[i] == ',' && ',' !in t[..i]
    ensures ReadHeaderValue(a + t + b) == (Trim(t[..i]), t[i + 1..] + b)
    ensures Trim(t[i + 1..] + b) == Trim(t[i + 1..])
  {
    SplitMiddle(a, t, b, i);
    ReadAt(a + t[..i], t[i + 1..] + b);
    TrimIgnores(a, t[..i], "");
    TrimIgnores("", t[i + 1..], b);
  }

  lemma SplitMiddle(a: string, t: string, b: string, i: nat)
    requires i < |t| && t[i] == ','
    ensures a + t + b == a + t[..i] + [','] + (t[i + 1..] + b)
  {
  }

  lemma ReadAt(x: string, y: string)
    requires ',' !in x
    ensures ReadHeaderValue(x + [','] + y) == (Trim(x), y)
  {
    IndexOfFirst(x, ',', y);
    assert (x + [','] + y)[..|x|] == x && (x + [','] + y)[|x| + 1..] == y;
  }

  // ----- removal -----

  ghost predicate AnySame(tokens: seq<string>, s: string) {
    exists i :: 0 <= i < |tokens| && SameToken(tokens[i], s)
  }

  ghost function Kept(values: seq<string>, tokens: seq<string>): seq<string> {
    if values == [] then []
    else (if AnySame(tokens, values[0]) then [] else [values[0]]) + Kept(values[1..], tokens)
  }

  /** The values that are equal to no token stay, each as often as it was there and in the same order. */
  lemma {:induction false} KeptIsFilter(a: seq<string>, v: string, b: seq<string>, tokens: seq<string>)
    ensures Kept([], tokens) == []
    ensures Kept(a + [v] + b, tokens)
         == Kept(a, tokens)
            + (if exists i :: 0 <= i < |tokens| && SameToken(tokens[i], v) then [] else [v])
            + Kept(b, tokens)
  {
    if a == [] {
      assert a + [v] + b == [v] + b && ([v] + b)[1..] == b;
    } else {
      assert (a + [v] + b)[0] == a[0] && (a + [v] + b)[1..] == a[1..] + [v] + b;
      KeptIsFilter(a[1..], v, b, tokens);
    }
  }

  /** What is left of one list. */
  ghost function Left(v: string, tokens: seq<string>): seq<string> {
    if Kept(Values(v), tokens) == [] then [] else [Join(Kept(Values(v), tokens))]
  }

  lemma RemovedFront(v: string, b: seq<string>, tokens: seq<string>)
    ensures Removed([v] + b, tokens) == Left(v, tokens) + Removed(b, tokens)
  {
    assert ([v] + b)[1..] == b;
  }

  /** And so it is for the lists: each is left with its values on its own, in its place. */
  lemma {:induction false} RemovedIsFilter(a: seq<string>, b: seq<string>, v: string, tokens: seq<string>)
    ensures Removed([], tokens) == [] && Removed([v], tokens) == Left(v, tokens)
    ensures Removed(a + b, tokens) == Removed(a, tokens) + Removed(b, tokens)
  {
    RemovedFront(v, [], tokens);
    assert [v] + [] == [v] && Left(v, tokens) + [] == Left(v, tokens);
    if a == [] {
      assert a + b == b && [] + Removed(b, tokens) == Removed(b, tokens);
    } else {
      RemovedIsFilter(a[1..], b, v, tokens);
      FrontOfBoth(a, b, tokens);
      Regroup(Left(a[0], tokens), Removed(a[1..], tokens), Removed(b, tokens));
    }
  }

  lemma FrontOfBoth(a: seq<string>, b: seq<string>, tokens: seq<string>)
    requires a != []
    ensures Removed(a, tokens) == Left(a[0], tokens) + Removed(a[1..], tokens)
    ensures Removed(a + b, tokens) == Left(a[0], tokens) + Removed(a[1..] + b, tokens)
  {
    RemovedFront(a[0], a[1..], tokens);
    RemovedFront(a[0], a[1..] + b, tokens);
    assert a == [a[0]] + a[1..] && a + b == [a[0]] + (a[1..] + b);
  }

  lemma Regroup(a: seq<string>, b: seq<string>, c: seq<string>)
    ensures a + (b + c) == a + b + c
  {
  }

  /** strings.Join(values, ", "). */
  function Join(values: seq<string>): string {
    if values == [] then ""
    else if |values| == 1 then values[0]
    else values[0] + ([','] + (" " + Join(values[1..])))
  }

  ghost function Removed(list: seq<string>, tokens: seq<string>): seq<string> {
    if list == [] then []
    else
      var kept := Kept(Values(list[0]), tokens);
      (if kept == [] then [] else [Join(kept)]) + Removed(list[1..], tokens)
  }

  method HeaderValuesRemoveTokens(values: seq<string>, tokens: seq<string>) returns (result: seq<string>)
    ensures result == Removed(values, tokens)
  {
    result := [];
    for i := 0 to |values|
      invariant result + Removed(values[i..], tokens) == Removed(values, tokens)
    {
      var item := RemoveFrom(values[i], tokens);
      RemoveOne(result, values, i, tokens);
      if item != [] {
        result := result + [Join(item)];
      }
    }
    assert result + [] == result;
  }

  lemma RemoveOne(result: seq<string>, values: seq<string>, i: nat, tokens: seq<string>)
    requires i < |values|
    ensures var kept := Kept(Values(values[i]), tokens);
            result + Removed(values[i..], tokens)
            == (if kept == [] then result else result + [Join(kept)]) + Removed(values[i + 1..], tokens)
  {
    assert values[i..][1..] == values[i + 1..];
  }

  /** The loop over one list. */
  method RemoveFrom(value: string, tokens: seq<string>) returns (item: seq<string>)
    ensures item == Kept(Values(value), tokens)
  {
    item := [];
    var v := value;
    while v != ""
      invariant item + Kept(Values(v), tokens) == Kept(Values(value), tokens)
      decreases |v|
    {
      var (s, tail) := ReadHeaderValue(v);
      KeepOne(item, s, Values(tail), tokens);
      v := tail;
      var found := IsOneOf(s, tokens);
      if found {
        continue;
      }
      item := item + [s];
    }
  }

  lemma KeepOne(item: seq<string>, s: string, values: seq<string>, tokens: seq<string>)
    ensures item + Kept([s] + values, tokens)
         == (if AnySame(tokens, s) then item else item + [s]) + Kept(values, tokens)
  {
    assert ([s] + values)[1..] == values;
  }

  method IsOneOf(s: string, tokens: seq<string>) returns (r: bool)
    ensures r == AnySame(tokens, s)
  {
    for i := 0 to |tokens|
      invariant forall k :: 0 <= k < i ==> !SameToken(tokens[k], s)
    {
      var same := TokenEqual(tokens[i], s);
      if same {
        return true;
      }
    }
    return false;
  }

  predicate Pieces(values: seq<string>) {
    forall i :: 0 <= i < |values| ==> Trimmed(values[i]) && ',' !in values[i]
  }

  lemma {:induction false} ValuesArePieces(s: string)
    ensures Pieces(Values(s))
    decreases |s|
  {
    if s != "" {
      var (v, tail) := ReadHeaderValue(s);
      ValueIsPiece(s);
      ValuesArePieces(tail);
      assert Values(s) == [v] + Values(tail);
    }
  }

  lemma ValueIsPiece(s: string)
    ensures Trimmed(ReadHeaderValue(s).0) && ',' !in ReadHeaderValue(s).0
  {
    IndexOfIsFirst(s, ',');
    var raw := if IndexOf(s, ',').Some? then s[..IndexOf(s, ',').value] else s;
    var a, b := TrimKeepsMiddle(raw);
    assert ',' !in raw;
  }

  lemma {:induction false} KeptPieces(values: seq<string>, tokens: seq<string>)
    requires Pieces(values)
    ensures Pieces(Kept(values, tokens))
  {
    if values != [] {
      KeptPieces(values[1..], tokens);
    }
  }

  /** A joined list has the values that were joined; only a lone empty value leaves no trace. */
  lemma {:induction false} ValuesOfJoin(values: seq<string>)
    requires Pieces(values) && values != []
    ensures Values(" " + Join(values)) == values
    ensures Values(Join(values)) == if values == [""] then [] else values
  {
    if |values| == 1 {
      assert values == [values[0]];
      JoinedOne(values[0]);
    } else {
      ValuesOfJoin(values[1..]);
      assert values == [values[0]] + values[1..];
      JoinedMore(values[0], " " + Join(values[1..]));
    }
  }

  lemma JoinedOne(v: string)
    requires Trimmed(v) && ',' !in v
    ensures Values(" " + v) == [v]
    ensures Values(v) == if v == "" then [] else [v]
  {
    TrimOfTrimmed(v);
    OnlyValue(v);
    OnlyValue(" " + v);
  }

  lemma JoinedMore(v: string, rest: string)
    requires Trimmed(v) && ',' !in v
    ensures Values(v + ([','] + rest)) == [v] + Values(rest)
    ensures Values(" " + (v + ([','] + rest))) == [v] + Values(rest)
  {
    TrimOfTrimmed(v);
    FirstValue(v, rest);
    FirstValue(" " + v, rest);
    Associate(" ", v, [','] + rest);
  }

  lemma Associate(a: string, b: string, c: string)
    ensures a + (b + c) == (a + b) + c
  {
  }

  lemma OnlyValue(v: string)
    requires ',' !in v
    ensures Values(v) == if v == "" then [] else [Trim(v)]
  {
    IndexOfNone(v, ',');
    assert Values("") == [];
  }

  lemma FirstValue(v: string, rest: string)
    requires ',' !in v
    ensures Values(v + ([','] + rest)) == [Trim(v)] + Values(rest)
  {
    var s := v + ([','] + rest);
    assert s == v + [','] + rest;
    IndexOfFirst(v, ',', rest);
    assert s[..|v|] == v && s[|v| + 1..] == rest;
  }

  lemma {:induction false} KeptHas(values: seq<string>, tokens: seq<string>, token: string)
    ensures Has(Kept(values, tokens), token) <==> Has(values, token) && !AnySame(tokens, token)
  {
    if values != [] {
      var v, rest := values[0], Kept(values[1..], tokens);
      KeptHas(values[1..], tokens, token);
      HasSplit(v, rest, token);
      HasSplit(v, values[1..], token);
      assert values == [v] + values[1..];
      assert [] + rest == rest;
      if SameToken(v, token) {
        SameForAll(tokens, v, token);
      }
    }
  }

  lemma SameForAll(tokens: seq<string>, v: string, token: string)
    requires SameToken(v, token)
    ensures AnySame(tokens, v) <==> AnySame(tokens, token)
  {
    forall i | 0 <= i < |tokens| ensures SameToken(tokens[i], v) <==> SameToken(tokens[i], token) {
      SameTokenEquivalence(tokens[i], v, token);
      SameTokenEquivalence(v, token, token);
      SameTokenEquivalence(tokens[i], token, v);
    }
  }

  lemma RemovedFromOne(v: string, tokens: seq<string>, token: string)
    requires token != ""
    ensures var kept := Kept(Values(v), tokens);
            var stays := ContainsToken(v, token) && !AnySame(tokens, token);
            if kept == [] then !stays else ContainsToken(Join(kept), token) <==> stays
  {
    var kept := Kept(Values(v), tokens);
    WalkersAgree(v, token);
    KeptHas(Values(v), tokens, token);
    if kept != [] {
      WalkersAgree(Join(kept), token);
      ValuesArePieces(v);
      KeptPieces(Values(v), tokens);
      ValuesOfJoin(kept);
    }
  }

  /**
   Removal is exact: afterwards a non-empty token is found exactly if it was
   found before and is not equal, up to case, to one of the removed tokens.
   */
  lemma {:induction false} RemovalIsExact(list: seq<string>, tokens: seq<string>, token: string)
    requires token != ""
    ensures ListContains(Removed(list, tokens), token) <==> ListContains(list, token) && !AnySame(tokens, token)
  {
    if list != [] {
      var kept, rest := Kept(Values(list[0]), tokens), Removed(list[1..], tokens);
      RemovedFromOne(list[0], tokens, token);
      RemovalIsExact(list[1..], tokens, token);
      ListSplit(list[0], list[1..], token);
      assert list == [list[0]] + list[1..];
      if kept != [] {
        ListSplit(Join(kept), rest, token);
      } else {
        assert [] + rest == rest;
      }
    }
  }

  lemma ListSplit(v: string, list: seq<string>, token: string)
    ensures ListContains([v] + list, token) <==> ContainsToken(v, token) || ListContains(list, token)
  {
    var all := [v] + list;
    assert all[0] == v && forall i :: 0 <= i < |list| ==> all[i + 1] == list[i];
  }

  // ----- the empty token -----

  /** The list ends where another value could begin. */
  predicate EndsOpen(s: string) {
    s == "" || s[|s| - 1] == ','
  }

  /** Trimming keeps the commas, and reading a value the end. */
  lemma OpenTail(s: string)
    requires s != ""
    ensures IndexOf(Trim(s), ',').Some? <==> ',' in s
    ensures EndsOpen(s) <==> ',' in s && EndsOpen(ReadHeaderValue(s).1)
  {
    var a, b := TrimKeepsMiddle(s);
    assert ',' !in a && ',' !in b;
    IndexOfIsFirst(Trim(s), ',');
    IndexOfIsFirst(s, ',');
  }

  /** The recursive walker also finds an empty value at an open end, where the loop sees none. */
  lemma {:induction false} WalkersOnEmpty(s: string)
    ensures ContainsToken(s, "") <==> Has(Values(s), "") || EndsOpen(s)
    decreases |s|
  {
    if s != "" {
      var (v, tail) := ReadHeaderValue(s);
      HasSplit(v, Values(tail), "");
      OpenTail(s);
      OneStep(s, "");
      if ',' in s {
        WalkersOnEmpty(tail);
      }
    }
  }

  lemma {:induction false} JoinIsNotOpen(values: seq<string>)
    requires Pieces(values) && values != [] && values != [""]
    ensures !EndsOpen(Join(values))
  {
    if |values| == 1 {
      assert values == [values[0]];
    } else if values[1..] != [""] {
      JoinIsNotOpen(values[1..]);
    }
  }

  lemma EmptyFromOne(v: string, tokens: seq<string>)
    ensures var (kept, stays) := (Kept(Values(v), tokens), Has(Values(v), "") && !AnySame(tokens, ""));
            if kept == [] then !stays else ContainsToken(Join(kept), "") <==> stays
  {
    var kept := Kept(Values(v), tokens);
    KeptHas(Values(v), tokens, "");
    if kept != [] {
      WalkersOnEmpty(Join(kept));
      ValuesArePieces(v);
      KeptPieces(Values(v), tokens);
      ValuesOfJoin(kept);
      if kept == [""] {
        assert SameToken(kept[0], "");
      } else {
        JoinIsNotOpen(kept);
      }
    }
  }

  /** The loop over readHeaderValue sees an empty value in one of the lists. */
  ghost predicate ShowsEmpty(list: seq<string>) {
    exists i :: 0 <= i < |list| && Has(Values(list[i]), "")
  }

  predicate SomeOpen(list: seq<string>) {
    exists i :: 0 <= i < |list| && EndsOpen(list[i])
  }

  lemma {:induction false} EmptyAfterRemoval(list: seq<string>, tokens: seq<string>)
    ensures ListContains(Removed(list, tokens), "") <==> ShowsEmpty(list) && !AnySame(tokens, "")
  {
    if list != [] {
      var kept, rest := Kept(Values(list[0]), tokens), Removed(list[1..], tokens);
      EmptyFromOne(list[0], tokens);
      EmptyAfterRemoval(list[1..], tokens);
      ShowsSplit(list);
      if kept != [] {
        ListSplit(Join(kept), rest, "");
      } else {
        assert [] + rest == rest;
      }
    }
  }

  lemma ShowsSplit(list: seq<string>)
    requires list != []
    ensures ShowsEmpty(list) <==> Has(Values(list[0]), "") || ShowsEmpty(list[1..])
  {
    assert forall i :: 1 <= i < |list| ==> list[i] == list[1..][i - 1];
    assert forall i :: 0 <= i < |list| - 1 ==> list[1..][i] == list[i + 1];
  }

  lemma EmptyBeforeRemoval(list: seq<string>)
    ensures ListContains(list, "") <==> ShowsEmpty(list) || SomeOpen(list)
  {
    forall i | 0 <= i < |list| ensures ContainsToken(list[i], "") <==> Has(Values(list[i]), "") || EndsOpen(list[i]) {
      WalkersOnEmpty(list[i]);
    }
  }

  /**
   For the empty token removal is exact exactly if it is itself removed, or the
   loop sees it somewhere, or no list is empty or ends with a comma.
   */
  lemma EmptyTokenIsExact(list: seq<string>, tokens: seq<string>)
    ensures (ListContains(Removed(list, tokens), "") <==> ListContains(list, "") && !AnySame(tokens, ""))
       <==> AnySame(tokens, "") || ShowsEmpty(list) || !SomeOpen(list)
  {
    EmptyAfterRemoval(list, tokens);
    EmptyBeforeRemoval(list);
  }

  /** Removing nothing from "a," loses the empty value. */
  lemma EmptyTokenIsLost()
    ensures ListContains(["a,"], "") && !ListContains(Removed(["a,"], []), "")
  {
    ListOfA("");
    assert ["a,"][0] == "a,";
    assert Kept(["a"], []) == ["a"] + Kept([], []);
    assert ["a,"][1..] == [];
    assert Removed(["a,"], []) == ["a"];
    IndexOfNone("a", ',');
    TrimOfTrimmed("a");
  }

  lemma ListOfA(rest: string)
    requires rest == ""
    ensures ContainsToken("a,", "") && Values("a,") == ["a"]
  {
    var s := "a,";
    assert s == "a" + [','] + rest;
    IndexOfFirst("a", ',', rest);
    TrimOfTrimmed("a");
    TrimOfTrimmed(s);
    assert s[..1] == "a" && s[2..] == rest;
    assert ContainsToken(rest, "");
    assert Values(rest) == [];
  }
}
