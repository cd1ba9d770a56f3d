/** Quoted strings and splitting around them (httpx/quote.go). */
module Quotes {
  import opened Bytes
  import opened Lex

  /** The letter that stands for c behind a backslash, when c has to be escaped. */
  function EscapeLetter(c: char): Option<char> {
    match c
    case '\\' => Some('\\')
    case '"' => Some('"')
    case '\n' => Some('n')
    case '\r' => Some('r')
    case '\t' => Some('t')
    case '\U{C}' => Some('f')
    case '\U{B}' => Some('v')
    case '\U{8}' => Some('b')
    case '\0' => Some('0')
    case _ => None
  }

  function EscapeChar(c: char): string {
    match EscapeLetter(c)
    case Some(l) => ['\\', l]
    case None => [c]
  }

  /** Exactly nine characters are escaped, each by a backslash and the letter below it. */
  lemma EscapeTable(c: char)
    ensures var (from, to) := ("\\\"\n\r\t\U{C}\U{B}\U{8}\0", "\\\"nrtfvb0");
            && (forall i :: 0 <= i < |from| ==> EscapeChar(from[i]) == ['\\', to[i]])
            && (c !in from ==> EscapeChar(c) == [c])
  {
  }

  /** Character by character escaping. */
  function Escape(s: string): string {
    if s == "" then "" else EscapeChar(s[0]) + Escape(s[1..])
  }

  function Quote(s: string): string {
    "\"" + Escape(s) + "\""
  }

  /** What a character behind a backslash stands for. */
  function UnescapeLetter(c: char): char {
    match c
    case 'n' => '\n'
    case 'r' => '\r'
    case 't' => '\t'
    case 'v' => '\U{B}'
    case 'f' => '\U{C}'
    case 'b' => '\U{8}'
    case '0' => '\0'
    case _ => c
  }

  /** Seven letters stand for something else behind a backslash, and every other character for itself. */
  lemma UnescapeTable(c: char)
    ensures var (from, to) := ("nrtvfb0", "\n\r\t\U{B}\U{C}\U{8}\0");
            && (forall i :: 0 <= i < |from| ==> UnescapeLetter(from[i]) == to[i])
            && (c !in from ==> UnescapeLetter(c) == c)
  {
  }

  function Prepend(c: char, r: Option<string>): Option<string> {
    match r
    case Some(s) => Some([c] + s)
    case None => None
  }

  /** The text between the quotes, unescaped; e says that a backslash was just read. */
  function Unescape(s: string, e: bool): Option<string> {
    if s == "" then (if e then None else Some(""))
    else if e then Prepend(UnescapeLetter(s[0]), Unescape(s[1..], false))
    else if s[0] == '\\' then Unescape(s[1..], true)
    else if s[0] == '"' then None
    else Prepend(s[0], Unescape(s[1..], false))
  }

  /** What stands at the front of a quoted text, and that it must not end behind a backslash or hold a bare quote. */
  lemma UnescapeMeans(c: char, t: string)
    ensures Unescape("\\" + [c] + t, false) == Prepend(UnescapeLetter(c), Unescape(t, false))
    ensures c != '\\' && c != '"' ==> Unescape([c] + t, false) == Prepend(c, Unescape(t, false))
    ensures Unescape("\"" + t, false) == None && Unescape("\\", false) == None && Unescape("", false) == Some("")
  {
    var s := "\\" + [c] + t;
    assert s[0] == '\\' && s[1..] == [c] + t && ([c] + t)[1..] == t;
    assert "\\"[1..] == "";
  }

  /** A token or a quoted string. */
  function ParseText(s: string): Option<string> {
    if IsToken(s) then Some(s)
    else if |s| < 2 || s[0] != '"' || s[|s| - 1] != '"' then None
    else Unescape(s[1..|s| - 1], false)
  }

  function FormatText(s: string): string {
    if IsToken(s) then s else Quote(s)
  }

  lemma {:induction false} UnescapeEscape(s: string)
    ensures Unescape(Escape(s), false) == Some(s)
  {
    if s != "" {
      UnescapeChar(s[0], Escape(s[1..]));
      UnescapeEscape(s[1..]);
      assert [s[0]] + s[1..] == s;
    }
  }

  lemma UnescapeChar(c: char, t: string)
    ensures Unescape(EscapeChar(c) + t, false) == Prepend(c, Unescape(t, false))
  {
    var s := EscapeChar(c) + t;
    match EscapeLetter(c)
    case None => assert s[1..] == t;
    case Some(l) =>
      assert s[0] == '\\' && s[1..] == [l] + t && ([l] + t)[1..] == t;
      assert UnescapeLetter(l) == c;
  }

  /** Quoting and parsing give every string back, and so does printing it as a header value. */
  lemma QuoteRoundTrip(s: string)
    ensures ParseText(Quote(s)) == Some(s)
    ensures ParseText(FormatText(s)) == Some(s)
  {
    var q := Quote(s);
    assert q[0] == '"' && q[1..|q| - 1] == Escape(s);
    UnescapeEscape(s);
  }

  /** A quote within an escaped text is always a quote behind a backslash. */
  lemma {:induction false} CutQuote(s: string, x: string)
    requires x <= Escape(s) && x != "" && x[|x| - 1] == '"'
    ensures Unescape(x[..|x| - 1], false) == None
  {
    var c, rest := EscapeChar(s[0]), Escape(s[1..]);
    var y := x[..|x| - 1];
    if |x| <= |c| {
      assert x == c[..|x|];
      assert |x| == 2 && y == ['\\'];
      assert Unescape(y, false) == Unescape(y[1..], true);
    } else {
      assert x == c + x[|c|..];
      CutQuote(s[1..], x[|c|..]);
      assert y == c + x[|c|..][..|x| - |c| - 1];
      UnescapeChar(s[0], x[|c|..][..|x| - |c| - 1]);
    }
  }

  /** Cut anywhere before its closing quote, a quoted string is not accepted. */
  lemma CutQuoteRejected(s: string, x: string)
    requires x <= Escape(s)
    ensures ParseText("\"" + x) == None
  {
    var t := "\"" + x;
    assert t[0] == '"';
    if x != "" && x[|x| - 1] == '"' {
      CutQuote(s, x);
      BetweenQuotes(x);
    }
  }

  lemma BetweenQuotes(x: string)
    requires x != ""
    ensures ("\"" + x)[1..|x|] == x[..|x| - 1]
  {
  }

  // ----- the loops -----

  method ParseQuoted(s: string) returns (r: Option<string>)
    ensures r == ParseText(s)
  {
    if IsToken(s) {
      return Some(s);
    }
    var n := |s|;
    if n < 2 || s[0] != '"' || s[n - 1] != '"' {
      return None;
    }
    var e, b, inner := false, "", s[1..n - 1];
    assert inner[0..] == inner;
    GlueAll("", '0', Unescape(inner, false));
    for i := 0 to |inner|
      invariant Unescape(inner, false) == Glue(b, Unescape(inner[i..], e))
    {
      var c := inner[i];
      assert inner[i..][1..] == inner[i + 1..];
      if e {
        e := false;
        match c {
          case 'n' => c := '\n';
          case 'r' => c := '\r';
          case 't' => c := '\t';
          case 'v' => c := '\U{B}';
          case 'f' => c := '\U{C}';
          case 'b' => c := '\U{8}';
          case '0' => c := '\0';
          case _ =>
        }
      } else if c == '\\' {
        e := true;
        continue;
      } else if c == '"' {
        return None;
      }
      GlueAll(b, c, Unescape(inner[i + 1..], false));
      b := b + [c];
    }
    assert inner[|inner|..] == "";
    GlueAll(b, '0', None);
    return if e then None else Some(b);
  }

  function Glue(b: string, r: Option<string>): Option<string> {
    match r
    case Some(t) => Some(b + t)
    case None => None
  }

  lemma GlueAll(b: string, c: char, r: Option<string>)
    ensures Glue(b, Prepend(c, r)) == Glue(b + [c], r)
    ensures Glue("", r) == r
    ensures Glue(b, Some("")) == Some(b)
  {
    if r.Some? {
      assert b + ([c] + r.value) == (b + [c]) + r.value;
      assert "" + r.value == r.value;
    }
    assert b + "" == b;
  }

  lemma {:induction false} EscapeAppend(s: string, t: string)
    ensures Escape(s + t) == Escape(s) + Escape(t)
  {
    if s == "" {
      assert s + t == t;
    } else {
      assert (s + t)[0] == s[0] && (s + t)[1..] == s[1..] + t;
      EscapeAppend(s[1..], t);
    }
  }

  /** A run without special characters escapes to itself. */
  lemma {:induction false} EscapePlain(s: string)
    requires forall i :: 0 <= i < |s| ==> EscapeLetter(s[i]).None?
    ensures Escape(s) == s
  {
    if s != "" {
      EscapePlain(s[1..]);
      assert [s[0]] + s[1..] == s;
    }
  }

  /** Writes s in quotes, copying runs of plain characters at once. */
  method WriteQuoted(w0: string, s: string) returns (w: string)
    ensures w == w0 + Quote(s)
  {
    w := w0 + "\"";
    ghost var w1 := w;
    var i, j, n := 0, 0, |s|;
    assert w1 + Escape(s[..0]) == w1;
    while j < n
      invariant 0 <= i <= j <= n
      invariant w == w1 + Escape(s[..i])
      invariant forall k :: i <= k < j ==> EscapeLetter(s[k]).None?
    {
      var c := EscapeLetter(s[j]);
      j := j + 1;
      if c.None? {
        continue;
      }
      CopyRun(w1, s, i, j);
      w := w + s[i..j - 1] + ['\\', c.value];
      i := j;
    }
    CopyRest(w0, s, i);
    w := w + s[i..] + "\"";
  }

  lemma CopyRest(w0: string, s: string, i: nat)
    requires i <= |s| && forall k :: i <= k < |s| ==> EscapeLetter(s[k]).None?
    ensures w0 + "\"" + Escape(s[..i]) + s[i..] + "\"" == w0 + Quote(s)
  {
    EscapePlain(s[i..]);
    EscapeAppend(s[..i], s[i..]);
    assert s[..i] + s[i..] == s;
  }

  lemma CopyRun(w: string, s: string, i: nat, j: nat)
    requires i < j <= |s| && forall k :: i <= k < j - 1 ==> EscapeLetter(s[k]).None?
    ensures w + Escape(s[..i]) + s[i..j - 1] + EscapeChar(s[j - 1]) == w + Escape(s[..j])
  {
    assert s[..j] == s[..i] + s[i..j - 1] + [s[j - 1]];
    EscapeAppend(s[..i] + s[i..j - 1], [s[j - 1]]);
    EscapeAppend(s[..i], s[i..j - 1]);
    EscapePlain(s[i..j - 1]);
    assert [s[j - 1]][1..] == "";
  }

  // ----- splitting outside of quotes -----

  /** Where a scan stands: inside quotes, and there behind a backslash. */
  datatype Scan = Scan(quoted: bool, escaped: bool)

  const OUTSIDE := Scan(false, false)

  function Next(st: Scan, c: char): Scan {
    if !st.quoted then Scan(c == '"', false)
    else if st.escaped then Scan(true, false)
    else if c == '\\' then Scan(true, true)
    else Scan(c != '"', false)
  }

  function After(st: Scan, s: string): Scan
    decreases s
  {
    if s == "" then st else After(Next(st, s[0]), s[1..])
  }

  /** The first separator outside of quotes. */
  function CutAt(s: string, sep: char, st: Scan): (r: Option<nat>)
    ensures r.Some? ==> r.value < |s| && s[r.value] == sep
  {
    if s == "" then None
    else if !st.quoted && s[0] != '"' && s[0] == sep then Some(0)
    else match CutAt(s[1..], sep, Next(st, s[0]))
      case Some(i) => Some(i + 1)
      case None => None
  }

  function Split(s: string, sep: char): (r: (string, string))
    ensures |r.0| + |r.1| <= |s| && (s != "" ==> |r.1| < |s|)
  {
    match CutAt(s, sep, OUTSIDE)
    case Some(i) => (s[..i], s[i + 1..])
    case None => (s, "")
  }

  lemma {:induction false} CutIsOutside(s: string, sep: char, st: Scan)
    ensures match CutAt(s, sep, st)
            case Some(i) => !After(st, s[..i]).quoted && CutAt(s[..i], sep, st) == None
            case None => true
  {
    if s != "" && !(!st.quoted && s[0] != '"' && s[0] == sep) {
      CutIsOutside(s[1..], sep, Next(st, s[0]));
      match CutAt(s[1..], sep, Next(st, s[0]))
      case None =>
      case Some(i) => assert s[..i + 1][0] == s[0] && s[..i + 1][1..] == s[1..][..i];
    }
  }

  /**
   The head of a split holds no separator outside of quotes, the cut is outside
   of quotes, and the parts and the separator make up the input; without a
   separator outside of quotes the head is the input.
   */
  lemma SplitIsExact(s: string, sep: char)
    ensures var (head, tail) := Split(s, sep);
            && CutAt(head, sep, OUTSIDE) == None
            && if CutAt(s, sep, OUTSIDE).Some? then s == head + [sep] + tail && !After(OUTSIDE, head).quoted
               else s == head && tail == ""
  {
    CutIsOutside(s, sep, OUTSIDE);
  }

  method SplitLoop(s: string, b: char) returns (head: string, tail: string)
    ensures (head, tail) == Split(s, b)
  {
    var e, q := false, false;
    assert s[0..] == s;
    for i := 0 to |s|
      invariant !q ==> !e
      invariant CutAt(s, b, OUTSIDE) == Shifted(i, CutAt(s[i..], b, Scan(q, e)))
    {
      CutStep(s, b, i, Scan(q, e));
      if q {
        if e {
          e := false;
        } else if s[i] == '\\' {
          e := true;
        } else if s[i] == '"' {
          q := false;
        }
        continue;
      }
      if s[i] == '"' {
        q := true;
        continue;
      }
      if !q && s[i] == b {
        return s[..i], s[i + 1..];
      }
    }
    assert s[|s|..] == "";
    return s, "";
  }

  function Shifted(i: nat, r: Option<nat>): Option<nat> {
    match r
    case Some(k) => Some(i + k)
    case None => None
  }

  /** One character of the scan. */
  lemma CutStep(s: string, b: char, i: nat, st: Scan)
    requires i < |s|
    ensures Shifted(i, CutAt(s[i..], b, st))
         == if !st.quoted && s[i] != '"' && s[i] == b then Some(i)
            else Shifted(i + 1, CutAt(s[i + 1..], b, Next(st, s[i])))
  {
    assert s[i..][1..] == s[i + 1..];
  }

  function SplitTrim(s: string, sep: char): (r: (string, string))
    ensures s != "" ==> |r.1| < |s|
  {
    var (head, tail) := Split(s, sep);
    (Trim(head), Trim(tail))
  }

  method SplitTrimOWS(s: string, b: char) returns (head: string, tail: string)
    ensures (head, tail) == SplitTrim(s, b)
  {
    head, tail := SplitLoop(s, b);
    head := TrimOWS(head);
    tail := TrimOWS(tail);
  }

  /** A text that a separator may follow: it ends outside of quotes and holds no separator there. */
  predicate Closed(s: string, sep: char) {
    CutAt(s, sep, OUTSIDE) == None && After(OUTSIDE, s) == OUTSIDE
  }

  lemma {:induction false} ScanAppend(s: string, t: string, sep: char, st: Scan)
    ensures After(st, s + t) == After(After(st, s), t)
    ensures CutAt(s, sep, st) == None ==>
              CutAt(s + t, sep, st) == match CutAt(t, sep, After(st, s)) case Some(i) => Some(|s| + i) case None => None
  {
    if s == "" {
      assert s + t == t;
    } else {
      assert (s + t)[0] == s[0] && (s + t)[1..] == s[1..] + t;
      ScanAppend(s[1..], t, sep, Next(st, s[0]));
    }
  }

  lemma ClosedAppend(s: string, t: string, sep: char)
    requires Closed(s, sep) && Closed(t, sep)
    ensures Closed(s + t, sep)
  {
    ScanAppend(s, t, sep, OUTSIDE);
  }

  lemma {:induction false} ClosedPlain(s: string, sep: char)
    requires sep !in s && '"' !in s
    ensures Closed(s, sep)
  {
    if s != "" {
      ClosedPlain(s[1..], sep);
    }
  }

  lemma {:induction false} ClosedEscape(s: string, sep: char)
    ensures After(Scan(true, false), Escape(s)) == Scan(true, false)
    ensures CutAt(Escape(s), sep, Scan(true, false)) == None
  {
    if s != "" {
      var c, rest := EscapeChar(s[0]), Escape(s[1..]);
      ClosedEscape(s[1..], sep);
      ScanAppend(c, rest, sep, Scan(true, false));
      if |c| == 2 {
        assert c[1..] == [c[1]] && [c[1]][1..] == "";
      } else {
        assert c[1..] == "";
      }
    }
  }

  lemma ClosedQuote(s: string, sep: char)
    requires sep != '"'
    ensures Closed(Quote(s), sep)
  {
    var x := "\"" + Escape(s);
    ClosedEscape(s, sep);
    assert "\""[1..] == "";
    ScanAppend("\"", Escape(s), sep, OUTSIDE);
    ScanAppend(x, "\"", sep, OUTSIDE);
  }

  lemma SplitClosed(s: string, sep: char, t: string)
    requires Closed(s, sep) && sep != '"'
    ensures Split(s + [sep] + t, sep) == (s, t)
    ensures Split(s, sep) == (s, "")
  {
    assert s + [sep] + t == s + ([sep] + t);
    ScanAppend(s, [sep] + t, sep, OUTSIDE);
  }
}
