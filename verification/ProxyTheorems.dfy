/** The printers and the parser of PROXY protocol headers agree (proxy.go:146-487). */
module ProxyTheorems {
  import opened Bytes
  import opened ProxyHeaders

  // ----- finding the end of the line -----

  lemma {:induction false} FindExtends(p: seq<byte>, t: seq<byte>)
    ensures FindCRLF(p).Some? ==> FindCRLF(p + t) == FindCRLF(p)
  {
    if |p| >= 2 {
      assert (p + t)[0] == p[0] && (p + t)[1] == p[1] && (p + t)[1..] == p[1..] + t;
      FindExtends(p[1..], t);
    }
  }

  lemma {:induction false} FindNothing(s: seq<byte>)
    requires forall i :: 0 <= i < |s| ==> s[i] != 10
    ensures FindCRLF(s) == None
  {
    if |s| >= 2 {
      FindNothing(s[1..]);
    }
  }

  /** Bytes after the end that hold no line feed do not complete a CRLF. */
  lemma {:induction false} FindIgnores(p: seq<byte>, z: seq<byte>)
    requires forall i :: 0 <= i < |z| ==> z[i] != 10
    ensures FindCRLF(p + z) == FindCRLF(p)
  {
    if p == [] {
      assert p + z == z;
      FindNothing(z);
    } else {
      assert (p + z)[1..] == p[1..] + z;
      FindIgnores(p[1..], z);
    }
  }

  lemma {:induction false} FindFirst(line: seq<byte>, t: seq<byte>)
    requires Unbroken(line)
    ensures FindCRLF(line + CRLF + t) == Some(|line|)
  {
    var s := line + CRLF + t;
    if line == [] {
      assert s[0] == 13 && s[1] == 10;
    } else {
      assert s[1..] == line[1..] + CRLF + t;
      FindFirst(line[1..], t);
    }
  }

  // ----- version 1 -----

  predicate NoSpace(w: seq<byte>) {
    forall i :: 0 <= i < |w| ==> w[i] != SPACE
  }

  lemma {:induction false} WordThen(w: seq<byte>, t: seq<byte>)
    requires NoSpace(w)
    ensures Word(w + SP + t) == (w, t)
  {
    var b := w + SP + t;
    if w == [] {
      assert b[1..] == t;
    } else {
      assert b[1..] == w[1..] + SP + t;
      WordThen(w[1..], t);
      assert [w[0]] + w[1..] == w;
    }
  }

  lemma {:induction false} WordLast(w: seq<byte>)
    requires NoSpace(w)
    ensures Word(w) == (w, [])
  {
    if w != [] {
      WordLast(w[1..]);
      assert [w[0]] + w[1..] == w;
    }
  }

  lemma PortWord(port: int)
    requires -0x8000_0000_0000_0000 <= port < 0x8000_0000_0000_0000
    ensures PlainWord(Dec(Uint64(port)))
    ensures Atoi(Dec(Uint64(port))) == if port >= 0 then Some(port) else None
    ensures 0 <= port < 65536 ==> |Dec(Uint64(port))| <= 5
  {
    var n := Uint64(port);
    assert n == if port >= 0 then port else port + 0x1_0000_0000_0000_0000;
    DecValueOfDec(n);
    assert IsDigit(Dec(n)[0]);
    if n < 65536 {
      assert Pow10(5) == 100000;
      DecLength(n, 5);
    }
  }

  /** A net.TCPAddr with an IP or without one, whose port is a 64-bit int. */
  predicate AnyTCP(a: Addr) {
    a.TCP? && (ValidIP(a.ip) || a.ip == []) && -0x8000_0000_0000_0000 <= a.port < 0x8000_0000_0000_0000
  }

  function Normal(a: Addr): Addr {
    match a
    case TCP(ip, port, zone) => TCP(To16(ip), port, zone)
    case UDP(ip, port, zone) => UDP(To16(ip), port, zone)
    case _ => a
  }

  /** Neither version prints the zone of an address. */
  function Unzoned(a: Addr): Addr
    requires a.TCP? || a.UDP?
  {
    a.(zone := "")
  }

  /** No line break occurs in s. */
  predicate Unbroken(s: seq<byte>) {
    forall i :: 0 <= i < |s| ==> s[i] != 10 && s[i] != 13
  }

  lemma LineV1Shape(t: IPText, src: Addr, dst: Addr)
    requires t.Lawful() && AnyTCP(src) && AnyTCP(dst)
    ensures Unbroken(LineV1(t, src, dst))
    ensures |PrintV1(t, src, dst)| >= MIN_HEADER && PROXY <= LineV1(t, src, dst)
    ensures 0 <= src.port < 65536 && 0 <= dst.port < 65536 ==> |PrintV1(t, src, dst)| <= V1_LIMIT
  {
    PortWord(src.port);
    PortWord(dst.port);
    var (a, b, c, d) := (t.show(src.ip), t.show(dst.ip), Dec(Uint64(src.port)), Dec(Uint64(dst.port)));
    assert PlainWord(a) && PlainWord(b) && |a| <= 39 && |b| <= 39;
    var family := if IsV4(src.ip) then TCP4 else TCP6;
    var l2 := b + SP + (c + SP + d);
    var l1 := a + SP + l2;
    JoinUnbroken(c, d);
    JoinUnbroken(b, c + SP + d);
    JoinUnbroken(a, l2);
    JoinUnbroken(family, l1);
    JoinUnbroken(PROXY, family + SP + l1);
    assert LineV1(t, src, dst) == PROXY + SP + (family + SP + l1);
  }

  lemma JoinUnbroken(a: seq<byte>, b: seq<byte>)
    requires Unbroken(a) && Unbroken(b)
    ensures Unbroken(a + SP + b) && |a + SP + b| == |a| + 1 + |b|
  {
  }

  /** What the parser makes of a printed line. */
  function ReadLineV1(src: Addr, dst: Addr): Line
    requires src.TCP? && dst.TCP?
  {
    if src.ip == [] || dst.ip == [] then BadLine(BadIP)
    else if src.port < 0 || dst.port < 0 then BadLine(BadPort)
    else Line(Unzoned(Normal(src)), Unzoned(Normal(dst)))
  }

  lemma ParseV1OfLine(t: IPText, src: Addr, dst: Addr)
    requires t.Lawful() && AnyTCP(src) && AnyTCP(dst)
    ensures PROXY <= LineV1(t, src, dst)
    ensures ParseV1(t, LineV1(t, src, dst)) == ReadLineV1(src, dst)
  {
    PortWord(src.port);
    PortWord(dst.port);
    var family := if IsV4(src.ip) then TCP4 else TCP6;
    var (a, b, c, d) := (t.show(src.ip), t.show(dst.ip), Dec(Uint64(src.port)), Dec(Uint64(dst.port)));
    assert t.parse(a) == if src.ip == [] then None else Some(To16(src.ip));
    assert t.parse(b) == if dst.ip == [] then None else Some(To16(dst.ip));
    assert NoSpace(a) && NoSpace(b) && NoSpace(c) && NoSpace(d) && NoSpace(family);
    ParseWords(t, family, a, b, c, d);
  }

  /** What the parser makes of five words. */
  lemma ParseWords(t: IPText, family: seq<byte>, a: seq<byte>, b: seq<byte>, c: seq<byte>, d: seq<byte>)
    requires family == TCP4 || family == TCP6
    requires NoSpace(family) && NoSpace(a) && NoSpace(b) && NoSpace(c) && NoSpace(d)
    ensures var line := PROXY + SP + (family + SP + (a + SP + (b + SP + (c + SP + d))));
            && PROXY <= line
            && ParseV1(t, line) == if t.parse(a).None? || t.parse(b).None? then BadLine(BadIP)
                                   else if Atoi(c).None? || Atoi(d).None? then BadLine(BadPort)
                                   else Line(TCP(t.parse(a).value, Atoi(c).value, ""),
                                             TCP(t.parse(b).value, Atoi(d).value, ""))
  {
    WordsOfLine(family, a, b, c, d);
  }

  lemma WordsOfLine(family: seq<byte>, a: seq<byte>, b: seq<byte>, c: seq<byte>, d: seq<byte>)
    requires NoSpace(family) && NoSpace(a) && NoSpace(b) && NoSpace(c) && NoSpace(d)
    ensures var l3 := c + SP + d;
            var l2 := b + SP + l3;
            var l1 := a + SP + l2;
            var l0 := family + SP + l1;
            && Word(l0) == (family, l1) && Word(l1) == (a, l2) && Word(l2) == (b, l3)
            && Word(l3) == (c, d) && Word(d) == (d, [])
            && PROXY <= PROXY + SP + l0 && (PROXY + SP + l0)[|PROXY|..] == SP + l0 && (SP + l0)[1..] == l0
  {
    WordThen(family, a + SP + (b + SP + (c + SP + d)));
    WordThen(a, b + SP + (c + SP + d));
    WordThen(b, c + SP + d);
    WordThen(c, d);
    WordLast(d);
    var l0 := family + SP + (a + SP + (b + SP + (c + SP + d)));
    assert PROXY + SP + l0 == PROXY + (SP + l0);
  }

  /**
   Version 1: a printed line, whatever follows it, is rejected when it is too long
   or when an IP is missing or a port negative; otherwise both addresses are read
   back without their zones. A line always fits when the ports have 16 bits.
   */
  lemma V1RoundTrip(t: IPText, src: Addr, dst: Addr, payload: seq<byte>)
    requires t.Lawful() && AnyTCP(src) && AnyTCP(dst)
    ensures var h := PrintV1(t, src, dst);
            && Parse(t, h + payload) == (if |h| > 107 then Rejected(NoCRLF)
                                         else match ReadLineV1(src, dst)
                                           case BadLine(e) => Rejected(e)
                                           case Line(a, b) => Accepted(a, b, false, |h|))
            && (Parse(t, h + payload) == Accepted(Normal(src), Normal(dst), false, |h|)
                <==> |h| <= 107 && src.ip != [] && dst.ip != [] && src.port >= 0 && dst.port >= 0
                     && src.zone == "" && dst.zone == "")
    ensures 0 <= src.port < 65536 && 0 <= dst.port < 65536 ==> |PrintV1(t, src, dst)| <= 107
  {
    var line, h := LineV1(t, src, dst), PrintV1(t, src, dst);
    LineV1Shape(t, src, dst);
    ParseV1OfLine(t, src, dst);
    FindLine(line, payload);
    assert h + payload == line + CRLF + payload;
  }

  /** The line is found behind whatever payload, if it fits. */
  lemma FindLine(line: seq<byte>, payload: seq<byte>)
    requires Unbroken(line) && PROXY <= line
    ensures var s := line + CRLF + payload;
            && PROXY <= s && s[..|line|] == line
            && FindCRLF(Window(s)) == if |line| + 2 <= V1_LIMIT then Some(|line|) else None
  {
    var s := line + CRLF + payload;
    if |line| + 2 <= V1_LIMIT {
      var more := Window(s)[|line| + 2..];
      assert Window(s) == line + CRLF + more;
      FindFirst(line, more);
    } else {
      CutLine(line, V1_LIMIT);
      assert s[..V1_LIMIT] == (line + CRLF)[..V1_LIMIT];
    }
  }

  /** A line cut before its line feed has no end. */
  lemma CutLine(line: seq<byte>, k: nat)
    requires Unbroken(line)
    requires k < |line| + 2
    ensures FindCRLF((line + CRLF)[..k]) == None
  {
    FindNothing((line + CRLF)[..k]);
  }

  /** Cut anywhere, even in its final CRLF, a printed line is rejected. */
  lemma V1Truncated(t: IPText, src: Addr, dst: Addr, k: nat)
    requires t.Lawful() && AnyTCP(src) && AnyTCP(dst)
    requires k < |PrintV1(t, src, dst)|
    ensures Parse(t, PrintV1(t, src, dst)[..k]) == Rejected(if k < V1_LIMIT then ShortRead else NoCRLF)
  {
    var h := PrintV1(t, src, dst);
    LineV1Shape(t, src, dst);
    CutLine(LineV1(t, src, dst), if k < V1_LIMIT then k else V1_LIMIT);
    if k >= MIN_HEADER {
      assert PROXY <= h[..k];
      assert k >= V1_LIMIT ==> h[..k][..V1_LIMIT] == h[..V1_LIMIT];
    }
  }

  // ----- version 2 -----

  lemma NotBoth(s: seq<byte>)
    requires SIGNATURE <= s
    ensures !(PROXY <= s)
  {
    assert s[0] == SIGNATURE[0] != PROXY[0];
  }

  predicate HasNul(name: seq<byte>) {
    exists i :: 0 <= i < |name| && name[i] == 0
  }

  lemma {:induction false} CutAtNulOfPad(name: seq<byte>, zeros: seq<byte>)
    requires forall i :: 0 <= i < |zeros| ==> zeros[i] == 0
    ensures CutAtNul(name + zeros) == CutAtNul(name)
  {
    if name == [] {
      assert name + zeros == zeros;
    } else {
      assert (name + zeros)[1..] == name[1..] + zeros;
      CutAtNulOfPad(name[1..], zeros);
    }
  }

  lemma {:induction false} CutAtNulKeeps(name: seq<byte>)
    ensures CutAtNul(name) == name <==> !HasNul(name)
    ensures |CutAtNul(name)| <= |name|
  {
    if name != [] {
      CutAtNulKeeps(name[1..]);
      assert forall i :: 0 < i < |name| ==> name[i] == name[1..][i - 1];
      if name[0] != 0 {
        assert ([name[0]] + CutAtNul(name[1..]))[1..] == CutAtNul(name[1..]);
        assert [name[0]] + name[1..] == name;
        if HasNul(name[1..]) {
          var i :| 0 <= i < |name[1..]| && name[1..][i] == 0;
          assert name[i + 1] == 0;
        }
        if HasNul(name) {
          var i :| 0 <= i < |name| && name[i] == 0;
          assert name[1..][i - 1] == 0;
        }
      }
    }
  }

  /** A Unix name survives the fixed 108 bytes exactly when it fits and holds no NUL. */
  lemma NameSurvives(name: seq<byte>)
    ensures CutAtNul(Pad(name)) == name <==> |name| <= NAME_SIZE && !HasNul(name)
  {
    CutAtNulKeeps(Pad(name));
    CutAtNulKeeps(name);
    if |name| < NAME_SIZE {
      CutAtNulOfPad(name, seq(NAME_SIZE - |name|, i => 0));
    } else if |name| == NAME_SIZE {
      assert Pad(name) == name;
    }
  }

  predicate Printable(src: Addr, dst: Addr) {
    SameKind(src, dst) && (src.TCP? || src.UDP? ==> ValidIP(src.ip) && ValidIP(dst.ip))
  }

  /** The family is taken from the source alone. */
  predicate OneFamily(src: Addr, dst: Addr)
    requires Printable(src, dst)
  {
    src.TCP? || src.UDP? ==> (IsV4(src.ip) ==> IsV4(dst.ip))
  }

  predicate Fits(a: Addr) {
    match a
    case TCP(_, port, zone) => 0 <= port < 65536 && zone == ""
    case UDP(_, port, zone) => 0 <= port < 65536 && zone == ""
    case Unix(net, name) => net != UnixOther && |name| <= NAME_SIZE && !HasNul(name)
    case NoAddr => true
  }

  predicate Recoverable(src: Addr, dst: Addr)
    requires Printable(src, dst)
  {
    && OneFamily(src, dst) && Fits(src) && Fits(dst)
    && (src.Unix? ==> src.net == dst.net)
    && (src.NoAddr? ==> dst.NoAddr?)
  }

  /** The fields of a block of version 2, byte by byte. */
  predicate IsBlock(h: seq<byte>, src: Addr, dst: Addr, local: bool)
    requires Printable(src, dst)
  {
    && |h| >= MIN_HEADER && SIGNATURE <= h
    && h[12] / 16 == 2 && h[12] % 16 == (if local then 0 else 1)
    && h[13] / 16 == Family(src) && h[13] % 16 == SockType(src)
    && h[MIN_HEADER..] == AddressBlock(src, dst)
    && (|h| == MIN_HEADER + BlockLen(Family(src)) <==> OneFamily(src, dst))
  }

  lemma V2Shape(src: Addr, dst: Addr, local: bool)
    requires Printable(src, dst)
    ensures IsBlock(PrintV2(src, dst, local), src, dst, local)
  {
    BlockLength(src, dst);
    Layout(Nibbles(2, if local then 0 else 1), Nibbles(Family(src), SockType(src)), AddressBlock(src, dst));
  }

  lemma Layout(x: byte, y: byte, block: seq<byte>)
    ensures var h := SIGNATURE + [x, y] + block;
            SIGNATURE <= h && h[12] == x && h[13] == y && h[MIN_HEADER..] == block && |h| == MIN_HEADER + |block|
  {
  }

  lemma BlockLength(src: Addr, dst: Addr)
    requires Printable(src, dst)
    ensures |AddressBlock(src, dst)| == BlockLen(Family(src)) <==> OneFamily(src, dst)
  {
  }

  lemma PortSurvives(port: int)
    ensures Uint16(Port16(port)) == port <==> 0 <= port < 65536
  {
  }

  lemma FieldLengths(src: Addr, a: Addr, other: Addr)
    requires Printable(src, other) && OneFamily(src, other) && SockType(src) != 0
    requires a == src || a == other
    ensures |AddrBytes(src, a)| == AddrLen(Family(src)) && |PortBytes(src, a)| == PortLen(Family(src))
    ensures 1 <= Family(src) <= 3
  {
  }

  lemma AddrSurvives(src: Addr, a: Addr, other: Addr)
    requires Printable(src, other) && OneFamily(src, other) && SockType(src) != 0
    requires a == src || a == other
    ensures |AddrBytes(src, a)| == AddrLen(Family(src)) && |PortBytes(src, a)| == PortLen(Family(src))
    ensures MakeAddr(Family(src), SockType(src), AddrBytes(src, a), PortBytes(src, a)) == Normal(a)
       <==> Fits(a) && (src.Unix? ==> src.net == a.net)
  {
    if src.Unix? {
      NameSurvives(a.name);
    } else {
      PortSurvives(a.port);
      assert |a.ip| == 16 && V4_PREFIX <= a.ip ==> V4_PREFIX + a.ip[12..] == a.ip;
    }
  }

  /**
   Version 2: whatever follows the printed block, it is read back with both
   addresses, the kind of socket and the flag, exactly when the addresses are
   recoverable.
   */
  lemma V2RoundTrip(t: IPText, src: Addr, dst: Addr, local: bool, payload: seq<byte>)
    requires Printable(src, dst)
    ensures var h := PrintV2(src, dst, local);
            Parse(t, h + payload) == Accepted(Normal(src), Normal(dst), local, |h|) <==> Recoverable(src, dst)
  {
    V2Shape(src, dst, local);
    ReadBack(t, PrintV2(src, dst, local), src, dst, local, payload);
  }

  /** A block as V2Shape describes it, read by the parser. */
  lemma ReadBack(t: IPText, h: seq<byte>, src: Addr, dst: Addr, local: bool, payload: seq<byte>)
    requires Printable(src, dst) && IsBlock(h, src, dst, local)
    ensures Parse(t, h + payload) == Accepted(Normal(src), Normal(dst), local, |h|) <==> Recoverable(src, dst)
  {
    KeepHead(h, payload);
    assert Parse(t, h + payload) == ParseV2(h + payload);
    if OneFamily(src, dst) && SockType(src) != 0 {
      ReadFields(h, src, dst, local, payload);
      AddrSurvives(src, src, dst);
      AddrSurvives(src, dst, dst);
    }
  }

  lemma ReadFields(h: seq<byte>, src: Addr, dst: Addr, local: bool, payload: seq<byte>)
    requires Printable(src, dst) && IsBlock(h, src, dst, local) && OneFamily(src, dst) && SockType(src) != 0
    ensures |PortBytes(src, src)| == |PortBytes(src, dst)| == PortLen(Family(src))
    ensures SIGNATURE <= h + payload
    ensures var (family, sock) := (Family(src), SockType(src));
            ParseV2(h + payload) == Accepted(MakeAddr(family, sock, AddrBytes(src, src), PortBytes(src, src)),
                                             MakeAddr(family, sock, AddrBytes(src, dst), PortBytes(src, dst)),
                                             local, |h|)
  {
    KeepHead(h, payload);
    FieldLengths(src, src, dst);
    FieldLengths(src, dst, dst);
    var (al, pl) := (AddrLen(Family(src)), PortLen(Family(src)));
    var b := (h + payload)[MIN_HEADER..|h|];
    assert b == h[MIN_HEADER..] == AddressBlock(src, dst);
    Slices(AddrBytes(src, src), AddrBytes(src, dst), PortBytes(src, src), PortBytes(src, dst), al, pl);
  }

  lemma Slices(x: seq<byte>, y: seq<byte>, u: seq<byte>, v: seq<byte>, al: nat, pl: nat)
    requires |x| == |y| == al && |u| == |v| == pl
    ensures var b := x + y + u + v;
            b[..al] == x && b[al..2 * al] == y && b[2 * al..2 * al + pl] == u && b[2 * al + pl..] == v
  {
  }

  lemma KeepHead(h: seq<byte>, payload: seq<byte>)
    requires |h| >= MIN_HEADER && SIGNATURE <= h
    ensures var s := h + payload;
            SIGNATURE <= s && !(PROXY <= s) && s[12] == h[12] && s[13] == h[13]
  {
    NotBoth(h + payload);
  }

  /** Cut anywhere, a printed block is rejected. */
  lemma V2Truncated(t: IPText, src: Addr, dst: Addr, local: bool, k: nat)
    requires Printable(src, dst)
    requires k < |PrintV2(src, dst, local)|
    ensures Parse(t, PrintV2(src, dst, local)[..k]) == Rejected(ShortRead)
  {
    V2Shape(src, dst, local);
    if k >= MIN_HEADER {
      var s := PrintV2(src, dst, local)[..k];
      assert SIGNATURE <= s;
      NotBoth(s);
    }
  }

  /** The one way to make the parser read a port out of nothing. */
  lemma WhenParsePanics(t: IPText, s: seq<byte>)
    ensures Parse(t, s) == Panicked
       <==> |s| >= MIN_HEADER && SIGNATURE <= s
            && s[12] in {0x20, 0x21} && s[13] in {0x01, 0x02}
  {
    if |s| >= MIN_HEADER && SIGNATURE <= s {
      NotBoth(s);
    }
  }

  /** An address without an IP is printed as a header on which the parser panics. */
  lemma NilAddressPanics(t: IPText, src: Addr, dst: Addr, local: bool, payload: seq<byte>)
    requires SameKind(src, dst) && (src.TCP? || src.UDP?) && src.ip == []
    ensures Parse(t, PrintV2(src, dst, local) + payload) == Panicked
  {
    var h := PrintV2(src, dst, local);
    assert SIGNATURE <= h && h[12] == Nibbles(2, if local then 0 else 1) && h[13] == Nibbles(0, SockType(src));
    assert (h + payload)[12] == h[12] && (h + payload)[13] == h[13] && SIGNATURE <= h + payload;
    WhenParsePanics(t, h + payload);
  }
}
