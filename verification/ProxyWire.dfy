/**
 PROXY protocol headers on the wire, byte by byte: what is printed, after sections
 2.1 and 2.2 of the PROXY protocol, and what is accepted (proxy.go:146-487).
 */
module ProxyWire {
  import opened Bytes
  import opened ProxyHeaders
  import opened ProxyTheorems

  /** An IPv4 address: 4 bytes, or 16 of which the first 12 are the prefix of mapped addresses. */
  predicate IsFour(ip: IP) {
    |ip| == 4 || (|ip| == 16 && ip[..12] == [0, 0, 0, 0, 0, 0, 0, 0, 0, 0, 0xFF, 0xFF])
  }

  /** The 16 bytes of an address. */
  function Wide(ip: IP): seq<byte> {
    if |ip| == 4 then [0, 0, 0, 0, 0, 0, 0, 0, 0, 0, 0xFF, 0xFF] + ip else ip
  }

  lemma FourIs(ip: IP)
    ensures IsV4(ip) <==> IsFour(ip)
    ensures IsFour(ip) ==> To4(ip) == ip[|ip| - 4..]
    ensures ValidIP(ip) ==> To16(ip) == Wide(ip)
  {
    if |ip| == 16 {
      assert V4_PREFIX <= ip <==> ip[..12] == V4_PREFIX;
    }
  }

  // ----- version 1 -----

  /** `PROXY TCP4 ` or `PROXY TCP6 `, by the source. */
  function Opening(src: Addr): seq<byte>
    requires src.TCP?
  {
    [0x50, 0x52, 0x4F, 0x58, 0x59, 0x20, 0x54, 0x43, 0x50, if IsFour(src.ip) then 0x34 else 0x36, 0x20]
  }

  lemma OpeningIs(t: IPText, src: Addr, dst: Addr)
    requires src.TCP? && dst.TCP?
    ensures Opening(src) <= PrintV1(t, src, dst)
  {
    FourIs(src.ip);
    var family := if IsV4(src.ip) then TCP4 else TCP6;
    assert Opening(src) == PROXY + SP + family + SP;
    Regroup(family, t.show(src.ip) + SP + (t.show(dst.ip) + SP + (Dec(Uint64(src.port)) + SP + Dec(Uint64(dst.port)))));
  }

  lemma Regroup(f: seq<byte>, rest: seq<byte>)
    ensures PROXY + SP + f + SP <= PROXY + SP + (f + SP + rest) + CRLF
  {
    assert PROXY + SP + (f + SP + rest) + CRLF == PROXY + SP + f + SP + (rest + CRLF);
  }

  /** The bytes s are exactly these words, with one space between them. */
  predicate Words(s: seq<byte>, words: seq<seq<byte>>)
    decreases |words|
  {
    var (w, rest) := Word(s);
    if words == [] then s == [] else w == words[0] && Words(rest, words[1..])
  }

  lemma FiveAre(f: seq<byte>, a: seq<byte>, b: seq<byte>, c: seq<byte>, d: seq<byte>)
    requires NoSpace(f) && NoSpace(a) && NoSpace(b) && NoSpace(c) && NoSpace(d)
    ensures Words(f + SP + (a + SP + (b + SP + (c + SP + d))), [f, a, b, c, d])
  {
    WordsOfLine(f, a, b, c, d);
    assert [f, a, b, c, d][1..] == [a, b, c, d] && [a, b, c, d][1..] == [b, c, d];
    assert [b, c, d][1..] == [c, d] && [c, d][1..] == [d] && [d][1..] == [];
    assert Words([], []);
    assert Words(d, [d]);
    assert Words(c + SP + d, [c, d]);
    assert Words(b + SP + (c + SP + d), [b, c, d]);
  }

  /**
   A printed line: PROXY, the family word that belongs to the source, source
   address, destination address, source port and destination port, in this order,
   each behind one space, and then CRLF.
   */
  lemma LineOnWire(t: IPText, src: Addr, dst: Addr)
    requires t.Lawful() && AnyTCP(src) && AnyTCP(dst)
    ensures var h := PrintV1(t, src, dst);
            var family := [0x54, 0x43, 0x50, if IsFour(src.ip) then 0x34 else 0x36];
            var (srcPort, dstPort) := (Dec(Uint64(src.port)), Dec(Uint64(dst.port)));
            && |h| >= 13 && Opening(src) <= h && h[|h| - 2..] == [13, 10]
            && Words(h[6..|h| - 2], [family, t.show(src.ip), t.show(dst.ip), srcPort, dstPort])
            && DecValue(srcPort) == Some(Uint64(src.port)) && DecValue(dstPort) == Some(Uint64(dst.port))
  {
    DecValueOfDec(Uint64(src.port));
    DecValueOfDec(Uint64(dst.port));
    OpeningIs(t, src, dst);
    var words := LineWords(t, src, dst);
    WordsAre(t, src, dst);
    Tail(words);
  }

  function LineWords(t: IPText, src: Addr, dst: Addr): seq<byte>
    requires src.TCP? && dst.TCP?
  {
    (if IsV4(src.ip) then TCP4 else TCP6) + SP
    + (t.show(src.ip) + SP + (t.show(dst.ip) + SP + (Dec(Uint64(src.port)) + SP + Dec(Uint64(dst.port)))))
  }

  lemma WordsAre(t: IPText, src: Addr, dst: Addr)
    requires t.Lawful() && AnyTCP(src) && AnyTCP(dst)
    ensures PrintV1(t, src, dst) == PROXY + SP + LineWords(t, src, dst) + CRLF
    ensures Words(LineWords(t, src, dst), [[0x54, 0x43, 0x50, if IsFour(src.ip) then 0x34 else 0x36], t.show(src.ip),
                                           t.show(dst.ip), Dec(Uint64(src.port)), Dec(Uint64(dst.port))])
  {
    PortWord(src.port);
    PortWord(dst.port);
    FourIs(src.ip);
    var family := if IsV4(src.ip) then TCP4 else TCP6;
    FiveAre(family, t.show(src.ip), t.show(dst.ip), Dec(Uint64(src.port)), Dec(Uint64(dst.port)));
  }

  lemma Tail(words: seq<byte>)
    ensures var h := PROXY + SP + words + CRLF;
            |h| == |words| + 8 && h[6..|h| - 2] == words && h[|h| - 2..] == [13, 10]
  {
  }

  /** What becomes of five words behind PROXY, and of bytes behind a sixth space. */
  lemma FiveWords(t: IPText, f: seq<byte>, a: seq<byte>, b: seq<byte>, c: seq<byte>, d: seq<byte>, more: seq<byte>)
    requires NoSpace(f) && NoSpace(a) && NoSpace(b) && NoSpace(c) && NoSpace(d)
    ensures var words := f + SP + (a + SP + (b + SP + (c + SP + (d + SP + more))));
            var line := [0x50, 0x52, 0x4F, 0x58, 0x59, 0x20] + words;
            && PROXY <= line
            && ParseV1(t, line)
               == if f != [0x54, 0x43, 0x50, 0x34] && f != [0x54, 0x43, 0x50, 0x36] then BadLine(BadV1Family)
                  else if t.parse(a).None? || t.parse(b).None? then BadLine(BadIP)
                  else if Atoi(c).None? || Atoi(d).None? then BadLine(BadPort)
                  else if more != [] then BadLine(ExtraBytes)
                  else Line(TCP(t.parse(a).value, Atoi(c).value, ""), TCP(t.parse(b).value, Atoi(d).value, ""))
  {
    WordThen(f, a + SP + (b + SP + (c + SP + (d + SP + more))));
    WordThen(a, b + SP + (c + SP + (d + SP + more)));
    WordThen(b, c + SP + (d + SP + more));
    WordThen(c, d + SP + more);
    WordThen(d, more);
    var words := f + SP + (a + SP + (b + SP + (c + SP + (d + SP + more))));
    BehindProxy(words);
  }

  /** The space behind PROXY may be missing. */
  lemma SpaceIsOptional(t: IPText, words: seq<byte>)
    requires words == [] || words[0] != 0x20
    ensures PROXY <= PROXY + words && PROXY <= PROXY + SP + words
    ensures ParseV1(t, PROXY + words) == ParseV1(t, PROXY + SP + words)
  {
    assert (PROXY + words)[|PROXY|..] == words;
    assert PROXY + SP + words == PROXY + (SP + words) && (PROXY + (SP + words))[|PROXY|..] == SP + words;
    assert (SP + words)[1..] == words;
  }

  lemma BehindProxy(words: seq<byte>)
    ensures var line := [0x50, 0x52, 0x4F, 0x58, 0x59, 0x20] + words;
            PROXY <= line && line[|PROXY|..] == SP + words && (SP + words)[1..] == words
  {
  }

  /** Ports are decimal, with an optional sign, within 64 bits. */
  lemma AtoiOfText(n: nat)
    ensures Atoi(Dec(n)) == if n <= 0x7FFF_FFFF_FFFF_FFFF then Some(n) else None
    ensures Atoi([0x2B] + Dec(n)) == if n <= 0x7FFF_FFFF_FFFF_FFFF then Some(n) else None
    ensures Atoi([0x2D] + Dec(n)) == if n <= 0x8000_0000_0000_0000 then Some(-(n as int)) else None
  {
    DecValueOfDec(n);
    assert IsDigit(Dec(n)[0]);
    AtoiOfDigits(n, Dec(n));
    AtoiOfSigned(0x2B, n, Dec(n));
    AtoiOfSigned(0x2D, n, Dec(n));
  }

  lemma AtoiOfDigits(n: nat, s: seq<byte>)
    requires s != [] && IsDigit(s[0]) && DecValue(s) == Some(n)
    ensures Atoi(s) == if n <= 0x7FFF_FFFF_FFFF_FFFF then Some(n) else None
  {
  }

  lemma AtoiOfSigned(sign: byte, n: nat, s: seq<byte>)
    requires s != [] && DecValue(s) == Some(n) && sign in {0x2B, 0x2D}
    ensures Atoi([sign] + s) == if sign == 0x2B then if n <= 0x7FFF_FFFF_FFFF_FFFF then Some(n) else None
                                else if n <= 0x8000_0000_0000_0000 then Some(-(n as int)) else None
  {
    assert ([sign] + s)[0] == sign && ([sign] + s)[1..] == s;
  }

  // ----- version 2 -----

  /** The byte behind the command: the family of the source, and the kind of socket. */
  function KindByte(src: Addr): byte {
    match src
    case TCP(ip, _, _) => if IsFour(ip) then 0x11 else 0x21
    case UDP(ip, _, _) => if IsFour(ip) then 0x12 else 0x22
    case Unix(net, _) => (match net case UnixStream => 0x31 case UnixDatagram => 0x32 case UnixOther => 0x30)
    case NoAddr => 0x00
  }

  /** The twelve bytes that every block begins with. */
  predicate Signed(s: seq<byte>) {
    |s| >= 12 && s[..12] == [0x0D, 0x0A, 0x0D, 0x0A, 0x00, 0x0D, 0x0A, 0x51, 0x55, 0x49, 0x54, 0x0A]
  }

  /** The first 14 bytes, and what the others are made of. */
  lemma HeadOnWire(src: Addr, dst: Addr, local: bool)
    requires Printable(src, dst)
    ensures var h := PrintV2(src, dst, local);
            && |h| >= 14 && Signed(h) && h[12] == (if local then 0x20 else 0x21) && h[13] == KindByte(src)
            && h[14..] == AddressBlock(src, dst)
  {
    V2Shape(src, dst, local);
    if src.TCP? || src.UDP? {
      FourIs(src.ip);
    }
  }

  /** Two bytes, the most significant one first. */
  function BigEndian(hi: byte, lo: byte): nat {
    256 * (hi as int) + lo as int
  }

  /** Two addresses of n bytes and two ports, from the byte 14 on. */
  ghost predicate HoldsPair(h: seq<byte>, n: nat, src: seq<byte>, dst: seq<byte>, srcPort: int, dstPort: int) {
    && |h| == 14 + 2 * n + 4
    && h[14..14 + n] == src && h[14 + n..14 + 2 * n] == dst
    && BigEndian(h[14 + 2 * n], h[15 + 2 * n]) == srcPort % 65536
    && BigEndian(h[16 + 2 * n], h[17 + 2 * n]) == dstPort % 65536
  }

  lemma PairIs(h: seq<byte>, n: nat, src: seq<byte>, dst: seq<byte>, srcPort: int, dstPort: int)
    requires |h| >= 14 && |src| == |dst| == n
    requires h[14..] == src + dst + Port16(srcPort) + Port16(dstPort)
    ensures HoldsPair(h, n, src, dst, srcPort, dstPort)
  {
    var s := src + dst + Port16(srcPort) + Port16(dstPort);
    FourParts(src, dst, Port16(srcPort), Port16(dstPort), n);
    Shift(h, 0, n);
    Shift(h, n, 2 * n);
    assert h[14 + 2 * n] == s[2 * n] && h[15 + 2 * n] == s[2 * n + 1];
    assert h[16 + 2 * n] == s[2 * n + 2] && h[17 + 2 * n] == s[2 * n + 3];
    Bytes16(srcPort);
    Bytes16(dstPort);
  }

  lemma Shift(h: seq<byte>, i: nat, j: nat)
    requires i <= j && 14 + j <= |h|
    ensures h[14 + i..14 + j] == h[14..][i..j]
  {
    assert forall k :: 0 <= k < j - i ==> h[14 + i..14 + j][k] == h[14..][i..j][k];
  }

  lemma FourParts(a: seq<byte>, b: seq<byte>, c: seq<byte>, d: seq<byte>, n: nat)
    requires |a| == |b| == n && |c| == |d| == 2
    ensures var s := a + b + c + d;
            && |s| == 2 * n + 4 && s[0..n] == a && s[n..2 * n] == b
            && s[2 * n] == c[0] && s[2 * n + 1] == c[1] && s[2 * n + 2] == d[0] && s[2 * n + 3] == d[1]
  {
  }

  lemma Bytes16(port: int)
    ensures BigEndian(Port16(port)[0], Port16(port)[1]) == port % 65536
  {
  }

  predicate IPPair(src: Addr, dst: Addr) {
    (src.TCP? && dst.TCP?) || (src.UDP? && dst.UDP?)
  }

  lemma PairBlock(src: Addr, dst: Addr)
    requires IPPair(src, dst) && ValidIP(src.ip)
    ensures SameKind(src, dst)
    ensures AddressBlock(src, dst)
         == (if IsV4(src.ip) then To4(src.ip) + To4(dst.ip) else To16(src.ip) + To16(dst.ip))
            + Port16(src.port) + Port16(dst.port)
  {
  }

  /** IPv4: both addresses in 4 bytes each, and then both ports. */
  lemma FourOnWire(src: Addr, dst: Addr, local: bool)
    requires IPPair(src, dst) && IsFour(src.ip) && IsFour(dst.ip)
    ensures HoldsPair(PrintV2(src, dst, local), 4, src.ip[|src.ip| - 4..], dst.ip[|dst.ip| - 4..], src.port, dst.port)
  {
    FourIs(src.ip);
    FourIs(dst.ip);
    HeadOnWire(src, dst, local);
    PairBlock(src, dst);
    PairIs(PrintV2(src, dst, local), 4, To4(src.ip), To4(dst.ip), src.port, dst.port);
  }

  /** IPv6: both in 16 bytes each. */
  lemma SixOnWire(src: Addr, dst: Addr, local: bool)
    requires IPPair(src, dst) && |src.ip| == 16 && !IsFour(src.ip) && ValidIP(dst.ip)
    ensures HoldsPair(PrintV2(src, dst, local), 16, src.ip, Wide(dst.ip), src.port, dst.port)
  {
    FourIs(src.ip);
    FourIs(dst.ip);
    HeadOnWire(src, dst, local);
    PairBlock(src, dst);
    PairIs(PrintV2(src, dst, local), 16, To16(src.ip), To16(dst.ip), src.port, dst.port);
  }

  /** A name in a field of 108 bytes: cut at the end, and filled up with zeros. */
  predicate HoldsName(field: seq<byte>, name: seq<byte>) {
    |field| == 108 && forall i :: 0 <= i < 108 ==> field[i] == if i < |name| then name[i] else 0
  }

  /** Unix: two fields of 108 bytes. */
  lemma NamesOnWire(src: Addr, dst: Addr, local: bool)
    requires src.Unix? && dst.Unix?
    ensures var h := PrintV2(src, dst, local);
            |h| == 230 && HoldsName(h[14..122], src.name) && HoldsName(h[122..230], dst.name)
  {
    HeadOnWire(src, dst, local);
    var h := PrintV2(src, dst, local);
    assert h[14..] == Pad(src.name) + Pad(dst.name);
    assert h[14..122] == h[14..][..108] == Pad(src.name);
    assert h[122..230] == h[14..][108..] == Pad(dst.name);
  }

  /** Every verdict on a line without a line break inside, and whatever follows it. */
  lemma LineVerdict(t: IPText, line: seq<byte>, rest: seq<byte>)
    requires Unbroken(line) && |line| >= 5 && line[..5] == [0x50, 0x52, 0x4F, 0x58, 0x59]
    requires |line| + 2 + |rest| >= 14
    ensures PROXY <= line
    ensures Parse(t, line + [13, 10] + rest)
         == if |line| + 2 > 107 then Rejected(NoCRLF)
            else match ParseV1(t, line)
              case BadLine(e) => Rejected(e)
              case Line(src, dst) => Accepted(src, dst, false, |line| + 2)
  {
    assert PROXY <= line;
    FindLine(line, rest);
  }

  /** Other bytes are rejected, and so are too few. */
  lemma OtherBytes(t: IPText, s: seq<byte>)
    ensures |s| < 14 ==> Parse(t, s) == Rejected(ShortRead)
    ensures |s| >= 14 && s[..5] != [0x50, 0x52, 0x4F, 0x58, 0x59] && !Signed(s) ==>
              Parse(t, s) == Rejected(BadSignature)
  {
  }

  /** How long a block is that begins with the bytes s. */
  function Needed(kind: byte): nat {
    if kind < 0x10 then 14 else if kind < 0x20 then 26 else if kind < 0x30 then 50 else 230
  }

  /** Every verdict on a block, by its bytes 12 and 13 and its length. */
  lemma BlockVerdict(t: IPText, s: seq<byte>)
    requires |s| >= 14 && Signed(s)
    ensures match Parse(t, s)
            case Panicked => s[12] in {0x20, 0x21} && s[13] in {0x01, 0x02}
            case Rejected(e) =>
              e == (if s[12] < 0x20 || s[12] >= 0x30 then BadVersion
                    else if s[12] > 0x21 then BadCommand
                    else if s[13] >= 0x40 then BadFamily
                    else if s[13] % 16 > 2 then BadSockType
                    else ShortRead)
              && (e == ShortRead ==> |s| < Needed(s[13]))
            case Accepted(src, dst, local, used) =>
              && s[12] in {0x20, 0x21} && (local <==> s[12] == 0x20)
              && s[13] in {0x00, 0x10, 0x11, 0x12, 0x20, 0x21, 0x22, 0x30, 0x31, 0x32}
              && used == Needed(s[13]) && (s[13] % 16 == 0 ==> src == dst == NoAddr)
  {
    assert SIGNATURE <= s;
    NotBoth(s);
  }
}
