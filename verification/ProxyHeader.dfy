/**
 The PROXY protocol header as a format: what proxy.go prints, and which headers
 it accepts, as functions of the bytes alone.
 */
module ProxyHeaders {
  import opened Bytes

  // ----- addresses -----

  /** A net.IP: 4 or 16 bytes, and nil when empty. */
  type IP = seq<byte>

  datatype Network = UnixStream | UnixDatagram | UnixOther

  datatype Addr =
    | TCP(ip: IP, port: int, zone: string)
    | UDP(ip: IP, port: int, zone: string)
    | Unix(net: Network, name: seq<byte>)
    | NoAddr  // nil, or an address of another kind

  const V4_PREFIX: seq<byte> := [0, 0, 0, 0, 0, 0, 0, 0, 0, 0, 255, 255]

  function To4(ip: IP): IP {
    if |ip| == 4 then ip
    else if |ip| == 16 && V4_PREFIX <= ip then ip[12..]
    else []
  }

  function To16(ip: IP): IP {
    if |ip| == 4 then V4_PREFIX + ip
    else if |ip| == 16 then ip
    else []
  }

  predicate IsV4(ip: IP) {
    To4(ip) != []
  }

  predicate ValidIP(ip: IP) {
    |ip| == 4 || |ip| == 16
  }

  /** net.ParseIP and IP.String, with the law that the standard library promises for them. */
  datatype IPText = IPText(parse: seq<byte> -> Option<IP>, show: IP -> seq<byte>)
  {
    ghost predicate Lawful() {
      && (forall ip: IP :: ValidIP(ip) ==> parse(show(ip)) == Some(To16(ip)))
      && parse(show([])) == None  // a nil IP is shown as <nil>
      && (forall ip: IP :: ValidIP(ip) || ip == [] ==> |show(ip)| <= 39 && PlainWord(show(ip)))
    }
  }

  /** No separator and no line break occurs in the word. */
  predicate PlainWord(w: seq<byte>) {
    forall i :: 0 <= i < |w| ==> w[i] != SPACE && w[i] != 13 && w[i] != 10
  }

  // ----- printing -----

  const PROXY: seq<byte> := [0x50, 0x52, 0x4F, 0x58, 0x59]
  const TCP4: seq<byte> := [0x54, 0x43, 0x50, 0x34]
  const TCP6: seq<byte> := [0x54, 0x43, 0x50, 0x36]
  const SIGNATURE: seq<byte> := [0x0D, 0x0A, 0x0D, 0x0A, 0x00, 0x0D, 0x0A, 0x51, 0x55, 0x49, 0x54, 0x0A]
  const SP: seq<byte> := [SPACE]
  const V1_LIMIT := 107
  const MIN_HEADER := 14
  const NAME_SIZE := 108

  /** uint64(port): a negative port wraps around. */
  function Uint64(port: int): nat {
    port % 0x1_0000_0000_0000_0000
  }

  function LineV1(t: IPText, src: Addr, dst: Addr): seq<byte>
    requires src.TCP? && dst.TCP?
  {
    PROXY + SP + ((if IsV4(src.ip) then TCP4 else TCP6) + SP
    + (t.show(src.ip) + SP + (t.show(dst.ip) + SP + (Dec(Uint64(src.port)) + SP + Dec(Uint64(dst.port))))))
  }

  /** The line of version 1, section 2.1 of the PROXY protocol. */
  function PrintV1(t: IPText, src: Addr, dst: Addr): seq<byte>
    requires src.TCP? && dst.TCP?
  {
    LineV1(t, src, dst) + CRLF
  }

  /** binary.BigEndian.PutUint16 of the low 16 bits. */
  function Port16(port: int): seq<byte> {
    [port / 256 % 256, port % 256]
  }

  function Uint16(b: seq<byte>): nat
    requires |b| >= 2
  {
    b[0] as int * 256 + b[1]
  }

  function Pad(name: seq<byte>): (r: seq<byte>)
    ensures |r| == NAME_SIZE
  {
    if |name| >= NAME_SIZE then name[..NAME_SIZE] else name + seq(NAME_SIZE - |name|, i => 0)
  }

  /** A byte from two half bytes, the high one first. */
  function Nibbles(hi: nat, lo: nat): byte
    requires hi < 16 && lo < 16
  {
    16 * hi + lo
  }

  function SockType(a: Addr): nat {
    match a
    case TCP(_, _, _) => 1
    case UDP(_, _, _) => 2
    case Unix(net, _) => (match net case UnixStream => 1 case UnixDatagram => 2 case UnixOther => 0)
    case NoAddr => 0
  }

  function Family(a: Addr): nat {
    match a
    case Unix(_, _) => 3
    case NoAddr => 0
    case _ => if a.ip == [] then 0 else if IsV4(a.ip) then 1 else 2
  }

  predicate SameKind(a: Addr, b: Addr) {
    match a
    case TCP(_, _, _) => b.TCP?
    case UDP(_, _, _) => b.UDP?
    case Unix(_, _) => b.Unix?
    case NoAddr => true
  }

  function AddrBytes(src: Addr, a: Addr): seq<byte>
    requires SameKind(src, a)
  {
    match Family(src)
    case 0 => []
    case 1 => To4(a.ip)
    case 2 => To16(a.ip)
    case _ => Pad(a.name)
  }

  function PortBytes(src: Addr, a: Addr): seq<byte>
    requires SameKind(src, a)
  {
    if src.TCP? || src.UDP? then Port16(a.port) else []
  }

  function AddressBlock(src: Addr, dst: Addr): seq<byte>
    requires SameKind(src, dst)
  {
    AddrBytes(src, src) + AddrBytes(src, dst) + PortBytes(src, src) + PortBytes(src, dst)
  }

  /** The block of version 2, section 2.2 of the PROXY protocol without its length field. */
  function PrintV2(src: Addr, dst: Addr, local: bool): seq<byte>
    requires SameKind(src, dst)
  {
    SIGNATURE + [Nibbles(2, if local then 0 else 1), Nibbles(Family(src), SockType(src))] + AddressBlock(src, dst)
  }

  // ----- parsing -----

  datatype Error =
    | ShortRead  // io.EOF, io.ErrUnexpectedEOF or a failure of the connection
    | NoCRLF | BadSignature | BadVersion | BadCommand | BadFamily | BadSockType
    | BadV1Family | BadIP | BadPort | ExtraBytes

  datatype Parsed =
    | Accepted(src: Addr, dst: Addr, local: bool, used: nat)
    | Rejected(error: Error)
    | Panicked  // a port is read out of an empty slice

  /** bytes.Index(s, CRLF). */
  function FindCRLF(s: seq<byte>): (r: Option<nat>)
    ensures r.Some? ==> r.value + 2 <= |s| && s[r.value] == 13 && s[r.value + 1] == 10
  {
    if |s| < 2 then None
    else if s[0] == 13 && s[1] == 10 then Some(0)
    else match FindCRLF(s[1..])
      case Some(i) => Some(i + 1)
      case None => None
  }

  /** The bytes before the first space, and those after it. */
  function Word(b: seq<byte>): (r: (seq<byte>, seq<byte>))
    ensures |r.0| + |r.1| <= |b|
  {
    if b == [] then ([], [])
    else if b[0] == SPACE then ([], b[1..])
    else var (w, t) := Word(b[1..]); ([b[0]] + w, t)
  }

  /** strconv.Atoi: an optional sign and decimal digits within 64 bits. */
  function Atoi(s: seq<byte>): Option<int> {
    var neg := s != [] && s[0] == 45;
    var digits := if s != [] && (s[0] == 45 || s[0] == 43) then s[1..] else s;
    if digits == [] then None
    else match DecValue(digits)
      case None => None
      case Some(v) =>
        var n: int := if neg then -(v as int) else v;
        if -0x8000_0000_0000_0000 <= n < 0x8000_0000_0000_0000 then Some(n) else None
  }

  datatype Line = Line(src: Addr, dst: Addr) | BadLine(error: Error)

  function ParseV1(t: IPText, line: seq<byte>): Line
    requires PROXY <= line
  {
    var b := line[|PROXY|..];
    var b := if b != [] && b[0] == SPACE then b[1..] else b;
    var (family, b) := Word(b);
    var (srcIP, b) := Word(b);
    var (dstIP, b) := Word(b);
    var (srcPort, b) := Word(b);
    var (dstPort, b) := Word(b);
    if family != TCP4 && family != TCP6 then BadLine(BadV1Family)
    else if t.parse(srcIP).None? || t.parse(dstIP).None? then BadLine(BadIP)
    else if Atoi(srcPort).None? || Atoi(dstPort).None? then BadLine(BadPort)
    else if b != [] then BadLine(ExtraBytes)
    else Line(TCP(t.parse(srcIP).value, Atoi(srcPort).value, ""), TCP(t.parse(dstIP).value, Atoi(dstPort).value, ""))
  }

  function CutAtNul(name: seq<byte>): seq<byte> {
    if name == [] || name[0] == 0 then [] else [name[0]] + CutAtNul(name[1..])
  }

  /** makeIP: a 16-byte address. */
  function MakeIP(b: seq<byte>): IP {
    if |b| == 4 then V4_PREFIX + b else b
  }

  function MakeAddr(family: nat, sock: nat, addr: seq<byte>, port: seq<byte>): Addr
    requires 1 <= family <= 3 && 1 <= sock <= 2
    requires family != 3 ==> |port| >= 2
  {
    if family == 3 then Unix(if sock == 1 then UnixStream else UnixDatagram, CutAtNul(addr))
    else if sock == 1 then TCP(MakeIP(addr), Uint16(port), "")
    else UDP(MakeIP(addr), Uint16(port), "")
  }

  function AddrLen(family: nat): nat {
    match family
    case 0 => 0
    case 1 => 4
    case 2 => 16
    case _ => NAME_SIZE
  }

  function PortLen(family: nat): nat {
    if family == 1 || family == 2 then 2 else 0
  }

  /** The bytes that follow the 14 fixed ones. */
  function BlockLen(family: nat): nat {
    2 * AddrLen(family) + 2 * PortLen(family)
  }

  function ParseV2(s: seq<byte>): Parsed
    requires SIGNATURE <= s && |s| >= MIN_HEADER
  {
    var (version, cmd, family, sock) := (s[12] / 16, s[12] % 16, s[13] / 16, s[13] % 16);
    if version != 2 then Rejected(BadVersion)
    else if cmd > 1 then Rejected(BadCommand)
    else if family > 3 then Rejected(BadFamily)
    else if sock > 2 then Rejected(BadSockType)
    else Block(s, cmd == 0, family, sock)
  }

  function Block(s: seq<byte>, local: bool, family: nat, sock: nat): Parsed
    requires |s| >= MIN_HEADER && family <= 3 && sock <= 2
  {
    var (al, pl, n) := (AddrLen(family), PortLen(family), MIN_HEADER + BlockLen(family));
    if |s| < n then Rejected(ShortRead)
    else if sock == 0 then Accepted(NoAddr, NoAddr, local, n)
    else if family == 0 then Panicked
    else
      var b := s[MIN_HEADER..n];
      Accepted(MakeAddr(family, sock, b[..al], b[2 * al..2 * al + pl]),
               MakeAddr(family, sock, b[al..2 * al], b[2 * al + pl..]),
               local, n)
  }

  /** The bytes in which a line of version 1 has to end. */
  function Window(s: seq<byte>): seq<byte> {
    if |s| <= V1_LIMIT then s else s[..V1_LIMIT]
  }

  /** What a connection that delivers exactly the bytes s, in any pieces, is taken for. */
  function Parse(t: IPText, s: seq<byte>): (r: Parsed)
    ensures r.Accepted? ==> r.used <= |s|
  {
    if |s| < MIN_HEADER then Rejected(ShortRead)
    else if PROXY <= s then
      match FindCRLF(Window(s))
      case None => Rejected(if |s| < V1_LIMIT then ShortRead else NoCRLF)
      case Some(i) =>
        assert Window(s)[i] == s[i] && forall k :: 0 <= k < |PROXY| ==> s[k] == PROXY[k];
        match ParseV1(t, s[..i])
          case BadLine(e) => Rejected(e)
          case Line(src, dst) => Accepted(src, dst, false, i + 2)
    else if SIGNATURE <= s then ParseV2(s)
    else Rejected(BadSignature)
  }
}
