/** Reading and writing PROXY protocol headers on a connection (proxy.go:115-375). */
module ProxyConns {
  import opened Bytes
  import opened ProxyHeaders
  import opened ProxyTheorems
  import opened ProxyWire

  /**
   An io.Reader that delivers a finite stream in pieces of any size, and then
   reports its end, perhaps together with the last piece.
   */
  class Reader {
    var stream: seq<byte>  // what is still to be delivered

    constructor (stream: seq<byte>)
      ensures this.stream == stream
    {
      this.stream := stream;
    }

    /** Reads into a[lo..hi] and leaves the rest of a alone. */
    method Read(a: array<byte>, lo: nat, hi: nat) returns (n: nat, end: bool)
      requires lo <= hi <= a.Length
      modifies this, a
      ensures n <= hi - lo && n <= |old(stream)| && stream == old(stream)[n..]
      ensures a[..lo + n] == old(a[..lo]) + old(stream)[..n] && a[lo + n..] == old(a[lo + n..])
      ensures end ==> stream == []
      ensures n == 0 && lo < hi ==> end
    {
      n :| 0 <= n <= hi - lo && n <= |stream| && (n == 0 ==> lo == hi || stream == []) by {
        var m := if |stream| < hi - lo then |stream| else hi - lo;
        assert m == 0 ==> lo == hi || stream == [];
      }
      forall i | 0 <= i < n {
        a[lo + i] := stream[i];
      }
      stream := stream[n..];
      end :| (end ==> stream == []) && (n == 0 && lo < hi ==> end);
    }
  }

  /** io.ReadAtLeast into a[lo..hi]; io.ReadFull when min is hi - lo. */
  method ReadAtLeast(r: Reader, a: array<byte>, lo: nat, hi: nat, min: nat) returns (n: nat, ok: bool)
    requires lo <= hi <= a.Length && min <= hi - lo
    modifies r, a
    ensures n <= hi - lo && n <= |old(r.stream)| && r.stream == old(r.stream)[n..]
    ensures a[..lo + n] == old(a[..lo]) + old(r.stream)[..n] && a[lo + n..] == old(a[lo + n..])
    ensures ok == (n >= min) && (!ok ==> r.stream == [])
  {
    ghost var s, a0 := r.stream, a[..];
    n := 0;
    var end := false;
    while n < min && !end
      invariant n <= hi - lo && n <= |s| && r.stream == s[n..]
      invariant a[..lo + n] == a0[..lo] + s[..n] && a[lo + n..] == a0[lo + n..]
      invariant end ==> r.stream == []
      decreases min - n, if end then 0 else 1
    {
      var k;
      k, end := r.Read(a, lo + n, hi);
      TakeFurther(a0[..lo], s, n, k);
      assert a0[lo + n..][k..] == a0[lo + n + k..];
      n := n + k;
    }
    ok := n >= min;
  }

  lemma TakeFurther(p: seq<byte>, s: seq<byte>, n: nat, k: nat)
    requires n + k <= |s|
    ensures p + s[..n] + s[n..][..k] == p + s[..n + k]
    ensures s[n..][k..] == s[n + k..]
  {
  }

  datatype Outcome = Ok(src: Addr, dst: Addr, local: bool) | Err(error: Error) | Panic

  function Verdict(p: Parsed): Outcome {
    match p
    case Accepted(src, dst, local, _) => Ok(src, dst, local)
    case Rejected(e) => Err(e)
    case Panicked => Panic
  }

  /**
   Reads one header. The outcome depends only on the bytes that the connection
   delivers, not on how it splits them, and every byte after an accepted header
   is either returned or still to be delivered.
   */
  method ParseProxyProto(t: IPText, r: Reader) returns (out: Outcome, buf: seq<byte>)
    modifies r
    ensures out == Verdict(Parse(t, old(r.stream)))
    ensures out.Ok? ==> buf + r.stream == old(r.stream)[Parse(t, old(r.stream)).used..]
  {
    var a := new byte[256](_ => 0);
    buf := [];
    ghost var s := r.stream;
    var n, ok := ReadAtLeast(r, a, 0, 256, MIN_HEADER);
    if !ok {
      return Err(ShortRead), [];
    }
    assert a[..n] == s[..n] && a[..n] + r.stream == s;
    if PROXY <= a[..n] {
      assert PROXY <= s;
      out, buf := ParseLine(t, r, a, n, s);
    } else if SIGNATURE <= a[..n] {
      assert SIGNATURE <= s;
      NotBoth(s);
      out, buf := ParseBlock(r, a, n, s);
    } else {
      out := Err(BadSignature);
    }
  }

  /** Version 1: a[..n] has been read of the stream s. */
  method ParseLine(t: IPText, r: Reader, a: array<byte>, n0: nat, ghost s: seq<byte>)
    returns (out: Outcome, buf: seq<byte>)
    requires a.Length == 256 && MIN_HEADER <= n0 <= 256 && PROXY <= s
    requires a[..n0] + r.stream == s && forall i :: n0 <= i < 256 ==> a[i] == 0
    modifies r, a
    ensures out == Verdict(Parse(t, s))
    ensures out.Ok? ==> buf + r.stream == s[Parse(t, s).used..]
  {
    if n0 < V1_LIMIT {
      assert a[..V1_LIMIT] == a[..n0] + a[n0..V1_LIMIT];
      FindIgnores(a[..n0], a[n0..V1_LIMIT]);
    } else {
      assert Window(a[..n0]) == a[..V1_LIMIT];
    }
    assert a[..n0] == s[..n0] && r.stream == s[n0..];
    var n, i := ReadLine(r, a, n0, FindCRLF(a[..V1_LIMIT]), s);
    assert a[..n] + r.stream == s;
    match i
    case None => out, buf := Err(if n >= V1_LIMIT then NoCRLF else ShortRead), [];
    case Some(i) => out, buf := SplitLine(t, a[..n], i, r.stream);
  }

  /** Takes the line off the bytes b that were read; rest is still to be delivered. */
  method SplitLine(t: IPText, b: seq<byte>, i: nat, ghost rest: seq<byte>) returns (out: Outcome, buf: seq<byte>)
    requires |b| >= MIN_HEADER && PROXY <= b + rest && FindCRLF(Window(b + rest)) == Some(i) && i + 2 <= |b|
    ensures out == Verdict(Parse(t, b + rest))
    ensures out.Ok? ==> buf + rest == (b + rest)[Parse(t, b + rest).used..]
  {
    LineWithin(b + rest, i);
    assert b[..i] == (b + rest)[..i];
    match ParseV1(t, b[..i])
    case BadLine(e) => out, buf := Err(e), [];
    case Line(src, dst) =>
      out, buf := Ok(src, dst, false), b[i + 2..];
      assert buf + rest == (b + rest)[i + 2..];
  }

  lemma LineWithin(s: seq<byte>, i: nat)
    requires PROXY <= s && FindCRLF(Window(s)) == Some(i)
    ensures i + 2 <= |s| && PROXY <= s[..i]
  {
    var w := Window(s);
    assert w[i] == 13 && forall k :: 0 <= k < |PROXY| && k < |w| ==> w[k] == PROXY[k];
  }

  /** A CRLF found early stays the first one, and bytes beyond the limit do not matter. */
  lemma WindowGrows(s: seq<byte>, n: nat)
    requires n <= |s|
    ensures FindCRLF(Window(s[..n])).Some? || n >= V1_LIMIT || n == |s|
            ==> FindCRLF(Window(s[..n])) == FindCRLF(Window(s))
  {
    var w := Window(s[..n]);
    if n >= V1_LIMIT || n == |s| {
      assert w == Window(s);
    } else {
      assert Window(s) == w + Window(s)[n..];
      FindExtends(w, Window(s)[n..]);
    }
  }

  /** The first n bytes of the stream s are in a, and the others are still to be delivered. */
  ghost predicate HasRead(r: Reader, a: array<byte>, n: nat, s: seq<byte>)
    reads r, a
  {
    n <= a.Length && n <= |s| && a[..n] == s[..n] && r.stream == s[n..]
  }

  /** Reads on, up to the limit, until a[..n] holds a CRLF. */
  method ReadLine(r: Reader, a: array<byte>, n0: nat, i0: Option<nat>, ghost s: seq<byte>)
    returns (n: nat, i: Option<nat>)
    requires a.Length == 256 && MIN_HEADER <= n0 && HasRead(r, a, n0, s) && i0 == FindCRLF(Window(s[..n0]))
    modifies r, a
    ensures MIN_HEADER <= n && HasRead(r, a, n, s) && i == FindCRLF(Window(s))
    ensures i.Some? ==> i.value + 2 <= n
    ensures i.None? ==> (n >= V1_LIMIT <==> |s| >= V1_LIMIT)
  {
    n, i := n0, i0;
    WindowGrows(s, n);
    while i.None? && n < V1_LIMIT
      invariant MIN_HEADER <= n && HasRead(r, a, n, s)
      invariant i == FindCRLF(Window(s[..n]))
      invariant i.Some? || n >= V1_LIMIT || n == |s| ==> i == FindCRLF(Window(s))
      decreases a.Length - n
    {
      var k := ReadMore(r, a, n, V1_LIMIT, s);
      if k == 0 {
        return;
      }
      n := n + k;
      i := FindAgain(a, n, s[..n]);
      WindowGrows(s, n);
    }
  }

  /** Searches what has been read within the limit. */
  method FindAgain(a: array<byte>, n: nat, ghost p: seq<byte>) returns (i: Option<nat>)
    requires n <= a.Length && n <= V1_LIMIT && a[..n] == p
    ensures i == FindCRLF(Window(p))
  {
    i := FindCRLF(a[..n]);
  }

  /** One Read behind the n bytes of the stream s that a holds already. */
  method ReadMore(r: Reader, a: array<byte>, n: nat, hi: nat, ghost s: seq<byte>) returns (k: nat)
    requires n < hi <= a.Length && HasRead(r, a, n, s)
    modifies r, a
    ensures n + k <= hi && HasRead(r, a, n + k, s)
    ensures k == 0 ==> n == |s|
  {
    var end;
    k, end := r.Read(a, n, hi);
    TakeFurther([], s, n, k);
    assert [] + s[..n] == s[..n] && [] + s[..n + k] == s[..n + k];
  }

  /** Version 2: a[..n] has been read of the stream s. */
  method ParseBlock(r: Reader, a: array<byte>, n0: nat, ghost s: seq<byte>) returns (out: Outcome, buf: seq<byte>)
    requires a.Length == 256 && MIN_HEADER <= n0 <= 256 && SIGNATURE <= s && a[..n0] + r.stream == s
    modifies r, a
    ensures out == Verdict(ParseV2(s))
    ensures out.Ok? ==> buf + r.stream == s[ParseV2(s).used..]
  {
    buf := [];
    assert s[12] == a[12] && s[13] == a[13];
    if a[12] / 16 != 2 {
      return Err(BadVersion), [];
    }
    var cmd := a[12] % 16;
    if cmd > 1 {
      return Err(BadCommand), [];
    }
    var family := a[13] / 16;
    if family > 3 {
      return Err(BadFamily), [];
    }
    var sock := a[13] % 16;
    if sock > 2 {
      return Err(BadSockType), [];
    }
    out, buf := TakeBlock(r, a, n0, cmd == 0, family, sock, s);
  }

  /** The rest of version 2, when the two bytes after the signature are in order. */
  method TakeBlock(r: Reader, a: array<byte>, n0: nat, local: bool, family: nat, sock: nat, ghost s: seq<byte>)
    returns (out: Outcome, buf: seq<byte>)
    requires a.Length == 256 && MIN_HEADER <= n0 <= 256 && a[..n0] + r.stream == s
    requires family <= 3 && sock <= 2
    modifies r, a
    ensures out == Verdict(Block(s, local, family, sock))
    ensures out.Ok? ==> buf + r.stream == s[MIN_HEADER + BlockLen(family)..]
  {
    var n1 := MIN_HEADER + 2 * AddrLen(family) + 2 * PortLen(family);
    var n, ok := FillBlock(r, a, n0, n1, s);
    if !ok {
      return Err(ShortRead), [];
    }
    out, buf := SplitBlock(a[..n], n1, local, family, sock, r.stream);
  }

  /** Reads on until a[..n1] has been read. */
  method FillBlock(r: Reader, a: array<byte>, n0: nat, n1: nat, ghost s: seq<byte>) returns (n: nat, ok: bool)
    requires a.Length == 256 && n0 <= 256 && n1 <= 256 && a[..n0] + r.stream == s
    modifies r, a
    ensures n <= 256 && ok == (|s| >= n1)
    ensures ok ==> n >= n1 && a[..n] + r.stream == s
  {
    n, ok := n0, true;
    if n1 > n0 {
      var k;
      k, ok := ReadAtLeast(r, a, n0, n1, n1 - n0);
      assert a[..n0] + s[n0..][..k] == s[..n0 + k];
      n := n0 + k;
    }
  }

  /** Takes the block off the bytes b that were read; rest is still to be delivered. */
  method SplitBlock(b: seq<byte>, n1: nat, local: bool, family: nat, sock: nat, ghost rest: seq<byte>)
    returns (out: Outcome, buf: seq<byte>)
    requires family <= 3 && sock <= 2 && n1 == MIN_HEADER + BlockLen(family) <= |b|
    ensures out == Verdict(Block(b + rest, local, family, sock))
    ensures out.Ok? ==> buf + rest == (b + rest)[n1..]
  {
    var src, dst := NoAddr, NoAddr;
    if sock != 0 {
      if family == 0 {
        return Panic, [];
      }
      assert b[MIN_HEADER..][..n1 - MIN_HEADER] == (b + rest)[MIN_HEADER..n1];
      src, dst := MakeAddrs(family, sock, b[MIN_HEADER..], (b + rest)[MIN_HEADER..n1]);
    }
    out, buf := Ok(src, dst, local), b[n1..];
    assert buf + rest == (b + rest)[n1..];
  }

  /** The addresses in b, where the slice for the last port runs to the end of b. */
  method MakeAddrs(family: nat, sock: nat, b: seq<byte>, ghost c: seq<byte>) returns (src: Addr, dst: Addr)
    requires 1 <= family <= 3 && 1 <= sock <= 2 && c <= b && |c| == BlockLen(family)
    ensures var (al, pl) := (AddrLen(family), PortLen(family));
            && src == MakeAddr(family, sock, c[..al], c[2 * al..2 * al + pl])
            && dst == MakeAddr(family, sock, c[al..2 * al], c[2 * al + pl..])
  {
    var al, pl := AddrLen(family), PortLen(family);
    src := MakeAddr(family, sock, b[..al], b[2 * al..2 * al + pl]);
    dst := MakeAddr(family, sock, b[al..2 * al], b[2 * al + pl..]);
    SamePart(b, c, 0, al);
    SamePart(b, c, al, 2 * al);
    SamePart(b, c, 2 * al, 2 * al + pl);
    assert b[..al] == b[0..al] && c[..al] == c[0..al];
    SamePort(b, c, family);
  }

  lemma SamePart(b: seq<byte>, c: seq<byte>, i: nat, j: nat)
    requires c <= b && i <= j <= |c|
    ensures b[i..j] == c[i..j]
  {
  }

  /** Of the slice for the last port only the first two bytes are read. */
  lemma SamePort(b: seq<byte>, c: seq<byte>, family: nat)
    requires c <= b && 1 <= family <= 3 && |c| == BlockLen(family)
    ensures var i := 2 * AddrLen(family) + PortLen(family); family != 3 ==> Uint16(b[i..]) == Uint16(c[i..])
  {
  }

  /** The connection given to the handler: first what the parser read too much, then the rest. */
  class ProxyConn {
    const conn: Reader
    const src: Addr
    var buf: seq<byte>

    constructor (conn: Reader, src: Addr, buf: seq<byte>)
      ensures this.conn == conn && this.src == src && this.buf == buf
    {
      this.conn, this.src, this.buf := conn, src, buf;
    }

    function RemoteAddr(): Addr {
      src
    }

    ghost function Remaining(): seq<byte>
      reads this, conn
    {
      buf + conn.stream
    }

    method Read(b: array<byte>) returns (n: nat, end: bool)
      modifies this, conn, b
      ensures n <= b.Length && n <= |old(Remaining())|
      ensures b[..n] == old(Remaining())[..n] && Remaining() == old(Remaining())[n..]
      ensures n == 0 && b.Length > 0 ==> end
      ensures end ==> Remaining() == []
    {
      if buf != [] {
        n := if b.Length < |buf| then b.Length else |buf|;
        forall i | 0 <= i < n {
          b[i] := buf[i];
        }
        buf := buf[n..];
        end := false;
      } else {
        n, end := conn.Read(b, 0, b.Length);
      }
    }
  }

  /** Reads a connection to its end through a buffer of any size. */
  method Drain(c: ProxyConn, size: nat) returns (payload: seq<byte>)
    requires size > 0
    modifies c, c.conn
    ensures payload == old(c.Remaining())
  {
    payload := [];
    var end := false;
    var b := new byte[size](_ => 0);
    while !end
      invariant payload + c.Remaining() == old(c.Remaining())
      invariant end ==> c.Remaining() == []
      invariant fresh(b)
      decreases |c.Remaining()|, if end then 0 else 1
    {
      var n;
      ghost var before := c.Remaining();
      n, end := c.Read(b);
      assert before == before[..n] + before[n..];
      payload := payload + b[..n];
    }
  }

  /** What becomes of a connection. */
  datatype Served =
    | Handled(remote: Addr, received: seq<byte>)  // what the handler sees as its peer, and what it reads
    | ClosedUnread                                // a LOCAL connection
    | Raised(out: Outcome)                        // a panic with the error of the parser, or the parser's own

  /**
   ProxyProtocol.ServeConn with a handler that reads its connection to the end.
   Whatever stream follows an accepted header, and however it is delivered, the
   handler receives all of it and nothing else, and sees the source of the header
   as its peer.
   */
  method ServeConn(t: IPText, r: Reader, size: nat) returns (served: Served)
    requires size > 0
    modifies r
    ensures served == match Parse(t, old(r.stream))
                      case Accepted(src, _, local, used) =>
                        if local then ClosedUnread else Handled(src, old(r.stream)[used..])
                      case Rejected(e) => Raised(Err(e))
                      case Panicked => Raised(Panic)
  {
    var out, buf := ParseProxyProto(t, r);
    if !out.Ok? {
      return Raised(out);
    }
    if out.local {
      return ClosedUnread;
    }
    var c := new ProxyConn(r, out.src, buf);
    var payload := Drain(c, size);
    var remote := c.RemoteAddr();
    served := Handled(remote, payload);
  }

  /** Both printed headers through a connection: the handler reads exactly the payload. */
  method ServePrinted(t: IPText, r: Reader, src: Addr, dst: Addr, v1: bool, ghost payload: seq<byte>, size: nat)
    returns (served: Served)
    requires size > 0
    requires v1 ==> t.Lawful() && src.TCP? && dst.TCP? && ValidIP(src.ip) && ValidIP(dst.ip) && Fits(src) && Fits(dst)
    requires !v1 ==> Printable(src, dst) && Recoverable(src, dst)
    requires r.stream == (if v1 then PrintV1(t, src, dst) else PrintV2(src, dst, false)) + payload
    modifies r
    ensures Verdict(Parse(t, old(r.stream))) == Ok(Normal(src), Normal(dst), false)
    ensures served == Handled(Normal(src), payload)
  {
    ghost var h;
    if v1 {
      h := PrintV1(t, src, dst);
      V1RoundTrip(t, src, dst, payload);
    } else {
      h := PrintV2(src, dst, false);
      V2RoundTrip(t, src, dst, false, payload);
    }
    assert (h + payload)[|h|..] == payload;
    served := ServeConn(t, r, size);
  }

  // ----- printing -----

  /** Appends a header of version 1 to b. */
  method AppendProxyProtoV1(t: IPText, b0: seq<byte>, src: Addr, dst: Addr) returns (b: seq<byte>)
    requires src.TCP? && dst.TCP?
    ensures b == b0 + PrintV1(t, src, dst) && b0 + Opening(src) <= b
  {
    var family := if IsV4(src.ip) then TCP4 else TCP6;
    var (x, y, c, d) := (t.show(src.ip), t.show(dst.ip), Dec(Uint64(src.port)), Dec(Uint64(dst.port)));
    b := b0 + PROXY;
    b := b + SP;
    b := b + family;
    b := b + SP;
    b := b + x;
    b := b + SP;
    b := b + y;
    b := b + SP;
    b := b + c;
    b := b + SP;
    b := b + d;
    b := b + CRLF;
    Grouped(b0, PROXY, SP, family, x, y, c, d, CRLF);
    OpeningIs(t, src, dst);
  }

  lemma Grouped(a: seq<byte>, p: seq<byte>, s: seq<byte>, f: seq<byte>, x: seq<byte>, y: seq<byte>, c: seq<byte>,
                d: seq<byte>, e: seq<byte>)
    ensures a + p + s + f + s + x + s + y + s + c + s + d + e
         == a + (p + s + (f + s + (x + s + (y + s + (c + s + d)))) + e)
  {
    assert x + s + y + s + c + s + d == x + s + (y + s + (c + s + d));
  }

  /** copy(buf, name) into a zeroed buffer of 108 bytes. */
  method CopyName(name: seq<byte>) returns (buf: array<byte>)
    ensures fresh(buf) && buf[..] == Pad(name)
  {
    buf := new byte[NAME_SIZE](_ => 0);
    var k := if |name| < NAME_SIZE then |name| else NAME_SIZE;
    forall i | 0 <= i < k {
      buf[i] := name[i];
    }
  }

  /** What the switch over the kind of address settles. */
  method Fields(src: Addr, dst: Addr)
    returns (family: nat, socktype: nat, srcAddr: seq<byte>, dstAddr: seq<byte>, srcPort: seq<byte>, dstPort: seq<byte>)
    requires SameKind(src, dst)
    ensures family == Family(src) && socktype == SockType(src)
    ensures srcAddr == AddrBytes(src, src) && dstAddr == AddrBytes(src, dst)
    ensures srcPort == PortBytes(src, src) && dstPort == PortBytes(src, dst)
  {
    family, socktype := 0, 0;
    srcAddr, dstAddr, srcPort, dstPort := [], [], [], [];
    var srcIP, dstIP: IP := [], [];
    match src {
      case TCP(ip, port, _) =>
        socktype, srcIP, dstIP := 1, ip, dst.ip;
        srcPort, dstPort := Port16(port), Port16(dst.port);
      case UDP(ip, port, _) =>
        socktype, srcIP, dstIP := 2, ip, dst.ip;
        srcPort, dstPort := Port16(port), Port16(dst.port);
      case Unix(net, name) =>
        family := 3;
        var x := CopyName(name);
        var y := CopyName(dst.name);
        srcAddr, dstAddr := x[..], y[..];
        match net {
          case UnixStream => socktype := 1;
          case UnixDatagram => socktype := 2;
          case UnixOther =>
        }
      case NoAddr =>
    }
    if srcIP != [] {
      if To4(srcIP) != [] {
        family, srcAddr, dstAddr := 1, To4(srcIP), To4(dstIP);
      } else {
        family, srcAddr, dstAddr := 2, To16(srcIP), To16(dstIP);
      }
    }
  }

  /** Appends a header of version 2 to b. */
  method AppendProxyProtoV2(b0: seq<byte>, src: Addr, dst: Addr, local: bool) returns (b: seq<byte>)
    requires SameKind(src, dst)
    ensures b == b0 + PrintV2(src, dst, local)
  {
    var vercmd := 2 * 16;
    if !local {
      vercmd := vercmd + 1;
    }
    var family, socktype, srcAddr, dstAddr, srcPort, dstPort := Fields(src, dst);
    b := AppendParts(b0, vercmd, 16 * family + socktype, srcAddr, dstAddr, srcPort, dstPort);
  }

  /** Appends signature, version, family, addresses and ports. */
  method AppendParts(b0: seq<byte>, vercmd: byte, famsock: byte, srcAddr: seq<byte>, dstAddr: seq<byte>,
                     srcPort: seq<byte>, dstPort: seq<byte>)
    returns (b: seq<byte>)
    ensures b == b0 + (SIGNATURE + [vercmd, famsock] + (srcAddr + dstAddr + srcPort + dstPort))
  {
    b := b0 + SIGNATURE;
    b := b + [vercmd];
    b := b + [famsock];
    b := b + srcAddr;
    b := b + dstAddr;
    b := b + srcPort;
    b := b + dstPort;
    Assemble(b0, SIGNATURE, vercmd, famsock, srcAddr, dstAddr, srcPort, dstPort);
  }

  lemma Assemble(b0: seq<byte>, s: seq<byte>, x: byte, y: byte, p: seq<byte>, q: seq<byte>, u: seq<byte>, v: seq<byte>)
    ensures b0 + s + [x] + [y] + p + q + u + v == b0 + (s + [x, y] + (p + q + u + v))
  {
    assert [x] + [y] == [x, y];
  }
}
