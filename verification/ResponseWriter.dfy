/** The response writer of the HTTP server (httpx/server.go:167-206, 284-469). */
module ResponseWriters {
  import opened Bytes
  import opened Chunked
  import opened Sinks
  import opened ChunkWriters
  import opened Headers
  import opened Lex

  datatype Error = NoError | SinkError | BadContentLength | BodyNotAllowed | ContentLengthExceeded | Hijacked

  const CONTENT_LENGTH := "Content-Length"
  const TRANSFER_ENCODING := "Transfer-Encoding"
  const DATE := "Date"
  const MAX_UINT64: nat := 0xFFFF_FFFF_FFFF_FFFF

  /** The bytes of a text, with 0 for everything outside of ASCII. */
  function Ascii(s: string): seq<byte> {
    seq(|s|, i requires 0 <= i < |s| => if s[i] < '\U{80}' then s[i] as int else 0)
  }

  /** strconv.ParseUint(s, 10, 64). */
  function ParseUint(s: string): Option<nat> {
    if s == "" then None
    else match DecValue(Ascii(s))
      case Some(v) => if v <= MAX_UINT64 then Some(v) else None
      case None => None
  }

  /** How the server decides whether a response has a body. */
  predicate AllowsBody(status: int) {
    status >= 200 && status != 204 && status != 304
  }

  /** The statuses whose responses have no body. */
  predicate Silent(status: int) {
    status < 200 || status == 204 || status == 304
  }

  /** The number that decimal digits stand for, if 64 bits hold it. */
  lemma ParseUintOfDigits(s: string, n: nat)
    requires Ascii(s) == Dec(n)
    ensures ParseUint(s) == if n < 0x1_0000_0000_0000_0000 then Some(n) else None
  {
    DecValueOfDec(n);
  }

  function Min(a: nat, b: nat): nat {
    if a < b then a else b
  }

  /** How the server renders a status line and a set of fields; net/http decides the details. */
  datatype Render = Render(statusLine: int -> seq<byte>, fields: Header -> seq<byte>, date: string)

  /** The fields that are sent for a status: the framing fields are the server's to choose. */
  function SentHeader(status: int, h: Header, date: string): Header {
    var framed :=
      if !AllowsBody(status) then h - {TRANSFER_ENCODING, CONTENT_LENGTH}
      else if CONTENT_LENGTH in h then h
      else h[TRANSFER_ENCODING := ["chunked"]];
    if DATE in framed then framed else framed[DATE := [date]]
  }

  /**
   How the header h0 of a handler is sent: nothing about a body for a status without
   one, the declared length or else the chunked coding for any other, a date, and
   every other field as it is.
   */
  predicate IsSent(h0: Header, status: int, h: Header) {
    && (Silent(status) ==> CONTENT_LENGTH !in h && TRANSFER_ENCODING !in h)
    && (!Silent(status) && CONTENT_LENGTH in h0 ==>
         CONTENT_LENGTH in h && h[CONTENT_LENGTH] == h0[CONTENT_LENGTH]
         && (TRANSFER_ENCODING in h <==> TRANSFER_ENCODING in h0)
         && (TRANSFER_ENCODING in h ==> h[TRANSFER_ENCODING] == h0[TRANSFER_ENCODING]))
    && (!Silent(status) && CONTENT_LENGTH !in h0 ==>
         CONTENT_LENGTH !in h && TRANSFER_ENCODING in h && h[TRANSFER_ENCODING] == ["chunked"])
    && DATE in h && (DATE in h0 ==> h[DATE] == h0[DATE]) && (DATE !in h0 ==> |h[DATE]| == 1)
    && (forall k :: k != CONTENT_LENGTH && k != TRANSFER_ENCODING && k in h0 ==> k in h && h[k] == h0[k])
    && (forall k :: k in h ==> k in h0 || k == DATE || k == TRANSFER_ENCODING)
  }

  lemma HeaderIsSent(status: int, h: Header, date: string)
    ensures IsSent(h, status, SentHeader(status, h, date))
    ensures DATE !in h ==> SentHeader(status, h, date)[DATE] == [date]
    ensures status < 200 || status in {204, 304} ==>
              CONTENT_LENGTH !in SentHeader(status, h, date) && TRANSFER_ENCODING !in SentHeader(status, h, date)
  {
  }

  function HeadBlock(r: Render, status: int, h: Header): seq<byte> {
    r.statusLine(status) + r.fields(SentHeader(status, h, r.date)) + CRLF
  }

  /** The length that the handler declared, if it declared one that can be read. */
  function DeclaredLength(h: Header): (r: Option<nat>)
  {
    if CONTENT_LENGTH in h && h[CONTENT_LENGTH] != [] then ParseUint(h[CONTENT_LENGTH][0]) else None
  }

  predicate GoodHeader(h: Header) {
    CONTENT_LENGTH in h ==> DeclaredLength(h).Some?
  }

  /** Calls that a handler makes. */
  datatype Call = CallWriteHeader(status: int) | CallWrite(p: seq<byte>) | CallFlush

  /** The status the calls settle on: the first call decides, and 200 is the default. */
  function FinalStatus(calls: seq<Call>): int {
    if calls == [] then 200
    else match calls[0]
      case CallWriteHeader(s) => if s == 0 then 200 else s
      case _ => 200
  }

  /** Every byte given to Write, in order. */
  function Written(calls: seq<Call>): seq<byte> {
    if calls == [] then []
    else
      var last := calls[|calls| - 1];
      Written(calls[..|calls| - 1]) + if last.CallWrite? then last.p else []
  }

  lemma Associate(a: seq<byte>, b: seq<byte>, c: seq<byte>)
    ensures a + b + c == a + (b + c)
  {
  }

  lemma TakeNext(out: seq<byte>, p: seq<byte>, sent: nat, n: nat, k: nat)
    requires k <= n && sent + n <= |p|
    ensures out + p[..sent] + p[sent..][..n][..k] == out + p[..sent + k] && p[sent..][k..] == p[sent + k..]
  {
  }

  /** How many of the first total bytes of a body may be sent. */
  function Deliverable(status: int, h: Header, total: nat): nat {
    if Silent(status) then 0
    else match DeclaredLength(h)
      case Some(limit) => Min(limit, total)
      case None => total
  }

  lemma GrowPrefix(body: seq<byte>, p: seq<byte>, limit: nat, k: nat)
    requires k <= |p|
    ensures body + p[..k] <= body + p
    ensures k == Min(|p|, limit - Min(limit, |body|)) ==>
              body[..Min(limit, |body|)] + p[..k] == (body + p)[..Min(limit, |body + p|)]
  {
  }

  class ResponseWriter {
    const conn: Sink
    const render: Render
    var header: Header
    var status: int
    var err: Error
    var remain: nat    // bytes that the declared length still allows
    var hasBody: bool
    var chunked: bool
    const cw: ChunkWriter

    ghost const start: seq<byte>    // what the connection held before the response
    ghost const header0: Header     // the header as the handler left it
    ghost var body: seq<byte>       // every byte given to Write

    /** The state of a writer that was not hijacked. */
    ghost predicate Valid()
      reads this, conn, cw, cw.w, cw.b
    {
      && GoodHeader(header0)
      && cw.w == conn && cw.b.Length == BUFFER_SIZE
      && (err != NoError ==> conn.failed && err == SinkError && status != 0)
      && if status == 0 then Fresh() else Started()
    }

    ghost predicate Fresh()
      reads this, conn
    {
      && header == header0 && !chunked && !hasBody && body == []
      && if conn.failed then conn.out <= start else conn.out == start
    }

    ghost function Head(): seq<byte>
      reads this
    {
      start + HeadBlock(render, status, header0)
    }

    /** The bytes of the body that wait in the chunk writer. */
    ghost function Pending(): (r: seq<byte>)
      reads this, cw, cw.b
      ensures |r| <= BUFFER_SIZE
    {
      if status != 0 && chunked && cw.n <= cw.b.Length == BUFFER_SIZE then cw.b[..cw.n] else []
    }

    ghost predicate Usable()
      reads this, conn, cw, cw.w, cw.b
    {
      Valid() || (err == Hijacked && status != 0)
    }

    /** The header block has been sent, and the body follows in one of three framings. */
    ghost predicate Started()
      requires GoodHeader(header0)
      reads this, conn, cw, cw.w, cw.b
    {
      && hasBody == AllowsBody(status)
      && chunked == (hasBody && CONTENT_LENGTH !in header0)
      && if chunked then
           && cw.Valid() && cw.base == Head() && cw.data == body
         else if hasBody then
           var sent := Min(DeclaredLength(header0).value, |body|);
           if conn.failed then conn.out <= Head() + body[..sent]
           else conn.out == Head() + body[..sent] && remain == DeclaredLength(header0).value - sent
         else
           if conn.failed then conn.out <= Head() else conn.out == Head()
    }

    constructor (conn: Sink, render: Render, header: Header)
      requires GoodHeader(header)
      requires !conn.failed
      ensures Valid() && status == 0 && err == NoError
      ensures this.conn == conn && this.render == render && start == conn.out && header0 == header && body == []
      ensures fresh(cw) && fresh(cw.b)
    {
      this.conn, this.render, this.header, this.header0, this.start := conn, render, header, header, conn.out;
      status, err, remain, hasBody, chunked, body := 0, NoError, 0, false, false, [];
      cw := new ChunkWriter(conn);
    }

    /** Writes the status line, the fields and the empty line, and stops at the first error. */
    method SendHead() returns (bad: bool)
      modifies conn
      ensures bad == conn.failed
      ensures var head := render.statusLine(status) + render.fields(header) + CRLF;
              if bad then conn.out <= old(conn.out) + head else conn.out == old(conn.out) + head
      ensures old(conn.failed) ==> conn.failed && conn.out == old(conn.out)
    {
      var l, f := render.statusLine(status), render.fields(header);
      ghost var out0, head := conn.out, l + f + CRLF;
      ghost var k;
      k, bad := conn.Write(l);
      if bad {
        assert l[..k] <= head;
        return;
      }
      k, bad := conn.Write(f);
      assert conn.out == out0 + (l + f[..k]);
      if bad {
        assert l + f[..k] <= head;
        return;
      }
      k, bad := conn.Write(CRLF);
      assert conn.out == out0 + (l + f + CRLF[..k]);
      assert l + f + CRLF[..k] <= head;
    }

    /** Sends the header block of a response that has not started. */
    method SendBlock() returns (bad: bool)
      requires header == SentHeader(status, header0, render.date)
      requires if conn.failed then conn.out <= start else conn.out == start
      modifies conn
      ensures bad == conn.failed
      ensures if bad then conn.out <= Head() else conn.out == Head()
      ensures old(conn.failed) ==> conn.failed && conn.out == old(conn.out)
    {
      bad := SendHead();
    }

    /** Settles the status, and with it how the body will be framed. */
    method ChooseFraming(code: int)
      requires GoodHeader(header) && !chunked && code != 0
      modifies this`header, this`status, this`remain, this`hasBody, this`chunked
      ensures status == code && hasBody == AllowsBody(code)
      ensures header == SentHeader(code, old(header), render.date)
      ensures chunked == (hasBody && CONTENT_LENGTH !in old(header))
      ensures hasBody && !chunked ==> DeclaredLength(old(header)) == Some(remain)
    {
      status := code;
      hasBody := AllowsBody(status);
      if hasBody {
        if CONTENT_LENGTH !in header {
          header := header[TRANSFER_ENCODING := ["chunked"]];
          chunked := true;
        } else {
          match ParseUint(header[CONTENT_LENGTH][0])
          case Some(v) => remain := v;
          case None => assert false;
        }
      } else {
        header := header - {TRANSFER_ENCODING, CONTENT_LENGTH};
      }
      if DATE !in header {
        header := header[DATE := [render.date]];
      }
    }

    /** Sends the header block once; later calls do nothing. */
    method WriteHeader(code: int)
      requires Usable()
      modifies this`header, this`status, this`err, this`remain, this`hasBody, this`chunked, conn, cw
      ensures status != 0 && (old(Valid()) ==> Valid())
      ensures chunked ==> cw.closed == (old(chunked) && old(cw.closed))
      ensures old(status) != 0 ==> unchanged(this) && unchanged(conn) && unchanged(cw)
      ensures old(status) == 0 ==> status == if code == 0 then 200 else code
      ensures old(status) == 0 && !conn.failed ==> conn.out == Head()
      ensures old(status) == 0 && chunked ==> cw.n == 0
      ensures old(status) == 0 ==> IsSent(old(header), status, header)
      ensures old(conn.failed) ==> conn.failed && conn.out == old(conn.out)
    {
      if status != 0 {
        return;
      }
      ChooseFraming(if code == 0 then 200 else code);
      StartBody();
      HeaderIsSent(status, header0, render.date);
    }

    /** Sends the header block, and sets up the framing that was chosen. */
    method StartBody()
      requires GoodHeader(header0) && cw.w == conn && cw.b.Length == BUFFER_SIZE
      requires err == NoError && status != 0 && body == [] && header == SentHeader(status, header0, render.date)
      requires hasBody == AllowsBody(status) && chunked == (hasBody && CONTENT_LENGTH !in header0)
      requires hasBody && !chunked ==> DeclaredLength(header0) == Some(remain)
      requires if conn.failed then conn.out <= start else conn.out == start
      modifies this`err, conn, cw
      ensures Valid() && (!conn.failed ==> conn.out == Head())
      ensures chunked ==> cw.n == 0 && !cw.closed
      ensures old(conn.failed) ==> conn.failed && conn.out == old(conn.out)
    {
      var bad := SendBlock();
      if bad {
        err := SinkError;
      }
      if chunked {
        cw.Start(Head());
      }
    }

    /** After an error nothing more is sent, and the state no longer changes. */
    twostate predicate Inert()
      reads this, conn, cw, cw.b
    {
      unchanged(this) && unchanged(conn) && unchanged(cw) && unchanged(cw.b)
    }

    /** Writes to the body, and returns how many bytes of p were taken. */
    method Write(p: seq<byte>) returns (n: nat, e: Error)
      requires Usable()
      requires chunked ==> !cw.closed
      modifies this`header, this`status, this`err, this`remain, this`hasBody, this`chunked, this`body, conn, cw, cw.b
      ensures old(err) != NoError ==> Inert() && e == err && n == 0
      ensures old(err) == NoError ==> Valid() && body == old(body) + p && n <= |p|
      ensures old(err) == NoError && !conn.failed && !chunked ==>
                n == Deliverable(status, header0, |body|) - Deliverable(status, header0, |old(body)|)
      ensures old(err) == NoError && !conn.failed && chunked ==>
                n == Counted(old(Pending()), p)
      ensures old(err) == NoError ==> status == if old(status) == 0 then 200 else old(status)
      ensures chunked ==> !cw.closed
      ensures old(conn.failed) ==> conn.failed && conn.out == old(conn.out)
      ensures old(err) == NoError && !conn.failed ==>
                e == if Silent(status) then BodyNotAllowed
                     else if p != [] && DeclaredLength(header0).Some? && |body| > DeclaredLength(header0).value
                     then ContentLengthExceeded else NoError
    {
      if err != NoError {
        return 0, err;
      }
      ghost var pending := Pending();
      WriteHeader(0);
      assert Pending() == pending;
      n, e := WriteBody(p);
    }

    /** The part of Write that comes after the header block. */
    method WriteBody(p: seq<byte>) returns (n: nat, e: Error)
      requires Valid() && status != 0
      requires chunked ==> !cw.closed
      modifies this`err, this`remain, this`body, conn, cw, cw.b
      ensures Valid() && body == old(body) + p && n <= |p|
      ensures !conn.failed && !chunked ==>
                n == Deliverable(status, header0, |body|) - Deliverable(status, header0, |old(body)|)
      ensures !conn.failed && chunked ==> n == Counted(old(Pending()), p)
      ensures cw.closed == old(cw.closed)
      ensures old(conn.failed) ==> conn.failed && conn.out == old(conn.out)
      ensures !conn.failed ==>
                e == if Silent(status) then BodyNotAllowed
                     else if p != [] && DeclaredLength(header0).Some? && |body| > DeclaredLength(header0).value
                     then ContentLengthExceeded else NoError
    {
      if !hasBody {
        body := body + p;
        return 0, BodyNotAllowed;
      }
      if chunked {
        var bad;
        n, bad := cw.Write(p);
        body := body + p;
        e := if bad then SinkError else NoError;
      } else {
        n, e := WriteFixed(p);
        if e == ContentLengthExceeded {
          return;
        }
      }
      err := e;
    }

    method WriteFixed(p: seq<byte>) returns (n: nat, e: Error)
      requires GoodHeader(header0) && Started() && hasBody && !chunked
      modifies this`remain, this`body, conn
      ensures Started() && body == old(body) + p && n <= |p|
      ensures !conn.failed ==>
                n == Deliverable(status, header0, |body|) - Deliverable(status, header0, |old(body)|)
      ensures old(conn.failed) ==> conn.failed && conn.out == old(conn.out)
      ensures e in {NoError, SinkError, ContentLengthExceeded} && (e == SinkError ==> conn.failed)
      ensures !conn.failed ==>
                (e == ContentLengthExceeded <==> p != [] && |body| > DeclaredLength(header0).value)
    {
      ghost var head := Head();
      ghost var limit := DeclaredLength(header0).value;
      ghost var was := Min(limit, |body|);
      n, e := WriteDeclared(p);
      GrowPrefix(body, p, limit, n);
      Associate(head, body[..was], p[..n]);
      body := body + p;
    }

    /** Writes p as far as the declared length still allows. */
    method WriteDeclared(p: seq<byte>) returns (sent: nat, e: Error)
      modifies this`remain, conn
      ensures sent <= |p| && conn.out == old(conn.out) + p[..sent] && remain == old(remain) - sent
      ensures old(conn.failed) ==> conn.failed && sent == 0
      ensures e in {NoError, SinkError, ContentLengthExceeded} && (e == SinkError ==> conn.failed)
      ensures !conn.failed ==> sent == Min(|p|, old(remain))
      ensures !conn.failed ==> (e == ContentLengthExceeded <==> |p| > old(remain))
    {
      var b := p;
      sent, e := 0, NoError;
      while b != [] && e == NoError
        invariant sent + |b| == |p| && b == p[sent..]
        invariant conn.out == old(conn.out) + p[..sent] && remain == old(remain) - sent
        invariant old(conn.failed) ==> conn.failed && sent == 0
        invariant e in {NoError, SinkError} && (e == SinkError ==> conn.failed)
        decreases |b|, if e == NoError then 1 else 0
      {
        if remain == 0 {
          e := ContentLengthExceeded;
          return;
        }
        var n1 := Min(|b|, remain);
        var k, bad := conn.Write(b[..n1]);
        TakeNext(old(conn.out), p, sent, n1, k);
        b := b[k..];
        sent := sent + k;
        remain := remain - k;
        if bad {
          e := SinkError;
        }
      }
    }

    method Flush()
      requires Usable()
      modifies this`header, this`status, this`err, this`remain, this`hasBody, this`chunked, conn, cw, cw.b
      ensures old(err) != NoError ==> Inert()
      ensures old(err) == NoError ==> Valid()
      ensures old(err) == NoError ==> status == if old(status) == 0 then 200 else old(status)
      ensures chunked ==> cw.closed == (old(chunked) && old(cw.closed))
      ensures old(conn.failed) ==> conn.failed && conn.out == old(conn.out)
      ensures old(err) == NoError && !conn.failed && chunked ==> cw.n == 0
    {
      if err == NoError {
        WriteHeader(0);
        if err == NoError {
          FlushBody();
        }
      }
    }

    /** The part of Flush that comes after the header block. */
    method FlushBody()
      requires Valid() && status != 0 && err == NoError
      modifies this`err, conn, cw, cw.b
      ensures Valid()
      ensures cw.closed == old(cw.closed)
      ensures old(conn.failed) ==> conn.failed && conn.out == old(conn.out)
      ensures !conn.failed && chunked ==> cw.n == 0
    {
      var bad;
      if chunked {
        bad := cw.Flush();
        if bad {
          err := SinkError;
          return;
        }
      }
      bad := conn.Flush();
      err := if bad then SinkError else NoError;
    }

    /** Hands the connection over: what is buffered is sent first, and nothing is sent after. */
    method Hijack() returns (e: Error)
      requires Usable()
      modifies this`err, this`status, conn, cw, cw.b
      ensures old(err) != NoError ==> Inert() && e == err
      ensures old(err) == NoError && e == NoError ==> err == Hijacked && status == 101
      ensures old(err) == NoError && e != NoError ==> Valid() && err == e && conn.failed
      ensures !chunked ==> unchanged(conn)
      ensures old(err) == NoError && e == NoError && chunked && !conn.failed ==>
                conn.out == old(Head()) + Encode(cw.chunks) + (if cw.closed then LAST_CHUNK else [])
                && Concat(cw.chunks) == body
    {
      if err != NoError {
        return err;
      }
      if chunked {
        var bad := cw.Flush();
        if bad {
          err := SinkError;
          return err;
        }
      }
      status := 101;
      err := Hijacked;
      return NoError;
    }

    method Close()
      requires Usable()
      requires chunked ==> !cw.closed
      modifies this`header, this`status, this`err, this`remain, this`hasBody, this`chunked, conn, cw, cw.b
      ensures old(err) != NoError || !chunked ==> Inert()
      ensures status == old(status)
      ensures old(err) == NoError ==> Valid() && (chunked ==> cw.closed)
      ensures old(conn.failed) ==> conn.failed && conn.out == old(conn.out)
    {
      if chunked {
        WriteHeader(0);
        if err == NoError {
          var bad := cw.Close();
          err := if bad then SinkError else NoError;
        }
      }
    }
  }

  /** The bytes after the header block are the body that the calls asked for. */
  ghost predicate FramesBody(h: Header, status: int, data: seq<byte>, sent: seq<byte>)
    requires GoodHeader(h)
  {
    if Silent(status) then sent == []
    else if CONTENT_LENGTH in h then sent == data[..Min(DeclaredLength(h).value, |data|)]
    else Decode(sent) == Done(data, [])
  }

  /** The bytes after the header block are a correct start of that body, and no more than it. */
  ghost predicate StartsBody(h: Header, status: int, data: seq<byte>, sent: seq<byte>)
    requires GoodHeader(h)
  {
    if Silent(status) then sent == []
    else if CONTENT_LENGTH in h then sent <= data[..Min(DeclaredLength(h).value, |data|)]
    else Decode(sent) != Malformed && Decode(sent).data <= data && (Decode(sent).Done? ==> Decode(sent).data == data)
  }

  // ----- how a receiver delimits the body -----

  /** Coded and Invalid: the receiver finds other data than the chunks carry, or has to give up. */
  datatype Framing = NoBody | ChunkedBody | Length(n: nat) | UntilClose | Coded | Invalid

  const CHUNKED := "chunked"

  /** After these requests a response has no body whatever its header says. */
  predicate Bodiless(verb: string, status: int) {
    verb == "HEAD" || (verb == "CONNECT" && 200 <= status < 300)
  }

  /** Informational responses and the statuses 204 and 304 have none either. */
  predicate NoBodyStatus(status: int) {
    100 <= status < 200 || status == 204 || status == 304
  }

  /** A line of the header is about the field with the given name, which a receiver reads without regard to case. */
  ghost predicate IsLine(h: Header, k: string, i: int, name: string) {
    k in h && 0 <= i < |h[k]| && SameToken(k, name)
  }

  predicate Blank(v: string) {
    forall i :: 0 <= i < |v| ==> IsOWS(v[i]) || v[i] == ','
  }

  /** A line that names a transfer coding. */
  ghost predicate IsCoding(h: Header, k: string, i: int) {
    IsLine(h, k, i, TRANSFER_ENCODING) && !Blank(h[k][i])
  }

  /** The only transfer coding is chunked. */
  ghost predicate OnlyChunked(h: Header) {
    exists k, i ::
      && IsCoding(h, k, i) && SameToken(Trim(h[k][i]), CHUNKED)
      && forall l, j :: IsCoding(h, l, j) ==> l == k && j == i
  }

  /** Every line about the length holds the number n. */
  ghost predicate AllLengths(h: Header, n: nat) {
    forall k, i :: IsLine(h, k, i, CONTENT_LENGTH) ==> ParseUint(Trim(h[k][i])) == Some(n)
  }

  /** The framing that the lines of a header announce: Transfer-Encoding overrides Content-Length. */
  ghost function FromLines(h: Header): Framing {
    if exists k, i :: IsCoding(h, k, i) then if OnlyChunked(h) then ChunkedBody else Coded
    else if !exists k, i :: IsLine(h, k, i, CONTENT_LENGTH) then UntilClose
    else if n: nat :| AllLengths(h, n) then Length(n)
    else Invalid
  }

  /**
   The framing that a header announces to an HTTP/1.1 receiver, in the response to
   a request with the given method, after section 3.3.3 of RFC 7230: a response
   to HEAD, and a successful one to CONNECT, has no body whatever it announces.
   */
  ghost function Announced(verb: string, status: int, h: Header): Framing {
    if Bodiless(verb, status) || NoBodyStatus(status) then NoBody else FromLines(h)
  }

  /** The framing in which the body is sent when the handler set the header h. */
  function Used(status: int, h: Header): Framing
    requires GoodHeader(h)
  {
    if !AllowsBody(status) then NoBody
    else if CONTENT_LENGTH in h then Length(DeclaredLength(h).value)
    else ChunkedBody
  }

  /** The handler's header says nothing else about the framing, in whatever spelling. */
  ghost predicate Clear(h: Header)
    requires GoodHeader(h)
  {
    if CONTENT_LENGTH in h then
      AllLengths(h, DeclaredLength(h).value) && forall k, i :: !IsCoding(h, k, i)
    else
      forall k, i :: IsCoding(h, k, i) ==> k == TRANSFER_ENCODING
  }

  lemma {:induction false} DigitsOnly(s: seq<byte>)
    requires DecValue(s).Some?
    ensures forall i :: 0 <= i < |s| ==> IsDigit(s[i])
  {
    if s != [] {
      DigitsOnly(s[..|s| - 1]);
    }
  }

  lemma NumberIsTrimmed(s: string)
    requires ParseUint(s).Some?
    ensures Trim(s) == s
  {
    DigitsOnly(Ascii(s));
    assert IsDigit(Ascii(s)[0]) && IsDigit(Ascii(s)[|s| - 1]);
    TrimOfTrimmed(s);
  }

  lemma FieldNames()
    ensures SameToken(TRANSFER_ENCODING, TRANSFER_ENCODING) && SameToken(CONTENT_LENGTH, CONTENT_LENGTH)
    ensures !SameToken(DATE, TRANSFER_ENCODING) && !SameToken(DATE, CONTENT_LENGTH)
    ensures SameToken(CHUNKED, CHUNKED) && Trim(CHUNKED) == CHUNKED && !Blank(CHUNKED)
  {
    TrimOfTrimmed(CHUNKED);
    assert !IsOWS(CHUNKED[0]) && CHUNKED[0] != ',';
  }

  /** The date leaves the framing alone. */
  lemma DateIsNoFraming(h: Header, date: seq<string>, name: string)
    requires !SameToken(DATE, name)
    ensures forall k, i :: IsLine(h[DATE := date], k, i, name) <==> IsLine(h, k, i, name)
    ensures forall k, i :: IsLine(h, k, i, name) ==> h[DATE := date][k] == h[k]
  {
  }

  /** The header announces the framing that is used exactly when the handler's header is clear about it. */
  lemma FramingIsAnnounced(verb: string, status: int, h: Header, date: string)
    requires GoodHeader(h)
    ensures Announced(verb, status, SentHeader(status, h, date)) == Used(status, h)
       <==> || NoBodyStatus(status)
            || (status < 100 && Bodiless(verb, status))
            || (status >= 200 && !Bodiless(verb, status) && Clear(h))
  {
    if !Silent(status) && !Bodiless(verb, status) {
      var framed := if CONTENT_LENGTH in h then h else h[TRANSFER_ENCODING := [CHUNKED]];
      var sent := SentHeader(status, h, date);
      FieldNames();
      DateIsNoFraming(framed, [date], TRANSFER_ENCODING);
      DateIsNoFraming(framed, [date], CONTENT_LENGTH);
      if CONTENT_LENGTH in h {
        LengthIsAnnounced(h, sent);
      } else {
        ChunksAreAnnounced(h, sent);
      }
    }
  }

  /** Both headers have the same lines about the framing. */
  ghost predicate SameFraming(h: Header, sent: Header) {
    && (forall k, i :: IsLine(sent, k, i, TRANSFER_ENCODING) <==> IsLine(h, k, i, TRANSFER_ENCODING))
    && (forall k, i :: IsLine(sent, k, i, CONTENT_LENGTH) <==> IsLine(h, k, i, CONTENT_LENGTH))
    && (forall k, i :: IsLine(h, k, i, TRANSFER_ENCODING) ==> sent[k] == h[k])
    && (forall k, i :: IsLine(h, k, i, CONTENT_LENGTH) ==> sent[k] == h[k])
  }

  lemma LengthIsAnnounced(h: Header, sent: Header)
    requires GoodHeader(h) && CONTENT_LENGTH in h && SameFraming(h, sent)
    ensures FromLines(sent) == Length(DeclaredLength(h).value) <==> Clear(h)
  {
    FieldNames();
    NumberIsTrimmed(h[CONTENT_LENGTH][0]);
    assert IsLine(h, CONTENT_LENGTH, 0, CONTENT_LENGTH);
    assert forall k, i :: IsCoding(sent, k, i) <==> IsCoding(h, k, i);
    assert forall n: nat :: AllLengths(sent, n) <==> AllLengths(h, n);
    assert forall n: nat :: AllLengths(h, n) ==> n == DeclaredLength(h).value;
  }

  lemma ChunksAreAnnounced(h: Header, sent: Header)
    requires CONTENT_LENGTH !in h && SameFraming(h[TRANSFER_ENCODING := [CHUNKED]], sent)
    ensures FromLines(sent) == ChunkedBody <==> Clear(h)
  {
    FieldNames();
    var framed := h[TRANSFER_ENCODING := [CHUNKED]];
    assert IsLine(framed, TRANSFER_ENCODING, 0, TRANSFER_ENCODING);
    assert sent[TRANSFER_ENCODING] == [CHUNKED];
    assert IsCoding(sent, TRANSFER_ENCODING, 0);
    assert forall k, i :: k != TRANSFER_ENCODING ==> (IsCoding(sent, k, i) <==> IsCoding(h, k, i));
    assert forall i :: IsCoding(sent, TRANSFER_ENCODING, i) ==> i == 0;
  }

  /**
   Takes a body off the bytes s of a connection that stays open: its data, and
   the bytes that are left for the next response.
   */
  function Receive(f: Framing, s: seq<byte>): Option<(seq<byte>, seq<byte>)> {
    match f
    case NoBody => Some(([], s))
    case ChunkedBody => (match Decode(s) case Done(data, rest) => Some((data, rest)) case _ => None)
    case Length(n) => if |s| >= n then Some((s[..n], s[n..])) else None
    case _ => None
  }

  /** The data that the handler has a receiver expect. */
  function Expected(verb: string, status: int, h: Header, data: seq<byte>): seq<byte>
    requires GoodHeader(h)
  {
    if Bodiless(verb, status) || Silent(status) then []
    else if CONTENT_LENGTH in h then data[..Min(DeclaredLength(h).value, |data|)]
    else data
  }

  /**
   A receiver takes exactly the expected data off the connection and leaves the
   bytes t behind them alone, exactly under this condition. A status without a
   body is right after any request. The writer does not look at the method: after
   HEAD, and for success after CONNECT, it is right only if it sends nothing, because
   the declared length or the data are empty. Otherwise the header has to be clear,
   and a declared length must have been reached. A status below 100 has no body for
   the server only, unless another spelling of the length says so.
   */
  lemma ReceiverTakesBody(verb: string, status: int, h: Header, date: string, data: seq<byte>, sent: seq<byte>,
                          t: seq<byte>)
    requires GoodHeader(h) && FramesBody(h, status, data, sent)
    ensures Receive(Announced(verb, status, SentHeader(status, h, date)), sent + t)
              == Some((Expected(verb, status, h, data), t))
       <==> if NoBodyStatus(status) then true
            else if status < 100 then Bodiless(verb, status) || FromLines(SentHeader(status, h, date)) == Length(0)
            else if Bodiless(verb, status) then CONTENT_LENGTH in h && (DeclaredLength(h).value == 0 || data == [])
            else Clear(h) && (CONTENT_LENGTH in h ==> DeclaredLength(h).value <= |data|)
    ensures status in {204, 304} || 100 <= status < 200 ==>
              sent == [] && Announced(verb, status, SentHeader(status, h, date)) == NoBody
  {
    FramingIsAnnounced(verb, status, h, date);
    if Silent(status) {
      assert sent + t == t;
      DecodedIsShorter(t);
    } else if Bodiless(verb, status) {
      TakesNothing(sent, t);
      NothingIsNoBody(sent);
    } else if CONTENT_LENGTH in h {
      TakesLength(DeclaredLength(h).value, data, sent, t);
      DecodedIsShorter(sent + t);
      LengthOrOther(h, SentHeader(status, h, date));
    } else {
      ChunksOrNothing(SentHeader(status, h, date));
      DecodeExtends(sent, t);
      assert [] + t == t;
    }
  }

  /** No other length than the declared one is ever announced beside it. */
  lemma LengthOrOther(h: Header, sent: Header)
    requires GoodHeader(h) && CONTENT_LENGTH in h && CONTENT_LENGTH in sent && sent[CONTENT_LENGTH] == h[CONTENT_LENGTH]
    ensures FromLines(sent).Length? ==> FromLines(sent).n == DeclaredLength(h).value
  {
    FieldNames();
    NumberIsTrimmed(h[CONTENT_LENGTH][0]);
    assert IsLine(sent, CONTENT_LENGTH, 0, CONTENT_LENGTH);
  }

  /** Beside chunks nothing is announced that a receiver could take another body from. */
  lemma ChunksOrNothing(sent: Header)
    requires TRANSFER_ENCODING in sent && sent[TRANSFER_ENCODING] == [CHUNKED]
    ensures FromLines(sent) in {ChunkedBody, Coded}
  {
    FieldNames();
    assert IsCoding(sent, TRANSFER_ENCODING, 0);
  }

  lemma TakesNothing(sent: seq<byte>, t: seq<byte>)
    ensures sent + t == t <==> sent == []
  {
    if sent + t == t {
      assert |sent + t| == |sent| + |t|;
    }
  }

  /** No chunked body is empty. */
  lemma NothingIsNoBody(sent: seq<byte>)
    ensures sent == [] ==> !Decode(sent).Done?
  {
  }

  lemma TakesLength(n: nat, data: seq<byte>, sent: seq<byte>, t: seq<byte>)
    requires sent == data[..Min(n, |data|)]
    ensures Receive(Length(n), sent + t) == Some((sent, t)) <==> n <= |data|
  {
    if n <= |data| {
      assert (sent + t)[..n] == sent && (sent + t)[n..] == t;
    }
  }

  /** Where a response stands in the middle of the calls of its handler. */
  ghost predicate Underway(res: ResponseWriter, calls: seq<Call>, i: nat)
    requires i <= |calls|
    reads res, res.conn, res.cw, res.cw.w, res.cw.b
  {
    && res.Valid() && (res.chunked ==> !res.cw.closed)
    && res.status == (if i == 0 then 0 else FinalStatus(calls))
    && res.body <= Written(calls[..i])
    && (res.err == NoError ==> res.body == Written(calls[..i]))
  }

  /** Makes the call number i of the handler. */
  method Make(res: ResponseWriter, ghost calls: seq<Call>, ghost i: nat, call: Call)
    requires i < |calls| && call == calls[i] && Underway(res, calls, i)
    modifies res, res.conn, res.cw, res.cw.b
    ensures Underway(res, calls, i + 1)
  {
    assert calls[..i + 1][..i] == calls[..i];
    assert Written(calls[..i + 1]) == Written(calls[..i]) + if call.CallWrite? then call.p else [];
    match call
    case CallWriteHeader(code) => res.WriteHeader(code);
    case CallFlush => res.Flush();
    case CallWrite(p) => var _, _ := res.Write(p);
  }

  /** What a response that has started has sent: not all of a chunked body unless it was closed. */
  lemma StartedFrames(res: ResponseWriter)
    requires res.Valid() && res.status != 0
    ensures res.conn.out <= res.Head() || res.Head() <= res.conn.out
    ensures !res.conn.failed ==> res.Head() <= res.conn.out
    ensures res.Head() <= res.conn.out ==>
              var sent := res.conn.out[|res.Head()|..];
              if res.chunked && !res.cw.closed then Decode(sent).More? && Decode(sent).data <= res.body
              else StartsBody(res.header0, res.status, res.body, sent)
                   && (!res.conn.failed ==> FramesBody(res.header0, res.status, res.body, sent))
  {
    if res.Head() <= res.conn.out && res.chunked {
      if res.cw.closed {
        res.cw.ClosedBodyDecodes();
      } else {
        res.cw.BodyDecodes();
      }
    }
  }

  /**
   A whole response: the calls of the handler, then the close and the flush that
   serveHTTP makes. On a connection that does not fail, one header block precedes
   a body framed as its header says, exactly when the handler made a call or
   declared a length: after a handler that made no call, a chunked body is
   announced and never ended. On a connection that fails, what it accepted is a
   correct start of the same response.
   */
  method Respond(res: ResponseWriter, calls: seq<Call>)
    requires res.Valid() && res.status == 0 && res.body == [] && !res.conn.failed
    modifies res, res.conn, res.cw, res.cw.b
    ensures var (h, status, data) := (res.header0, FinalStatus(calls), Written(calls));
            var head := res.start + HeadBlock(res.render, status, h);
            && (!res.conn.failed ==> head <= res.conn.out)
            && (head <= res.conn.out ==> StartsBody(h, status, data, res.conn.out[|head|..]))
            && (res.conn.out <= head || head <= res.conn.out)
            && (!res.conn.failed ==>
                 (FramesBody(h, status, data, res.conn.out[|head|..]) <==> calls != [] || CONTENT_LENGTH in h))
  {
    assert calls[..0] == [];
    for i := 0 to |calls|
      invariant Underway(res, calls, i)
    {
      Make(res, calls, i, calls[i]);
    }
    assert calls[..|calls|] == calls;
    Finish(res, calls);
  }

  method Finish(res: ResponseWriter, ghost calls: seq<Call>)
    requires Underway(res, calls, |calls|)
    modifies res, res.conn, res.cw, res.cw.b
    ensures var (h, status, data) := (res.header0, FinalStatus(calls), Written(calls));
            var head := res.start + HeadBlock(res.render, status, h);
            && (!res.conn.failed ==> head <= res.conn.out)
            && (head <= res.conn.out ==> StartsBody(h, status, data, res.conn.out[|head|..]))
            && (res.conn.out <= head || head <= res.conn.out)
            && (!res.conn.failed ==>
                 (FramesBody(h, status, data, res.conn.out[|head|..]) <==> calls != [] || CONTENT_LENGTH in h))
  {
    assert calls[..|calls|] == calls;
    res.Close();
    res.Flush();
    StartedFrames(res);
  }
}
