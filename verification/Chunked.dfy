/**
 The chunked transfer coding of section 4.1 of RFC 7230: the encoding that the
 response writer has to produce, and a decoder written from the grammar alone.
 */
module Chunked {
  import opened Bytes

  function HexDigit(d: nat): byte
    requires d < 16
  {
    if d < 10 then 48 + d else 87 + d
  }

  /** The lower-case hexadecimal digits of n, as strconv.AppendInt prints them in base 16. */
  function Hex(n: nat): seq<byte> {
    if n < 16 then [HexDigit(n)] else Hex(n / 16) + [HexDigit(n % 16)]
  }

  function Chunk(data: seq<byte>): seq<byte> {
    Hex(|data|) + CRLF + data + CRLF
  }

  const LAST_CHUNK: seq<byte> := [48] + CRLF + CRLF

  function Encode(chunks: seq<seq<byte>>): seq<byte> {
    if chunks == [] then [] else Chunk(chunks[0]) + Encode(chunks[1..])
  }

  function Concat(chunks: seq<seq<byte>>): seq<byte> {
    if chunks == [] then [] else chunks[0] + Concat(chunks[1..])
  }

  predicate NoneEmpty(chunks: seq<seq<byte>>) {
    forall i :: 0 <= i < |chunks| ==> chunks[i] != []
  }

  lemma {:induction false} EncodeAppend(chunks: seq<seq<byte>>, more: seq<seq<byte>>)
    ensures Encode(chunks + more) == Encode(chunks) + Encode(more)
    ensures Concat(chunks + more) == Concat(chunks) + Concat(more)
  {
    if chunks == [] {
      assert chunks + more == more;
    } else {
      assert (chunks + more)[1..] == chunks[1..] + more;
      EncodeAppend(chunks[1..], more);
    }
  }

  lemma EncodeSnoc(chunks: seq<seq<byte>>, c: seq<byte>)
    ensures Encode(chunks + [c]) == Encode(chunks) + Chunk(c)
    ensures Concat(chunks + [c]) == Concat(chunks) + c
  {
    EncodeAppend(chunks, [c]);
    assert [c][1..] == [];
    assert Encode([c]) == Chunk(c);
  }

  // ----- the decoder -----

  /** What a receiver knows about a chunked body after a number of bytes. */
  datatype Decoded =
    | Done(data: seq<byte>, rest: seq<byte>)  // a complete body, and the bytes that follow it
    | More(data: seq<byte>)                   // a correct start of a body
    | Malformed

  datatype SizeLine = Size(n: nat, rest: seq<byte>) | SizeMore | SizeBad

  function HexValue(b: byte): Option<nat> {
    if 48 <= b <= 57 then Some(b - 48)
    else if 97 <= b <= 102 then Some(b - 87)
    else if 65 <= b <= 70 then Some(b - 55)
    else None
  }

  /** Reads the rest of a line `1*HEXDIG CRLF` whose digits so far have the value acc. */
  function ReadSize(s: seq<byte>, acc: nat, started: bool): (r: SizeLine)
    ensures r.Size? ==> |r.rest| < |s|
  {
    if s == [] then SizeMore
    else if HexValue(s[0]).Some? then ReadSize(s[1..], acc * 16 + HexValue(s[0]).value, true)
    else if started && CRLF <= s then Size(acc, s[2..])
    else if started && s == [13] then SizeMore
    else SizeBad
  }

  /** The bytes after a CRLF, when s starts with one. */
  function AfterCRLF(s: seq<byte>): (r: SizeLine)
    ensures r.Size? ==> |r.rest| < |s|
  {
    if CRLF <= s then Size(0, s[2..])
    else if s <= CRLF then SizeMore
    else SizeBad
  }

  function Prepend(d: seq<byte>, r: Decoded): Decoded {
    match r
    case Done(data, rest) => Done(d + data, rest)
    case More(data) => More(d + data)
    case Malformed => Malformed
  }

  function Decode(s: seq<byte>): Decoded
    decreases |s|
  {
    match ReadSize(s, 0, false)
    case SizeMore => More([])
    case SizeBad => Malformed
    case Size(n, rest) =>
      if |rest| < n then More(rest)
      else
        match AfterCRLF(rest[n..])
        case SizeMore => More(rest[..n])
        case SizeBad => Malformed
        case Size(_, after) => if n == 0 then Done([], after) else Prepend(rest[..n], Decode(after))
  }

  lemma Front(p: seq<byte>, t: seq<byte>)
    requires p != []
    ensures (p + t)[0] == p[0] && (p + t)[1..] == p[1..] + t
    ensures |p| >= 2 ==> (p + t)[1] == p[1] && (p + t)[2..] == p[2..] + t
  {
  }

  lemma {:induction false} ReadSizeExtends(p: seq<byte>, t: seq<byte>, acc: nat, started: bool)
    ensures var r, r' := ReadSize(p, acc, started), ReadSize(p + t, acc, started);
            match r
            case Size(n, rest) => r' == Size(n, rest + t)
            case SizeBad => r' == SizeBad
            case SizeMore => true
  {
    if p != [] {
      if HexValue(p[0]).Some? {
        Front(p, t);
        ReadSizeExtends(p[1..], t, acc * 16 + HexValue(p[0]).value, true);
      } else {
        LineEndExtends(p, t, acc, started);
      }
    }
  }

  lemma LineEndExtends(p: seq<byte>, t: seq<byte>, acc: nat, started: bool)
    requires p != [] && HexValue(p[0]).None?
    ensures var r, r' := ReadSize(p, acc, started), ReadSize(p + t, acc, started);
            match r
            case Size(n, rest) => r' == Size(n, rest + t)
            case SizeBad => r' == SizeBad
            case SizeMore => true
  {
    Front(p, t);
  }

  /**
   Decoding is monotone in the input: bytes that arrive later never change what
   was already decoded, a verdict of malformed is final, and a complete body
   stays the same body.
   */
  lemma {:induction false} DecodeExtends(p: seq<byte>, t: seq<byte>)
    ensures Extends(Decode(p), Decode(p + t), t)
    decreases |p|
  {
    ReadSizeExtends(p, t, 0, false);
    match ReadSize(p, 0, false)
    case SizeMore =>
    case SizeBad =>
    case Size(n, rest) =>
      if |rest| < n {
        Taken(rest, t, n);
      } else {
        Behind(rest, t, n);
        AfterExtends(rest[n..], t);
        match AfterCRLF(rest[n..])
        case Size(_, after) =>
          DecodeExtends(after, t);
          PrependExtends(rest[..n], Decode(after), Decode(after + t), t);
        case _ =>
      }
  }

  /** What is known after the bytes t more. */
  predicate Extends(r: Decoded, r': Decoded, t: seq<byte>) {
    match r
    case Done(d, rest) => r' == Done(d, rest + t)
    case Malformed => r' == Malformed
    case More(d) => r' == Malformed || d <= r'.data
  }

  lemma PrependExtends(d: seq<byte>, r: Decoded, r': Decoded, t: seq<byte>)
    requires Extends(r, r', t)
    ensures Extends(Prepend(d, r), Prepend(d, r'), t)
  {
  }

  lemma Taken(rest: seq<byte>, t: seq<byte>, n: nat)
    requires |rest| < n
    ensures rest <= rest + t && (n <= |rest + t| ==> rest <= (rest + t)[..n])
  {
  }

  lemma Behind(rest: seq<byte>, t: seq<byte>, n: nat)
    requires n <= |rest|
    ensures (rest + t)[..n] == rest[..n] && (rest + t)[n..] == rest[n..] + t
  {
  }

  /** A chunked body takes more bytes than it carries. */
  lemma {:induction false} DecodedIsShorter(s: seq<byte>)
    ensures match Decode(s)
            case Done(data, rest) => |data| + |rest| < |s|
            case _ => true
    decreases |s|
  {
    match ReadSize(s, 0, false)
    case Size(n, rest) =>
      if n <= |rest| {
        match AfterCRLF(rest[n..])
        case Size(_, after) => DecodedIsShorter(after);
        case _ =>
      }
    case _ =>
  }

  lemma AfterExtends(u: seq<byte>, t: seq<byte>)
    ensures match AfterCRLF(u)
            case Size(_, after) => AfterCRLF(u + t) == Size(0, after + t)
            case SizeBad => AfterCRLF(u + t) == SizeBad
            case SizeMore => true
  {
    if |u| >= 1 {
      assert (u + t)[0] == u[0];
      if |u| >= 2 {
        assert (u + t)[1] == u[1] && (u + t)[2..] == u[2..] + t;
      }
    }
  }

  lemma {:induction false} ReadSizeOfHex(n: nat, t: seq<byte>)
    ensures ReadSize(Hex(n) + t, 0, false) == ReadSize(t, n, true)
  {
    if n < 16 {
      assert (Hex(n) + t)[1..] == t;
    } else {
      var d := [HexDigit(n % 16)];
      assert Hex(n) + t == Hex(n / 16) + (d + t);
      ReadSizeOfHex(n / 16, d + t);
      assert (d + t)[1..] == t;
    }
  }

  lemma DecodeChunk(c: seq<byte>, t: seq<byte>)
    requires c != []
    ensures Decode(Chunk(c) + t) == Prepend(c, Decode(t))
  {
    var rest := c + CRLF + t;
    ChunkParts(Hex(|c|), CRLF, c, t);
    RestParts(CRLF, c, t);
    ReadSizeOfHex(|c|, CRLF + rest);
    assert ReadSize(Chunk(c) + t, 0, false) == Size(|c|, rest);
  }

  lemma ChunkParts(h: seq<byte>, e: seq<byte>, c: seq<byte>, t: seq<byte>)
    ensures h + e + c + e + t == h + (e + (c + e + t))
    ensures (e + (c + e + t))[..|e|] == e && (e + (c + e + t))[|e|..] == c + e + t
  {
    assert e + c + e + t == e + (c + e + t);
  }

  lemma RestParts(e: seq<byte>, c: seq<byte>, t: seq<byte>)
    ensures (c + e + t)[..|c|] == c && (c + e + t)[|c|..] == e + t
    ensures (e + t)[..|e|] == e && (e + t)[|e|..] == t
  {
  }

  lemma PrependTwice(a: seq<byte>, b: seq<byte>, r: Decoded)
    ensures Prepend(a, Prepend(b, r)) == Prepend(a + b, r)
  {
    if r != Malformed {
      assert a + (b + r.data) == (a + b) + r.data;
    }
  }

  /** Encoding then decoding gives the data back, whatever follows the chunks. */
  lemma {:induction false} DecodeEncode(chunks: seq<seq<byte>>, t: seq<byte>)
    requires NoneEmpty(chunks)
    ensures Decode(Encode(chunks) + t) == Prepend(Concat(chunks), Decode(t))
  {
    if chunks == [] {
      assert Encode(chunks) + t == t;
    } else {
      var rest := Encode(chunks[1..]) + t;
      assert Encode(chunks) + t == Chunk(chunks[0]) + rest;
      DecodeChunk(chunks[0], rest);
      DecodeEncode(chunks[1..], t);
      PrependTwice(chunks[0], Concat(chunks[1..]), Decode(t));
    }
  }

  lemma DecodeLastChunk(t: seq<byte>)
    ensures Decode(LAST_CHUNK + t) == Done([], t)
  {
    var s := LAST_CHUNK + t;
    assert s[0] == 48 && s[1..] == CRLF + (CRLF + t);
    assert (CRLF + (CRLF + t))[2..] == CRLF + t;
    assert ReadSize(s, 0, false) == ReadSize(s[1..], 0, true) == Size(0, CRLF + t);
    assert (CRLF + t)[0..] == CRLF + t;
    assert (CRLF + t)[2..] == t;
  }

  /** A run of chunks is a correct unfinished body that carries exactly the data. */
  lemma OpenBody(chunks: seq<seq<byte>>)
    requires NoneEmpty(chunks)
    ensures Decode(Encode(chunks)) == More(Concat(chunks))
  {
    DecodeEncode(chunks, []);
    assert Encode(chunks) + [] == Encode(chunks);
  }

  /** With the last chunk it is a complete body, and nothing is left over. */
  lemma ClosedBody(chunks: seq<seq<byte>>)
    requires NoneEmpty(chunks)
    ensures Decode(Encode(chunks) + LAST_CHUNK) == Done(Concat(chunks), [])
  {
    DecodeEncode(chunks, LAST_CHUNK);
    DecodeLastChunk([]);
    assert LAST_CHUNK + [] == LAST_CHUNK;
  }

  /**
   A body cut at any byte: the receiver sees a correct start of a body that
   carries a prefix of the data, and sees a complete body only when nothing at
   all was cut off.
   */
  lemma CutBody(chunks: seq<seq<byte>>, cut: seq<byte>)
    requires NoneEmpty(chunks) && cut <= Encode(chunks) + LAST_CHUNK
    ensures Decode(cut) != Malformed && Decode(cut).data <= Concat(chunks)
    ensures Decode(cut).Done? <==> cut == Encode(chunks) + LAST_CHUNK
  {
    var whole := Encode(chunks) + LAST_CHUNK;
    var tail := whole[|cut|..];
    assert whole == cut + tail;
    ClosedBody(chunks);
    DecodeExtends(cut, tail);
  }
}
