/** The sink that responses are written to. */
module Sinks {
  import opened Bytes

  /**
   An io.Writer with a sticky error, as bufio.Writer is one. It may fail at any
   byte of any call, and it accepts nothing after it has failed.
   */
  class Sink {
    var out: seq<byte>  // every byte accepted so far
    var failed: bool

    constructor ()
      ensures out == [] && !failed
    {
      out, failed := [], false;
    }

    method Write(p: seq<byte>) returns (k: nat, err: bool)
      modifies this
      ensures k <= |p| && out == old(out) + p[..k]
      ensures !err ==> k == |p|
      ensures err == failed
      ensures old(failed) ==> failed && k == 0
    {
      if failed {
        return 0, true;
      }
      k :| 0 <= k <= |p|;
      err :| k < |p| ==> err;
      out, failed := out + p[..k], err;
    }

    method Flush() returns (err: bool)
      modifies this`failed
      ensures err == failed
      ensures old(failed) ==> failed
    {
      err :| failed ==> err;
      failed := err;
    }
  }
}

/** The writer of chunked bodies (httpx/server.go:471-548). */
module ChunkWriters {
  import opened Bytes
  import opened Chunked
  import opened Sinks

  const BUFFER_SIZE := 512

  datatype Coalesced = Coalesced(chunks: seq<seq<byte>>, rest: seq<byte>)

  /**
   What a Write of p emits, and what it leaves in the buffer, when buf is
   buffered: small writes are coalesced, a write that overflows the buffer first
   fills it up, and what is then left is emitted at once if it is large.
   */
  function Coalesce(buf: seq<byte>, p: seq<byte>): Coalesced
    requires |buf| <= BUFFER_SIZE
  {
    if buf == [] && |p| >= BUFFER_SIZE then Coalesced([p], [])
    else if |buf| + |p| <= BUFFER_SIZE then Coalesced([], buf + p)
    else
      var k := BUFFER_SIZE - |buf|;
      if |p| - k >= BUFFER_SIZE then Coalesced([buf + p[..k], p[k..]], [])
      else Coalesced([buf + p[..k]], p[k..])
  }

  /** No byte is lost, duplicated or reordered, and no chunk is empty. */
  lemma CoalesceConserves(buf: seq<byte>, p: seq<byte>)
    requires |buf| <= BUFFER_SIZE
    ensures var r := Coalesce(buf, p);
            Concat(r.chunks) + r.rest == buf + p && NoneEmpty(r.chunks) && |r.rest| <= BUFFER_SIZE
  {
    var r := Coalesce(buf, p);
    match |r.chunks|
    case 0 =>
    case 1 =>
      EncodeSnoc([], r.chunks[0]);
      assert [] + [r.chunks[0]] == r.chunks;
    case _ =>
      EncodeSnoc([], r.chunks[0]);
      EncodeSnoc([r.chunks[0]], r.chunks[1]);
      assert [] + [r.chunks[0]] == [r.chunks[0]];
      assert [r.chunks[0]] + [r.chunks[1]] == r.chunks;
  }

  /**
   Nothing is emitted as long as the buffer has room, except for a write of at least
   its size that finds it empty; and no chunk is smaller than the buffer.
   */
  lemma CoalesceIsSparing(buf: seq<byte>, p: seq<byte>)
    requires |buf| <= BUFFER_SIZE
    ensures var r := Coalesce(buf, p);
            && (r.chunks == [] <==> |buf| + |p| <= 512 && !(|buf| == 0 && |p| == 512))
            && |r.chunks| <= 2 && (forall i :: 0 <= i < |r.chunks| ==> |r.chunks[i]| >= 512)
            && |r.rest| <= 512
  {
  }

  /** What becomes of rest when the chunks so far have been emitted and buf is buffered. */
  function Emitted(chunks: seq<seq<byte>>, buf: seq<byte>, rest: seq<byte>): Coalesced
    requires |buf| <= BUFFER_SIZE
  {
    var r := Coalesce(buf, rest);
    Coalesced(chunks + r.chunks, r.rest)
  }

  /** Filling the buffer with k bytes, and flushing it if bytes are left, changes nothing. */
  lemma EmittedStep(chunks: seq<seq<byte>>, buf: seq<byte>, rest: seq<byte>, k: nat)
    requires |buf| + k <= BUFFER_SIZE && k <= |rest|
    requires rest != [] && (k == |rest| || (k == BUFFER_SIZE - |buf| && buf != []))
    requires buf == [] ==> |rest| < BUFFER_SIZE
    ensures if k == |rest| then Emitted(chunks, buf + rest[..k], rest[k..]) == Emitted(chunks, buf, rest)
            else Emitted(chunks + [buf + rest[..k]], [], rest[k..]) == Emitted(chunks, buf, rest)
  {
    if k == |rest| {
      assert buf + rest[..k] + rest[k..] == buf + rest;
    } else {
      assert chunks + [buf + rest[..k]] + [] == chunks + [buf + rest[..k]];
      assert chunks + [buf + rest[..k], rest[k..]] == chunks + [buf + rest[..k]] + [rest[k..]];
      assert [] + rest[k..] == rest[k..];
    }
  }

  lemma CutChunk(base: seq<byte>, chunks: seq<seq<byte>>, p: seq<byte>, cut: seq<byte>)
    requires cut <= Chunk(p)
    ensures base + Encode(chunks) + cut <= base + Encode(chunks + [p])
    ensures cut == Chunk(p) ==> base + Encode(chunks) + cut == base + Encode(chunks + [p])
  {
    EncodeSnoc(chunks, p);
    assert base + Encode(chunks + [p]) == base + Encode(chunks) + Chunk(p);
  }

  /** How many bytes of p are among the first m bytes of its chunk. */
  function DataIn(p: seq<byte>, m: nat): (k: nat)
    ensures k <= |p|
  {
    var h := |Hex(|p|)| + |CRLF|;
    if m <= h then 0 else if m - h <= |p| then m - h else |p|
  }

  /** The size line of a chunk, as far as it was accepted. */
  lemma SizePart(before: seq<byte>, p: seq<byte>, k: nat)
    requires k <= |Hex(|p|) + CRLF|
    ensures k <= |Chunk(p)| && DataIn(p, k) == 0
    ensures before + (Hex(|p|) + CRLF)[..k] == before + Chunk(p)[..k]
  {
  }

  /** The size line, and the data as far as they were accepted. */
  lemma DataPart(before: seq<byte>, p: seq<byte>, k: nat)
    requires k <= |p|
    ensures var h := Hex(|p|) + CRLF;
            |h| + k <= |Chunk(p)| && DataIn(p, |h| + k) == k && before + h + p[..k] == before + Chunk(p)[..|h| + k]
  {
  }

  /** All but perhaps a part of the last line break. */
  lemma EndPart(before: seq<byte>, p: seq<byte>, k: nat)
    requires k <= |CRLF|
    ensures var h := Hex(|p|) + CRLF;
            && |h| + |p| + k <= |Chunk(p)| && DataIn(p, |h| + |p| + k) == |p|
            && before + h + p + CRLF[..k] == before + Chunk(p)[..|h| + |p| + k]
  {
  }

  /** The bytes of p that a Write reports: the bypass behind a filled buffer forgets what went into the buffer. */
  function Counted(buf: seq<byte>, p: seq<byte>): (r: int)
    requires |buf| <= BUFFER_SIZE
    ensures r == |p| || r == |buf| + |p| - 512
    ensures r == |p| <==> |buf| == 0 || |buf| == BUFFER_SIZE || |buf| + |p| < 2 * BUFFER_SIZE
  {
    if buf != [] && |buf| + |p| >= 2 * BUFFER_SIZE then |p| - (BUFFER_SIZE - |buf|) else |p|
  }

  /** Where a Write of p stands that found buf in the buffer, as far as its count is concerned. */
  predicate CountsOn(buf0: seq<byte>, p: seq<byte>, buf: seq<byte>, rest: seq<byte>)
    requires |buf0| <= BUFFER_SIZE
  {
    if rest == [] then Counted(buf0, p) == |p|
    else (rest == p && buf == buf0) || (buf0 != [] && buf == [] && |rest| == |p| - (BUFFER_SIZE - |buf0|))
  }

  lemma Resplit(data: seq<byte>, rest: seq<byte>, k: nat)
    requires k <= |rest|
    ensures data + rest == (data + rest[..k]) + rest[k..]
  {
  }

  lemma CountsNext(buf0: seq<byte>, p: seq<byte>, buf: seq<byte>, rest: seq<byte>, k: nat, buf': seq<byte>)
    requires |buf0| <= BUFFER_SIZE && |buf| <= BUFFER_SIZE && rest != [] && k <= |rest|
    requires CountsOn(buf0, p, buf, rest)
    requires (k == |rest| && |buf| + k <= BUFFER_SIZE) || (k == BUFFER_SIZE - |buf| && buf != [] && buf' == [])
    requires buf == [] ==> |rest| < BUFFER_SIZE
    ensures CountsOn(buf0, p, buf', rest[k..])
  {
  }

  lemma CountsBypass(buf0: seq<byte>, p: seq<byte>, rest: seq<byte>)
    requires |buf0| <= BUFFER_SIZE && |rest| >= BUFFER_SIZE && CountsOn(buf0, p, [], rest)
    ensures Counted(buf0, p) == |rest|
  {
  }

  /**
   What a sink has accepted of a body. Unless it failed, that is all chunks, and
   they and the buffer are the data. If it failed, it is a start of the chunks, of
   which the last one may be cut, or else a start of all of the closed body.
   */
  ghost predicate Carries(out: seq<byte>, failed: bool, base: seq<byte>, chunks: seq<seq<byte>>, data: seq<byte>,
                          buffered: seq<byte>, closed: bool)
  {
    if failed then
      || (out <= base + Encode(chunks) && Concat(chunks) <= data)
      || (closed && out <= base + Encode(chunks) + LAST_CHUNK && Concat(chunks) == data)
    else
      && out == base + Encode(chunks) + (if closed then LAST_CHUNK else [])
      && Concat(chunks) + buffered == data
      && (closed ==> buffered == [])
  }

  lemma CarriesMore(out: seq<byte>, failed: bool, base: seq<byte>, chunks: seq<seq<byte>>, data: seq<byte>,
                    buffered: seq<byte>, q: seq<byte>)
    requires Carries(out, failed, base, chunks, data, buffered, false)
    ensures Carries(out, failed, base, chunks, data + q, buffered + q, false)
  {
    assert Concat(chunks) + (buffered + q) == Concat(chunks) + buffered + q;
    assert data <= data + q;
  }

  /** The step from chunks to more, when p was emitted as a chunk. */
  ghost predicate Emits(out: seq<byte>, failed: bool, base: seq<byte>, chunks: seq<seq<byte>>, p: seq<byte>,
                        out': seq<byte>, failed': bool, chunks': seq<seq<byte>>)
  {
    if p == [] || failed then
      chunks' == chunks && out' == out && failed' == failed
    else
      && chunks' == chunks + [p]
      && if failed' then out' <= base + Encode(chunks') else out' == base + Encode(chunks')
  }

  lemma CarriesOn(out: seq<byte>, failed: bool, base: seq<byte>, chunks: seq<seq<byte>>, data: seq<byte>, p: seq<byte>,
                  closed: bool, out': seq<byte>, failed': bool, chunks': seq<seq<byte>>, rest: seq<byte>)
    requires Carries(out, failed, base, chunks, data, p, closed)
    requires Emits(out, failed, base, chunks, p, out', failed', chunks')
    requires !failed' ==> rest == []
    ensures Carries(out', failed', base, chunks', data, rest, closed)
  {
    EncodeSnoc(chunks, p);
    if !failed' {
      assert base + Encode(chunks') + [] == base + Encode(chunks');
      assert Concat(chunks') + [] == Concat(chunks');
    }
  }

  lemma CarriesAll(out: seq<byte>, base: seq<byte>, chunks: seq<seq<byte>>, data: seq<byte>, k: nat, failed: bool)
    requires Carries(out, false, base, chunks, data, [], false)
    requires k <= |LAST_CHUNK| && (!failed ==> k == |LAST_CHUNK|)
    ensures Carries(out + LAST_CHUNK[..k], failed, base, chunks, data, [], true)
  {
    assert out == base + Encode(chunks) && Concat(chunks) == data;
    assert out + LAST_CHUNK[..k] <= out + LAST_CHUNK;
  }

  class ChunkWriter {
    const w: Sink
    const b: array<byte>  // aggregates small chunks
    var n: nat            // number of bytes buffered in b

    ghost var base: seq<byte>      // what the sink is meant to hold before the body
    ghost var chunks: seq<seq<byte>> // the chunks given to the sink, the last one perhaps cut
    ghost var data: seq<byte>        // every byte given to Write

    ghost var closed: bool           // Close was called

    ghost predicate Valid()
      reads this, w, b
    {
      && b.Length == BUFFER_SIZE && n <= BUFFER_SIZE
      && NoneEmpty(chunks)
      && Carries(w.out, w.failed, base, chunks, data, b[..n], closed)
    }

    ghost function Buffered(): seq<byte>
      requires b.Length == BUFFER_SIZE && n <= BUFFER_SIZE
      reads this, b
    {
      b[..n]
    }

    constructor (w: Sink)
      ensures this.w == w && fresh(b) && b.Length == BUFFER_SIZE
    {
      this.w, n := w, 0;
      b := new byte[BUFFER_SIZE](_ => 0);
    }

    /** Starts a body on a sink that has accepted base, or failed within it. */
    method Start(ghost base: seq<byte>)
      requires b.Length == BUFFER_SIZE
      requires if w.failed then w.out <= base else w.out == base
      modifies this
      ensures Valid() && this.base == base && n == 0 && data == [] && chunks == [] && !closed
    {
      n := 0;
      this.base, chunks, data, closed := base, [], [], false;
      assert base + Encode(chunks) + [] == base;
    }

    /** Emits p as one chunk; nothing at all is written for an empty p. */
    method WriteChunk(p: seq<byte>) returns (k: nat, err: bool)
      requires p != [] && !w.failed ==> w.out == base + Encode(chunks)
      modifies w, this`chunks
      ensures k <= |p| && (!err ==> k == |p|)
      ensures err == (p != [] && w.failed)
      ensures Emits(old(w.out), old(w.failed), base, old(chunks), p, w.out, w.failed, chunks)
      ensures p == [] || old(w.failed) ==> k == 0
      ensures var m := |w.out| - |old(w.out)|;
              0 <= m <= |Chunk(p)| && k == DataIn(p, m) && w.out == old(w.out) + Chunk(p)[..m]
    {
      k, err := 0, false;
      if p == [] {
        assert w.out == w.out + Chunk(p)[..0];
        return;
      }
      ghost var before := w.out;
      ghost var m;
      k, err, m := WriteParts(p);
      if !old(w.failed) {
        CutChunk(base, chunks, p, Chunk(p)[..m]);
        chunks := chunks + [p];
      }
    }

    /** The size line, the data and the line break, up to the first error. */
    method WriteParts(p: seq<byte>) returns (k: nat, err: bool, ghost m: nat)
      modifies w
      ensures m <= |Chunk(p)| && w.out == old(w.out) + Chunk(p)[..m] && k == DataIn(p, m)
      ensures err == w.failed && (!err ==> m == |Chunk(p)| && k == |p|)
      ensures old(w.failed) ==> w.failed && m == 0
    {
      ghost var before, h := w.out, |Hex(|p|) + CRLF|;
      k := 0;
      m, err := w.Write(Hex(|p|) + CRLF);
      SizePart(before, p, m);
      if err {
        return;
      }
      k, err := w.Write(p);
      DataPart(before, p, k);
      m := h + k;
      if err {
        return;
      }
      ghost var k1;
      k1, err := w.Write(CRLF);
      EndPart(before, p, k1);
      m := h + k + k1;
    }

    /** Emits what is buffered; after a failure the bytes that were not accepted stay in the buffer. */
    method Flush() returns (err: bool)
      requires Valid()
      modifies w, b, this`n, this`chunks
      ensures Valid()
      ensures err ==> w.failed
      ensures old(w.failed) ==> w.failed && w.out == old(w.out) && chunks == old(chunks)
      ensures !w.failed ==> !err
      ensures !err ==> n == 0
      ensures !w.failed ==> chunks == old(chunks) + if old(n) == 0 then [] else [old(Buffered())]
      ensures var (p, m) := (old(Buffered()), |w.out| - |old(w.out)|);
              && 0 <= m <= |Chunk(p)| && w.out == old(w.out) + Chunk(p)[..m]
              && Buffered() == p[DataIn(p, m)..]
    {
      var k;
      ghost var p, chunks0 := b[..n], chunks;
      k, err := WriteChunk(b[..n]);
      Shift(k);
      CarriesOn(old(w.out), old(w.failed), base, chunks0, data, p, closed, w.out, w.failed, chunks, b[..n]);
    }

    /** Drops the first k bytes of the buffer. */
    method Shift(k: nat)
      requires b.Length == BUFFER_SIZE && k <= n <= BUFFER_SIZE
      modifies b, this`n
      ensures n == old(n) - k && b[..n] == old(b[..n])[k..]
    {
      if k > 0 {
        if k == n {
          n := 0;
        } else {
          // Not everything was accepted: move the rest to the front.
          forall i | 0 <= i < n - k {
            b[i] := b[k + i];
          }
          n := n - k;
        }
      }
    }

    /**
     Accepts all of p. On a sink that has not failed, the chunks emitted and the
     bytes left in the buffer are those of Coalesce. The count is that of p unless
     p fills up a buffer that was begun and is then long enough for the bypass.
     */
    method Write(p: seq<byte>) returns (count: nat, err: bool)
      requires Valid() && !closed
      modifies w, b, this`n, this`chunks, this`data
      ensures Valid()
      ensures data == old(data) + p
      ensures err ==> w.failed
      ensures old(w.failed) ==> w.failed && w.out == old(w.out)
      ensures !w.failed ==> !err
      ensures !w.failed ==> var r := Coalesce(old(Buffered()), p);
                            chunks == old(chunks) + r.chunks && Buffered() == r.rest
      ensures count <= |p| && (!w.failed ==> count == Counted(old(Buffered()), p))
      ensures !w.failed ==>
                (count == |p| <==> old(n) == 0 || old(n) == BUFFER_SIZE || old(n) + |p| < 2 * BUFFER_SIZE)
    {
      ghost var goal, total, buf0 := Emitted(chunks, b[..n], p), data + p, b[..n];
      var rest := p;
      count, err := 0, false;
      while rest != []
        invariant Valid()
        invariant data + rest == total
        invariant old(w.failed) ==> w.failed && w.out == old(w.out)
        invariant !w.failed ==> Emitted(chunks, b[..n], rest) == goal
        invariant count + |rest| == |p| && (!w.failed ==> CountsOn(buf0, p, b[..n], rest))
        decreases |rest|, n
      {
        var n1 := |rest|;
        var n2 := BUFFER_SIZE - n;
        if n1 >= n2 {
          if n == 0 {
            // A large write and an empty buffer: bypass the buffer.
            assert b[..n] == [];
            if !w.failed { CountsBypass(buf0, p, rest); }
            count, err := Emit(rest);
            return;
          }
          n1 := n2;
        }
        Resplit(data, rest, n1);
        ghost var buf := b[..n];
        err := FillAndFlush(rest, n1);
        if !w.failed { CountsNext(buf0, p, buf, rest, n1, b[..n]); }
        rest := rest[n1..];
        count := count + n1;
        if err {
          Lose(rest);
          return;
        }
      }
    }

    /** Bytes that were given to Write on a sink that has failed. */
    ghost method Lose(q: seq<byte>)
      requires Valid() && !closed && w.failed
      modifies this`data
      ensures Valid() && data == old(data) + q
    {
      data := data + q;
    }

    /** Copies k bytes of rest to the buffer, and flushes it if bytes are left. */
    method FillAndFlush(rest: seq<byte>, k: nat) returns (err: bool)
      requires Valid() && !closed && n + k <= BUFFER_SIZE && k <= |rest|
      requires rest != [] && (k == |rest| || (k == BUFFER_SIZE - n && n != 0))
      requires n == 0 ==> |rest| < BUFFER_SIZE
      modifies w, b, this`n, this`chunks, this`data
      ensures Valid() && data == old(data) + rest[..k]
      ensures err ==> w.failed && k < |rest|
      ensures !err && k < |rest| ==> n == 0
      ensures old(w.failed) ==> w.failed && w.out == old(w.out)
      ensures !w.failed ==> !err && Emitted(chunks, b[..n], rest[k..]) == old(Emitted(chunks, b[..n], rest))
    {
      EmittedStep(chunks, b[..n], rest, k);
      Fill(rest[..k]);
      err := false;
      if k < |rest| {
        err := Flush();
        assert !err ==> b[..n] == [];
      }
    }

    /** Copies q behind the bytes already buffered. */
    method Fill(q: seq<byte>)
      requires Valid() && !closed && n + |q| <= BUFFER_SIZE
      modifies b, this`n, this`data
      ensures Valid() && data == old(data) + q && Buffered() == old(Buffered()) + q
    {
      forall i | 0 <= i < |q| {
        b[n + i] := q[i];
      }
      assert b[..n + |q|] == old(b[..n]) + q;
      CarriesMore(w.out, w.failed, base, chunks, data, old(b[..n]), q);
      n := n + |q|;
      data := data + q;
    }

    /** Emits q as a chunk of its own. */
    method Emit(q: seq<byte>) returns (k: nat, err: bool)
      requires Valid() && !closed && n == 0 && q != []
      modifies w, this`chunks, this`data
      ensures Valid() && data == old(data) + q
      ensures err == w.failed && (old(w.failed) ==> w.failed && w.out == old(w.out))
      ensures k <= |q| && (!w.failed ==> chunks == old(chunks) + [q] && k == |q|)
    {
      ghost var chunks0 := chunks;
      CarriesMore(w.out, w.failed, base, chunks, data, b[..n], q);
      assert b[..n] + q == q;
      k, err := WriteChunk(q);
      data := data + q;
      CarriesOn(old(w.out), old(w.failed), base, chunks0, data, q, false, w.out, w.failed, chunks, b[..n]);
    }

    /**
     What a receiver has after any run of Write and Flush: a correct start of a
     body. Unless the sink failed, its data and the buffer are everything
     written so far; if it failed, its data are a prefix of it.
     */
    lemma BodyDecodes()
      requires Valid() && !closed && base <= w.out
      ensures Decode(w.out[|base|..]).More?
      ensures Decode(w.out[|base|..]).data <= data
      ensures !w.failed ==> Decode(w.out[|base|..]).data + Buffered() == data
    {
      var cut := w.out[|base|..];
      assert base + Encode(chunks) == base + (Encode(chunks) + []);
      assert cut <= Encode(chunks);
      CutBody(chunks, cut);
      if !w.failed {
        assert cut == Encode(chunks);
        OpenBody(chunks);
      }
    }

    /**
     Ends the body. If the sink accepted everything, it holds one complete body
     for all the data; the last chunk is attempted only after all of the data.
     */
    method Close() returns (err: bool)
      requires Valid() && !closed
      modifies w, b, this`n, this`chunks, this`closed
      ensures Valid() && closed && err == w.failed
      ensures old(w.failed) ==> w.out == old(w.out) && chunks == old(chunks)
    {
      err := Flush();
      if !err {
        ghost var k, out0, failed0 := 0, w.out, w.failed;
        assert b[..n] == [];
        k, err := w.Write(LAST_CHUNK);
        if !failed0 {
          CarriesAll(out0, base, chunks, data, k, err);
        }
      }
      closed := true;
    }

    /**
     What a receiver has after Close: unless the sink failed, one complete body
     that carries all the data. If the sink failed, a correct start of a body,
     which is complete only if it carries all the data.
     */
    lemma ClosedBodyDecodes()
      requires Valid() && closed && base <= w.out
      ensures !w.failed ==> Decode(w.out[|base|..]) == Done(data, [])
      ensures Decode(w.out[|base|..]) != Malformed && Decode(w.out[|base|..]).data <= data
      ensures Decode(w.out[|base|..]).Done? ==> Decode(w.out[|base|..]).data == data
    {
      var cut := w.out[|base|..];
      assert base + Encode(chunks) + LAST_CHUNK == base + (Encode(chunks) + LAST_CHUNK);
      assert cut <= Encode(chunks) + LAST_CHUNK;
      CutBody(chunks, cut);
      ClosedBody(chunks);
    }
  }
}
