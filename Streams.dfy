/**
 * The byte streams the packager works through: an input file with a read
 * position and an end-of-file flag, an output file with a write position,
 * the `dataStream` the compression library pulls from and pushes into
 * through two callbacks, and the chunked loops that move a descriptor's
 * bytes between a file and memory.
 */
module Streams {
  import opened Bytes
  import opened Container

  // ---------------------------------------------------------------------
  // Input files

  /** An `ifstream` opened in binary mode on a file whose bytes are `bytes`. */
  class InFile {
    const bytes: seq<byte>
    var pos: nat
    var eof: bool

    /** The end-of-file flag is only ever set by a read that ran out of bytes. */
    predicate Valid()
      reads this
    {
      pos <= |bytes| && (eof ==> pos == |bytes|)
    }

    function Position(): Cursor
      reads this
    {
      Cursor(pos, eof)
    }

    constructor (contents: seq<byte>)
      ensures Valid() && bytes == contents && pos == 0 && !eof
    {
      bytes := contents;
      pos := 0;
      eof := false;
    }

    /**
     * `read(&buf[off], n)`: copies the next bytes of the file, up to `n`,
     * into the buffer from `off` on and leaves the rest of the buffer as it
     * was; a short read sets the end-of-file flag.
     */
    method Read(buf: array<byte>, off: nat, n: nat)
      requires Valid() && off + n <= buf.Length
      modifies this, buf
      ensures Valid()
      ensures Position() == ReadInto(bytes, old(Position()), n).next
      ensures buf[..] == old(buf[..])[..off] + bytes[old(pos)..pos] + old(buf[..])[off + (pos - old(pos))..]
    {
      var k := if n <= |bytes| - pos then n else |bytes| - pos;
      forall i | off <= i < off + k {
        buf[i] := bytes[pos + i - off];
      }
      assert buf[..] == old(buf[..])[..off] + bytes[pos..pos + k] + old(buf[..])[off + k..];
      pos := pos + k;
      eof := eof || k < n;
    }
  }

  /** A first read that runs out of bytes leaves only zeros for the second. */
  lemma ReadIntoConcatShort(bytes: seq<byte>, cur: Cursor, a: nat, b: nat)
    requires cur.pos <= |bytes| && a > |bytes| - cur.pos
    ensures ReadInto(bytes, cur, a + b).next == ReadInto(bytes, ReadInto(bytes, cur, a).next, b).next
    ensures ReadInto(bytes, cur, a + b).field == ReadInto(bytes, cur, a).field + ReadInto(bytes, ReadInto(bytes, cur, a).next, b).field
  {
    var avail := |bytes| - cur.pos;
    assert ReadInto(bytes, ReadInto(bytes, cur, a).next, b).field == Zeros(b);
    ZerosConcat(a - avail, b);
  }

  /** A first read that gets all its bytes leaves the second to go on from there. */
  lemma ReadIntoConcatFull(bytes: seq<byte>, cur: Cursor, a: nat, b: nat)
    requires cur.pos <= |bytes| && a <= |bytes| - cur.pos
    ensures ReadInto(bytes, cur, a + b).next == ReadInto(bytes, ReadInto(bytes, cur, a).next, b).next
    ensures ReadInto(bytes, cur, a + b).field == ReadInto(bytes, cur, a).field + ReadInto(bytes, ReadInto(bytes, cur, a).next, b).field
  {
    var avail := |bytes| - cur.pos;
    var k := if b <= avail - a then b else avail - a;
    var w1, w2, pad := Window(bytes, cur.pos, a), Window(bytes, cur.pos + a, k), Zeros(b - k);
    assert ReadInto(bytes, cur, a) == Chunk(w1 + Zeros(0), Cursor(cur.pos + a, cur.eof));
    assert ReadInto(bytes, Cursor(cur.pos + a, cur.eof), b) == Chunk(w2 + pad, Cursor(cur.pos + a + k, cur.eof || k < b));
    assert ReadInto(bytes, cur, a + b) == Chunk(Window(bytes, cur.pos, a + k) + pad, Cursor(cur.pos + a + k, cur.eof || k < b));
    WindowSplit(bytes, cur.pos, a, k);
    assert w1 + Zeros(0) == w1;
    assert (w1 + w2) + pad == w1 + (w2 + pad);
  }

  /** Two reads one after the other make the same read as one of their combined length. */
  lemma ReadIntoConcat(bytes: seq<byte>, cur: Cursor, a: nat, b: nat)
    requires cur.pos <= |bytes|
    ensures ReadInto(bytes, cur, a + b).next == ReadInto(bytes, ReadInto(bytes, cur, a).next, b).next
    ensures ReadInto(bytes, cur, a + b).field == ReadInto(bytes, cur, a).field + ReadInto(bytes, ReadInto(bytes, cur, a).next, b).field
  {
    if a > |bytes| - cur.pos {
      ReadIntoConcatShort(bytes, cur, a, b);
    } else {
      ReadIntoConcatFull(bytes, cur, a, b);
    }
  }

  /** A read of `n` bytes into the zeroed tail of a buffer fills it as `ReadInto` describes. */
  lemma FillStep(was: seq<byte>, now: seq<byte>, t: nat, n: nat, got: seq<byte>, field: seq<byte>)
    requires t + n <= |was| && |got| <= n
    requires was[t..] == Zeros(|was| - t)
    requires now == was[..t] + got + was[t + |got|..]
    requires field == got + Zeros(n - |got|)
    ensures |now| == |was| && now[..t] == was[..t]
    ensures now[t..t + n] == field
    ensures now[t + n..] == Zeros(|now| - t - n)
  {
    assert was[t + |got|..] == Zeros(|was| - t - |got|);
    ZerosConcat(n - |got|, |was| - t - n);
    assert now == was[..t] + field + Zeros(|was| - t - n);
  }

  /** What the read loop of `CollectFileInfo` keeps: the buffer holds the bytes asked for so far, then zeros. */
  ghost predicate Filled(f: InFile, data: array<byte>, start: Cursor, totalRead: nat)
    reads f, data
  {
    start.pos <= |f.bytes| && totalRead <= data.Length && f.Valid()
    && f.Position() == ReadInto(f.bytes, start, totalRead).next
    && data[..totalRead] == ReadInto(f.bytes, start, totalRead).field
    && data[totalRead..] == Zeros(data.Length - totalRead)
  }

  /** One turn of the read loop: `read(&data[totalRead], bytesToRead)`. */
  method ReadStep(f: InFile, data: array<byte>, ghost start: Cursor, totalRead: nat, bytesToRead: nat)
    requires Filled(f, data, start, totalRead) && totalRead + bytesToRead <= data.Length
    modifies f, data
    ensures Filled(f, data, start, totalRead + bytesToRead)
  {
    ghost var at := f.Position();
    ghost var was := data[..];
    f.Read(data, totalRead, bytesToRead);
    ReadIntoConcat(f.bytes, start, totalRead, bytesToRead);
    ReadIntoField(f.bytes, at, bytesToRead);
    FillStep(was, data[..], totalRead, bytesToRead, f.bytes[at.pos..f.pos], ReadInto(f.bytes, at, bytesToRead).field);
    assert data[..totalRead + bytesToRead] == data[..totalRead] + data[totalRead..totalRead + bytesToRead];
  }

  /**
   * The read loop of `CollectFileInfo`: fills a zeroed buffer in steps of
   * at most READ_STEP bytes until as many bytes as the buffer holds were
   * asked for. The buffer ends up as one read of its whole length would
   * leave it.
   */
  method ReadChunked(f: InFile, data: array<byte>) returns (totalRead: nat)
    requires f.Valid() && data[..] == Zeros(data.Length)
    modifies f, data
    ensures f.Valid()
    ensures totalRead == data.Length
    ensures f.Position() == ReadInto(f.bytes, old(f.Position()), data.Length).next
    ensures data[..] == ReadInto(f.bytes, old(f.Position()), data.Length).field
  {
    ghost var start := f.Position();
    totalRead := 0;
    assert data[..0] == ReadInto(f.bytes, start, 0).field;
    while totalRead < data.Length
      invariant Filled(f, data, start, totalRead)
      decreases data.Length - totalRead
    {
      var bytesToRead := READ_STEP;
      if totalRead + bytesToRead > data.Length {
        bytesToRead := data.Length - totalRead;
      }
      ReadStep(f, data, start, totalRead, bytesToRead);
      totalRead := totalRead + bytesToRead;
    }
    assert data[..] == data[..totalRead];
  }

  // ---------------------------------------------------------------------
  // Output files

  /**
   * Writing `s` at `p` over `b`: the bytes before `p` stay (a gap past the
   * end reads as zeros), `s` replaces what was there, and whatever lay
   * beyond the written range stays.
   */
  function Overwrite(b: seq<byte>, p: nat, s: seq<byte>): (r: seq<byte>)
    ensures |r| == if p + |s| <= |b| then |b| else p + |s|
    ensures r[p..p + |s|] == s
    ensures forall i :: 0 <= i < p ==> r[i] == if i < |b| then b[i] else NUL
    ensures forall i :: p + |s| <= i < |r| ==> r[i] == b[i]
  {
    var head := if p <= |b| then b[..p] else b + Zeros(p - |b|);
    var tail := if p + |s| <= |b| then b[p + |s|..] else [];
    head + s + tail
  }

  /** Writing at the end of a file appends. */
  lemma OverwriteAtEnd(b: seq<byte>, s: seq<byte>)
    ensures Overwrite(b, |b|, s) == b + s
  {
    var r := Overwrite(b, |b|, s);
    assert r[..|b|] == b;
    assert r == r[..|b|] + r[|b|..];
  }

  /** An `ofstream` opened in binary mode: its bytes so far and the put position. */
  class OutFile {
    var bytes: seq<byte>
    var pos: nat

    constructor ()
      ensures bytes == [] && pos == 0
    {
      bytes := [];
      pos := 0;
    }

    /** `tellp()`. */
    function Tell(): nat
      reads this
    {
      pos
    }

    /** `seekp(p)`. */
    method Seek(p: nat)
      modifies this
      ensures bytes == old(bytes) && pos == p
    {
      pos := p;
    }

    /** `write(buf, n)`: the bytes go at the put position, which moves past them. */
    method Write(s: seq<byte>)
      modifies this
      ensures bytes == Overwrite(old(bytes), old(pos), s)
      ensures pos == old(pos) + |s|
    {
      bytes := Overwrite(bytes, pos, s);
      pos := pos + |s|;
    }
  }

  /** `seekp(p)` to the end of what is written, then `write`: the bytes are appended. */
  method SeekWrite(out: OutFile, p: nat, s: seq<byte>)
    requires p == |out.bytes|
    modifies out
    ensures out.bytes == old(out.bytes) + s && out.pos == |out.bytes|
  {
    out.Seek(p);
    OverwriteAtEnd(out.bytes, s);
    out.Write(s);
  }

  /**
   * The payload write loop of `Package`, corrected: chunks of at most
   * WRITE_STEP bytes, each taken from `data` at the offset already written
   * and put at the matching offset after the start position.
   */
  method WritePayload(out: OutFile, data: array<byte>, fsize: nat) returns (totalWritten: nat)
    requires fsize <= data.Length && out.pos == |out.bytes|
    modifies out
    ensures totalWritten == fsize
    ensures out.bytes == old(out.bytes) + data[..fsize] && out.pos == |out.bytes|
  {
    var startPos := out.Tell();
    totalWritten := 0;
    while totalWritten < fsize
      invariant totalWritten <= fsize
      invariant out.bytes == old(out.bytes) + data[..totalWritten] && out.pos == |out.bytes|
      decreases fsize - totalWritten
    {
      var bytesToWrite := WRITE_STEP;
      if totalWritten + bytesToWrite > fsize {
        bytesToWrite := fsize - totalWritten;
      }
      SeekWrite(out, startPos + totalWritten, data[totalWritten..totalWritten + bytesToWrite]);
      assert data[..totalWritten + bytesToWrite] == data[..totalWritten] + data[totalWritten..totalWritten + bytesToWrite];
      totalWritten := totalWritten + bytesToWrite;
    }
  }

  /**
   * What the payload write loop puts in the file as written: every chunk
   * is taken from the start of the payload, so the first `n` bytes come
   * out as repeated copies of its opening chunk.
   */
  function AsWrittenPayload(d: seq<byte>, n: nat): (r: seq<byte>)
    requires n <= |d|
    ensures |r| == n
    decreases n
  {
    if n <= WRITE_STEP then d[..n]
    else d[..WRITE_STEP] + AsWrittenPayload(d, n - WRITE_STEP)
  }

  /** The first chunk the loop writes, then the rest. */
  lemma AsWrittenPayloadStep(d: seq<byte>, m: nat)
    requires 0 < m <= |d|
    ensures var b := if m < WRITE_STEP then m else WRITE_STEP;
            AsWrittenPayload(d, m) == d[..b] + AsWrittenPayload(d, m - b)
  {
    if m <= WRITE_STEP {
      assert AsWrittenPayload(d, 0) == [];
    }
  }

  /** The payload write loop as written, chunk for chunk. */
  method WritePayloadAsWritten(out: OutFile, data: array<byte>, fsize: nat) returns (totalWritten: nat)
    requires fsize <= data.Length && out.pos == |out.bytes|
    modifies out
    ensures totalWritten == fsize
    ensures out.bytes == old(out.bytes) + AsWrittenPayload(data[..], fsize) && out.pos == |out.bytes|
  {
    ghost var d := data[..];
    ghost var whole := out.bytes + AsWrittenPayload(d, fsize);
    var startPos := out.Tell();
    totalWritten := 0;
    while totalWritten < fsize
      invariant totalWritten <= fsize
      invariant out.bytes + AsWrittenPayload(d, fsize - totalWritten) == whole
      invariant out.pos == |out.bytes| == startPos + totalWritten
      decreases fsize - totalWritten
    {
      var bytesToWrite := WRITE_STEP;
      if totalWritten + bytesToWrite > fsize {
        bytesToWrite := fsize - totalWritten;
      }
      AsWrittenPayloadStep(d, fsize - totalWritten);
      assert data[..bytesToWrite] == d[..bytesToWrite];
      SeekWrite(out, startPos + totalWritten, data[..bytesToWrite]);
      totalWritten := totalWritten + bytesToWrite;
    }
    assert AsWrittenPayload(d, 0) == [];
  }

  /** A payload of at most WRITE_STEP bytes goes out intact: the defect needs a second chunk. */
  lemma AsWrittenPayloadSmall(d: seq<byte>, n: nat)
    requires n <= |d| && n <= WRITE_STEP
    ensures AsWrittenPayload(d, n) == d[..n]
  {
  }

  /**
   * A longer payload whose byte at offset WRITE_STEP differs from its first
   * byte is corrupted: the second chunk repeats the first.
   */
  lemma AsWrittenPayloadCorrupts(d: seq<byte>, n: nat)
    requires WRITE_STEP < n <= |d| && d[WRITE_STEP] != d[0]
    ensures AsWrittenPayload(d, n) != d[..n]
    ensures AsWrittenPayload(d, n)[WRITE_STEP] == d[0]
  {
    var r := AsWrittenPayload(d, n);
    assert r == d[..WRITE_STEP] + AsWrittenPayload(d, n - WRITE_STEP);
    assert r[WRITE_STEP] == AsWrittenPayload(d, n - WRITE_STEP)[0];
    if n - WRITE_STEP > WRITE_STEP {
      assert AsWrittenPayload(d, n - WRITE_STEP) == d[..WRITE_STEP] + AsWrittenPayload(d, n - 2 * WRITE_STEP);
    }
  }

  // ---------------------------------------------------------------------
  // The compression library's stream

  /**
   * `dataStream`: the unread part of the input buffer (`inData` advanced
   * by `inOff`, `inLen` bytes left) and the output buffer the library's
   * output grows by reallocation. A null output buffer is an empty array.
   */
  class DataStream {
    const inData: array<byte>
    var inOff: nat
    var inLen: nat
    var outData: array<byte>
    var outLen: nat

    predicate Valid()
      reads this
    {
      inOff + inLen <= inData.Length && outLen == outData.Length && inData != outData
    }

    /** The input bytes the library has not pulled yet. */
    function Remaining(): seq<byte>
      reads this, inData
      requires Valid()
    {
      inData[inOff..inOff + inLen]
    }

    /** The bytes the library has pushed so far. */
    function Output(): seq<byte>
      reads this, outData
      requires Valid()
    {
      outData[..outLen]
    }

    /** A stream set up to compress or decompress `len` bytes of `data`, with no output yet. */
    constructor (data: array<byte>, len: nat)
      requires len <= data.Length
      ensures Valid() && inData == data && inOff == 0 && inLen == len && outLen == 0
      ensures fresh(outData)
    {
      inData := data;
      inOff := 0;
      inLen := len;
      outData := new byte[0];
      outLen := 0;
    }

    /**
     * `inputCallback`: hands the library the next bytes of the input, as
     * many as it asks for or as are left, and reports how many it gave.
     */
    method InputCallback(buf: array<byte>, size: nat) returns (status: int, rd: nat)
      requires Valid() && size <= buf.Length && buf != inData && buf != outData
      modifies this, buf
      ensures Valid() && outData == old(outData) && outLen == old(outLen)
      ensures status == 0
      ensures rd == if old(inLen) < size then old(inLen) else size
      ensures buf[..rd] == old(Remaining())[..rd] && buf[rd..] == old(buf[rd..])
      ensures Remaining() == old(Remaining())[rd..]
      ensures inData[..] == old(inData[..]) && outData[..] == old(outData[..])
    {
      rd := if inLen < size then inLen else size;
      if rd > 0 {
        forall i | 0 <= i < rd {
          buf[i] := inData[inOff + i];
        }
        inOff := inOff + rd;
        inLen := inLen - rd;
      }
      status := 0;
    }

    /**
     * `outputCallback`: grows the output buffer by `size` bytes, copies the
     * library's bytes to its end, and reports them all as taken.
     */
    method OutputCallback(buf: array<byte>, size: nat) returns (taken: nat)
      requires Valid() && size <= buf.Length && buf != inData
      modifies this
      ensures Valid() && inOff == old(inOff) && inLen == old(inLen)
      ensures taken == size
      ensures Output() == old(Output()) + buf[..size]
      ensures outData == old(outData) || fresh(outData)
    {
      if size > 0 {
        var grown := new byte[outLen + size];
        forall i | 0 <= i < outLen {
          grown[i] := outData[i];
        }
        forall i | outLen <= i < outLen + size {
          grown[i] := buf[i - outLen];
        }
        assert grown[..outLen] == outData[..outLen];
        assert grown[outLen..outLen + size] == buf[..size];
        assert grown[..outLen + size] == grown[..outLen] + grown[outLen..outLen + size];
        outData := grown;
        outLen := outLen + size;
      }
      taken := size;
    }
  }

  /**
   * The library's run over a stream, seen through the two callbacks: it
   * pulls the whole input in buffers of `chunk` bytes, applies `transform`,
   * and on success pushes the result in buffers of `chunk` bytes. `false`
   * is the library's error code.
   */
  method RunCodec(ds: DataStream, transform: seq<byte> -> Option<seq<byte>>, chunk: nat) returns (ok: bool)
    requires ds.Valid() && ds.outLen == 0 && chunk > 0
    modifies ds
    ensures ds.Valid() && ds.inData[..] == old(ds.inData[..])
    ensures ok <==> transform(old(ds.Remaining())).Some?
    ensures ok ==> ds.Output() == transform(old(ds.Remaining())).value
  {
    var buf := new byte[chunk];
    var got := PullAll(ds, buf);
    var result := transform(got);
    if result.None? {
      return false;
    }
    PushAll(ds, buf, result.value);
    return true;
  }

  /** The library's reading half: `inputCallback` until it hands over nothing more. */
  method PullAll(ds: DataStream, buf: array<byte>) returns (got: seq<byte>)
    requires ds.Valid() && buf.Length > 0 && buf != ds.inData && buf != ds.outData
    modifies ds, buf
    ensures ds.Valid() && ds.inData[..] == old(ds.inData[..]) && ds.outData == old(ds.outData) && ds.outLen == old(ds.outLen)
    ensures got == old(ds.Remaining())
  {
    ghost var input := ds.Remaining();
    got := [];
    var rd: nat := buf.Length;
    while rd > 0
      invariant ds.Valid() && ds.inData[..] == old(ds.inData[..])
      invariant ds.outData == old(ds.outData) && ds.outLen == old(ds.outLen)
      invariant got + ds.Remaining() == input
      invariant rd == 0 ==> ds.Remaining() == []
      decreases |ds.Remaining()|, rd
    {
      ghost var left := ds.Remaining();
      var status;
      status, rd := ds.InputCallback(buf, buf.Length);
      SplitAt(got, left, rd);
      got := got + buf[..rd];
    }
    assert got + [] == got;
  }

  lemma SplitAt(got: seq<byte>, left: seq<byte>, k: nat)
    requires k <= |left|
    ensures got + left == (got + left[..k]) + left[k..]
  {
    assert left == left[..k] + left[k..];
  }

  /** The library's writing half: `outputCallback` with one buffer of bytes at a time. */
  method PushAll(ds: DataStream, buf: array<byte>, out: seq<byte>)
    requires ds.Valid() && ds.outLen == 0 && buf.Length > 0 && buf != ds.inData && buf != ds.outData
    modifies ds, buf
    ensures ds.Valid() && ds.inData[..] == old(ds.inData[..])
    ensures ds.Output() == out
  {
    var chunk := buf.Length;
    var pushed := 0;
    while pushed < |out|
      invariant pushed <= |out|
      invariant ds.Valid() && ds.inData[..] == old(ds.inData[..])
      invariant buf != ds.inData && buf != ds.outData && buf.Length == chunk
      invariant ds.Output() == out[..pushed]
      decreases |out| - pushed
    {
      var n := if |out| - pushed < chunk then |out| - pushed else chunk;
      forall i | 0 <= i < n {
        buf[i] := out[pushed + i];
      }
      assert buf[..n] == out[pushed..pushed + n];
      var taken := ds.OutputCallback(buf, n);
      assert out[..pushed + n] == out[..pushed] + out[pushed..pushed + n];
      pushed := pushed + taken;
    }
    assert out[..pushed] == out;
  }
}
