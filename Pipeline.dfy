/**
 * The packager itself: the descriptors it builds from files, the
 * `Binpressor` object whose four vectors the pipeline fills and drains,
 * and its four stages — collecting file information, writing the
 * package, reading packages back, and saving the unpacked files.
 */
module Pipeline {
  import opened Bytes
  import opened Container
  import opened Streams

  /** The size of the buffers the compression library hands to the stream callbacks. */
  const CODEC_CHUNK: nat := 65536

  /** The extension `boost::filesystem::extension` gives a package: ".bin". */
  const BIN_EXT: seq<byte> := [46, 98, 105, 110]

  /** The directory unpacked files are saved in: "package/". */
  const PACKAGE_DIR: seq<byte> := [112, 97, 99, 107, 97, 103, 101, 47]

  // ---------------------------------------------------------------------
  // Paths and the descriptors built from them

  /**
   * A path as boost decomposes it: the directory part, the stem
   * (`basename`) and the extension with its dot (`extension`).
   */
  datatype FilePath = FilePath(dir: seq<byte>, stem: seq<byte>, ext: seq<byte>)

  /** Path components are C strings: no NUL inside. */
  predicate WellFormed(p: FilePath) {
    NoNul(p.stem) && NoNul(p.ext)
  }

  /** The stem and the extension fit their buffers with room for the terminator. */
  predicate Accepts(p: FilePath) {
    |p.stem| < NAME_BUFFER && |p.ext| < EXT_BUFFER
  }

  /** Every path names an existing file and is well formed. */
  predicate Readable(paths: seq<FilePath>, fs: map<FilePath, seq<byte>>) {
    forall i :: 0 <= i < |paths| ==> paths[i] in fs && WellFormed(paths[i])
  }

  /**
   * The descriptor `CollectFileInfo` builds for an accepted path whose file
   * holds `contents`: the stem and extension NUL-padded to their buffers,
   * the length printed with `%i` into the size buffer, and as many bytes
   * of the file as `strtoul` reads back from that field — the low 32 bits
   * of the length (`SizeFieldParses`).
   */
  function Describe(p: FilePath, contents: seq<byte>): (r: Record)
    requires WellFormed(p) && Accepts(p)
    ensures Framed(r)
    ensures CString(r.name) == p.stem && CString(r.ext) == p.ext
    ensures r.data == contents[..|contents| % UINT32_MODULUS]
  {
    var data := ReadInto(contents, Cursor(0, false), |contents| % UINT32_MODULUS).field;
    ReadIntoField(contents, Cursor(0, false), |contents| % UINT32_MODULUS);
    assert data == contents[..|contents| % UINT32_MODULUS] + Zeros(0);
    SizeFieldLow32(|contents|);
    Record(TextField(p.stem, NAME_BUFFER), TextField(p.ext, EXT_BUFFER), SizeField(|contents|), data)
  }

  /** A file below 4 GiB is described with all of its bytes and its exact length. */
  lemma DescribeWhole(p: FilePath, contents: seq<byte>)
    requires WellFormed(p) && Accepts(p) && |contents| < UINT32_MODULUS
    ensures Describe(p, contents).data == contents
    ensures Strtoul(Describe(p, contents).size) == |contents|
  {
    Low32(|contents|);
    SizeFieldValue(|contents|);
  }

  datatype Collected = Collected(records: seq<Record>, failed: seq<FilePath>)

  /**
   * What `CollectFileInfo` makes of a path list, corrected: a path whose
   * stem or extension does not fit is set aside as failed, every other
   * path becomes a descriptor, both in path order.
   */
  function Collect(paths: seq<FilePath>, fs: map<FilePath, seq<byte>>): (r: Collected)
    requires Readable(paths, fs)
    ensures |r.records| + |r.failed| == |paths|
  {
    if paths == [] then Collected([], [])
    else
      var p := paths[0];
      var rest := Collect(paths[1..], fs);
      if Accepts(p) then Collected([Describe(p, fs[p])] + rest.records, rest.failed)
      else Collected(rest.records, [p] + rest.failed)
  }

  /** A path is set aside exactly when it is on the list and its stem or extension does not fit. */
  lemma {:induction false} CollectFailedMembers(paths: seq<FilePath>, fs: map<FilePath, seq<byte>>)
    requires Readable(paths, fs)
    ensures forall q :: q in Collect(paths, fs).failed <==> q in paths && !Accepts(q)
  {
    if paths != [] {
      CollectFailedMembers(paths[1..], fs);
      assert forall q :: q in paths <==> q == paths[0] || q in paths[1..];
    }
  }

  /** One step of `Collect`: the first path is described or set aside, then the rest follow. */
  lemma CollectCons(paths: seq<FilePath>, fs: map<FilePath, seq<byte>>)
    requires Readable(paths, fs) && paths != []
    ensures Readable(paths[1..], fs)
    ensures Accepts(paths[0]) ==>
              Collect(paths, fs) == Collected([Describe(paths[0], fs[paths[0]])] + Collect(paths[1..], fs).records,
                                              Collect(paths[1..], fs).failed)
    ensures !Accepts(paths[0]) ==>
              Collect(paths, fs) == Collected(Collect(paths[1..], fs).records, [paths[0]] + Collect(paths[1..], fs).failed)
  {
  }

  lemma Shift<T>(a: seq<T>, x: seq<T>, b: seq<T>, whole: seq<T>)
    requires a + (x + b) == whole
    ensures (a + x) + b == whole
  {
    assert (a + x) + b == a + (x + b);
  }

  /** Every descriptor collected is framed: its payload is as long as its size field says. */
  lemma {:induction false} CollectFramed(paths: seq<FilePath>, fs: map<FilePath, seq<byte>>)
    requires Readable(paths, fs)
    ensures forall i :: 0 <= i < |Collect(paths, fs).records| ==> Framed(Collect(paths, fs).records[i])
  {
    if paths != [] {
      CollectFramed(paths[1..], fs);
      var rest := Collect(paths[1..], fs).records;
      if Accepts(paths[0]) {
        var d := Describe(paths[0], fs[paths[0]]);
        assert Collect(paths, fs).records == [d] + rest;
      } else {
        assert Collect(paths, fs).records == rest;
      }
    }
  }

  /**
   * The descriptors are those of the accepted paths, in order, and the
   * failed paths are the rejected ones, in order.
   */
  lemma {:induction false} CollectCounts(paths: seq<FilePath>, fs: map<FilePath, seq<byte>>)
    requires Readable(paths, fs)
    ensures |Collect(paths, fs).records| == |AcceptedOf(paths)|
    ensures Collect(paths, fs).failed == RejectedOf(paths)
    ensures Readable(AcceptedOf(paths), fs) && forall i :: 0 <= i < |AcceptedOf(paths)| ==> Accepts(AcceptedOf(paths)[i])
    ensures Collect(paths, fs).records == DescribeAll(AcceptedOf(paths), fs)
  {
    AcceptedOfReadable(paths, fs);
    if paths != [] {
      CollectCounts(paths[1..], fs);
      var rest := AcceptedOf(paths[1..]);
      if Accepts(paths[0]) {
        assert AcceptedOf(paths) == [paths[0]] + rest;
        assert ([paths[0]] + rest)[1..] == rest;
      } else {
        assert AcceptedOf(paths) == [] + rest == rest;
      }
    }
  }

  /** The accepted paths of a readable list are readable, and accepted. */
  lemma AcceptedOfReadable(paths: seq<FilePath>, fs: map<FilePath, seq<byte>>)
    requires Readable(paths, fs)
    ensures Readable(AcceptedOf(paths), fs) && forall i :: 0 <= i < |AcceptedOf(paths)| ==> Accepts(AcceptedOf(paths)[i])
  {
    var a := AcceptedOf(paths);
    forall i | 0 <= i < |a|
      ensures a[i] in fs && WellFormed(a[i]) && Accepts(a[i])
    {
      assert a[i] in a;
      var j :| 0 <= j < |paths| && paths[j] == a[i];
    }
  }

  function AcceptedOf(paths: seq<FilePath>): (r: seq<FilePath>)
    ensures forall q :: q in r <==> q in paths && Accepts(q)
  {
    if paths == [] then []
    else
      assert forall q :: q in paths <==> q == paths[0] || q in paths[1..];
      (if Accepts(paths[0]) then [paths[0]] else []) + AcceptedOf(paths[1..])
  }

  function RejectedOf(paths: seq<FilePath>): (r: seq<FilePath>)
    ensures forall q :: q in r <==> q in paths && !Accepts(q)
  {
    if paths == [] then []
    else
      assert forall q :: q in paths <==> q == paths[0] || q in paths[1..];
      (if Accepts(paths[0]) then [] else [paths[0]]) + RejectedOf(paths[1..])
  }

  // ---------------------------------------------------------------------
  // The collect loop as written

  /** The state of the collect loop: the path vector, the iterator, the descriptors and the failed paths. */
  datatype CollectState = CollectState(paths: seq<FilePath>, it: nat, records: seq<Record>, failed: seq<FilePath>)

  /**
   * One turn of the collect loop as written. A stem that does not fit
   * moves the path to the failed list and erases it; an extension that
   * does not fit deletes the descriptor and continues without erasing or
   * advancing; any other path becomes a descriptor and is erased.
   */
  function AsWrittenCollectStep(s: CollectState, fs: map<FilePath, seq<byte>>): (r: CollectState)
    requires s.it < |s.paths| && s.paths[s.it] in fs && WellFormed(s.paths[s.it])
    ensures |s.paths[s.it].stem| >= NAME_BUFFER || |s.paths[s.it].ext| < EXT_BUFFER ==> |r.paths| == |s.paths| - 1
  {
    var p := s.paths[s.it];
    var erased := s.paths[..s.it] + s.paths[s.it + 1..];
    if |p.stem| >= NAME_BUFFER then CollectState(erased, s.it, s.records, s.failed + [p])
    else if |p.ext| >= EXT_BUFFER then s
    else CollectState(erased, s.it, s.records + [Describe(p, fs[p])], s.failed)
  }

  /** `k` turns of the loop as written, or fewer if the iterator reaches the end. */
  function AsWrittenCollectRun(s: CollectState, fs: map<FilePath, seq<byte>>, k: nat): CollectState
    requires Readable(s.paths, fs)
    decreases k
  {
    if k == 0 || s.it >= |s.paths| then s
    else
      AsWrittenCollectStepReadable(s, fs);
      AsWrittenCollectRun(AsWrittenCollectStep(s, fs), fs, k - 1)
  }

  /** A turn of the loop as written only erases paths, so the list stays readable. */
  lemma AsWrittenCollectStepReadable(s: CollectState, fs: map<FilePath, seq<byte>>)
    requires Readable(s.paths, fs) && s.it < |s.paths|
    ensures Readable(AsWrittenCollectStep(s, fs).paths, fs)
  {
    var erased := s.paths[..s.it] + s.paths[s.it + 1..];
    assert forall i :: 0 <= i < |erased| ==> erased[i] == s.paths[if i < s.it then i else i + 1];
  }

  /**
   * The loop as written never gets past a path whose stem fits and whose
   * extension does not: after any number of turns the state is unchanged
   * and the loop condition still holds.
   */
  lemma {:induction false} AsWrittenCollectStalls(s: CollectState, fs: map<FilePath, seq<byte>>, k: nat)
    requires Readable(s.paths, fs) && s.it < |s.paths|
    requires |s.paths[s.it].stem| < NAME_BUFFER && |s.paths[s.it].ext| >= EXT_BUFFER
    ensures AsWrittenCollectRun(s, fs, k) == s
    ensures AsWrittenCollectRun(s, fs, k).it < |AsWrittenCollectRun(s, fs, k).paths|
    decreases k
  {
    if k > 0 {
      assert AsWrittenCollectStep(s, fs) == s;
      AsWrittenCollectStalls(s, fs, k - 1);
    }
  }

  /**
   * The body of the collect loop for an accepted path: the name and
   * extension printed into their buffers, the file's length printed into
   * the size buffer, and a zeroed payload of `strtoul(size)` bytes filled
   * by the chunked read loop.
   */
  method MakeDescriptor(p: FilePath, contents: seq<byte>) returns (d: Record)
    requires WellFormed(p) && Accepts(p)
    ensures d == Describe(p, contents)
  {
    var name := TextField(p.stem, NAME_BUFFER);
    var ext := TextField(p.ext, EXT_BUFFER);
    var fsize := |contents|;
    var size := IntField(fsize, SIZE_BUFFER);
    var f := new InFile(contents);
    var n := ParseSizeField(size, fsize);
    var data := new byte[n](_ => NUL);
    var totalRead := ReadChunked(f, data);
    d := Record(name, ext, size, data[..]);
  }

  // ---------------------------------------------------------------------
  // Writing one entry

  /**
   * `elzma_compress_run` over the descriptor's payload through the stream
   * callbacks, and the result copied to a new buffer of `ds.outLen` bytes.
   */
  method Compress(data: array<byte>, len: nat, c: Codec) returns (packed: array<byte>)
    requires len == data.Length
    ensures fresh(packed) && packed[..] == c.compress(data[..])
  {
    var ds := new DataStream(data, len);
    assert ds.Remaining() == data[..];
    var ok := RunCodec(ds, s => Some(c.compress(s)), CODEC_CHUNK);
    packed := CopyOut(ds);
  }

  /**
   * The size field rewritten to the compressed length and written, then
   * as many payload bytes as `strtoul` reads back from that field.
   */
  method WriteSized(out: OutFile, packed: array<byte>) returns (size: seq<byte>)
    requires out.pos == |out.bytes|
    modifies out
    ensures out.pos == |out.bytes|
    ensures size == SizeField(packed.Length)
    ensures out.bytes == old(out.bytes) + size + packed[..packed.Length % UINT32_MODULUS]
  {
    size := SizeField(packed.Length);
    WriteAtEnd(out, size);
    var fsize := ParseSizeField(size, packed.Length);
    var written := WritePayload(out, packed, fsize);
  }

  /** `strtoul(size, NULL, 0)` on a size field printed from `n`. */
  method ParseSizeField(size: seq<byte>, ghost n: nat) returns (fsize: nat)
    requires size == SizeField(n)
    ensures fsize == n % UINT32_MODULUS
  {
    fsize := Strtoul(size);
    SizeFieldParses(n);
  }

  /**
   * One turn of the packaging loop: the name and extension buffers, the
   * payload compressed, the size field rewritten to the compressed length,
   * then the payload in chunks.
   */
  method WriteEntry(out: OutFile, d: Record, c: Codec)
    requires Framed(d) && out.pos == |out.bytes|
    modifies out
    ensures out.pos == |out.bytes|
    ensures out.bytes == old(out.bytes) + EntryImage(d, c.compress(d.data))
  {
    ghost var start := out.bytes;
    WriteAtEnd(out, d.name);
    WriteAtEnd(out, d.ext);
    var data := FromSeq(d.data);
    var oldSize := ParseSizeField(d.size, |d.data|);
    Low32(|d.data|);
    var packed := Compress(data, oldSize, c);
    var size := WriteSized(out, packed);
    Append4(start, d.name, d.ext, size, packed[..packed.Length % UINT32_MODULUS]);
  }

  lemma Append4(s: seq<byte>, a: seq<byte>, b: seq<byte>, c: seq<byte>, d: seq<byte>)
    ensures s + a + b + (c + d) == s + (a + b + c + d)
  {
  }

  /** `write(buf, n)` at the end of the file: the bytes are appended. */
  method WriteAtEnd(out: OutFile, b: seq<byte>)
    requires out.pos == |out.bytes|
    modifies out
    ensures out.pos == |out.bytes| && out.bytes == old(out.bytes) + b
  {
    OverwriteAtEnd(out.bytes, b);
    out.Write(b);
  }

  /** The header this version writes is its five fields printed with `%i` into their buffers. */
  lemma CurrentHeaderFields()
    ensures |FormatInt(MAJOR_VERSION)| < VERSION_WIDTH && |FormatInt(MINOR_VERSION)| < VERSION_WIDTH
    ensures |FormatInt(NAME_BUFFER)| < WIDTH_WIDTH && |FormatInt(EXT_BUFFER)| < WIDTH_WIDTH && |FormatInt(SIZE_BUFFER)| < WIDTH_WIDTH
    ensures Encodable(CURRENT)
    ensures EncodeHeader(CURRENT) == IntField(MAJOR_VERSION, VERSION_WIDTH) + IntField(MINOR_VERSION, VERSION_WIDTH)
              + IntField(NAME_BUFFER, WIDTH_WIDTH) + IntField(EXT_BUFFER, WIDTH_WIDTH) + IntField(SIZE_BUFFER, WIDTH_WIDTH)
  {
    SmallFormat(MAJOR_VERSION, 3);
    SmallFormat(MINOR_VERSION, 3);
    SmallFormat(NAME_BUFFER, 7);
    SmallFormat(EXT_BUFFER, 7);
    SmallFormat(SIZE_BUFFER, 7);
  }

  /** The five header fields, each `memset` to zero and printed with `%i`, written in order. */
  method WriteHeader(out: OutFile)
    requires out.bytes == [] && out.pos == 0
    modifies out
    ensures out.pos == |out.bytes| && out.bytes == EncodeHeader(CURRENT)
  {
    CurrentHeaderFields();
    var majVersion := IntField(MAJOR_VERSION, VERSION_WIDTH);
    var minVersion := IntField(MINOR_VERSION, VERSION_WIDTH);
    var nameBuffer := IntField(NAME_BUFFER, WIDTH_WIDTH);
    var extBuffer := IntField(EXT_BUFFER, WIDTH_WIDTH);
    var sizeBuffer := IntField(SIZE_BUFFER, WIDTH_WIDTH);
    WriteAtEnd(out, majVersion);
    WriteAtEnd(out, minVersion);
    WriteAtEnd(out, nameBuffer);
    WriteAtEnd(out, extBuffer);
    WriteAtEnd(out, sizeBuffer);
  }

  /** One turn of the entry loop: the next entry lands after those already written. */
  method AppendEntry(out: OutFile, ghost header: seq<byte>, ghost done: seq<Record>, d: Record, c: Codec)
    requires Framed(d) && out.pos == |out.bytes| && out.bytes == header + EntriesImage(done, c)
    modifies out
    ensures out.pos == |out.bytes| && out.bytes == header + EntriesImage(done + [d], c)
  {
    WriteEntry(out, d, c);
    EntriesImageSnoc(done, d, c);
    Shift(header, EntriesImage(done, c), EntryImage(d, c.compress(d.data)), header + EntriesImage(done + [d], c));
  }

  // ---------------------------------------------------------------------
  // The package as the write loop as written lays it out

  /** One entry with its payload written by the chunk loop as written (`AsWrittenPayload`). */
  function AsWrittenEntryImage(r: Record, payload: seq<byte>): seq<byte> {
    r.name + r.ext + SizeField(|payload|) + AsWrittenPayload(payload, |payload| % UINT32_MODULUS)
  }

  function AsWrittenEntriesImage(rs: seq<Record>, c: Codec): seq<byte> {
    if rs == [] then [] else AsWrittenEntryImage(rs[0], c.compress(rs[0].data)) + AsWrittenEntriesImage(rs[1..], c)
  }

  /** The whole of "package.bin" as the program writes it. */
  function AsWrittenPackageImage(rs: seq<Record>, c: Codec): seq<byte> {
    CurrentHeaderBytes();
    EncodeHeader(CURRENT) + AsWrittenEntriesImage(rs, c)
  }

  /** A compressed payload of at most one chunk: the entry as written is the corrected one. */
  lemma AsWrittenEntrySmall(r: Record, p: seq<byte>)
    requires |p| <= WRITE_STEP
    ensures AsWrittenEntryImage(r, p) == EntryImage(r, p)
  {
    Low32(|p|);
    AsWrittenPayloadSmall(p, |p|);
  }

  /** When every compressed payload is at most one chunk, the package as written is the corrected one. */
  lemma {:induction false} AsWrittenEntriesSmall(rs: seq<Record>, c: Codec)
    requires forall i :: 0 <= i < |rs| ==> |c.compress(rs[i].data)| <= WRITE_STEP
    ensures AsWrittenEntriesImage(rs, c) == EntriesImage(rs, c)
    decreases |rs|
  {
    if rs != [] {
      AsWrittenEntrySmall(rs[0], c.compress(rs[0].data));
      assert forall i :: 0 <= i < |rs| - 1 ==> rs[1..][i] == rs[i + 1];
      AsWrittenEntriesSmall(rs[1..], c);
    }
  }

  /**
   * The round trip for the writer as written: it holds whenever no
   * compressed payload needs a second chunk.
   */
  lemma AsWrittenPackageRoundTrip(rs: seq<Record>, c: Codec)
    requires Inverse(c)
    requires forall i :: 0 <= i < |rs| ==> Writable(rs[i], c) && |c.compress(rs[i].data)| <= WRITE_STEP
    ensures ReadPackage(AsWrittenPackageImage(rs, c), c.decompress) == PackageResult(RecoverAll(rs), Finished)
  {
    AsWrittenEntriesSmall(rs, c);
    PackageRoundTrip(rs, c);
  }

  // ---------------------------------------------------------------------
  // Reading one package

  /** `new char[n]`, `memset(buf, 0, n)`, `read(buf, n)`. */
  method ReadField(f: InFile, n: nat) returns (buf: array<byte>)
    requires f.Valid()
    modifies f
    ensures f.Valid() && fresh(buf)
    ensures f.Position() == ReadInto(f.bytes, old(f.Position()), n).next
    ensures buf[..] == ReadInto(f.bytes, old(f.Position()), n).field
  {
    buf := new byte[n](_ => NUL);
    ghost var was := buf[..];
    ghost var at := f.Position();
    f.Read(buf, 0, n);
    ReadIntoField(f.bytes, at, n);
    FillWhole(was, buf[..], f.bytes[at.pos..f.pos], ReadInto(f.bytes, at, n).field);
  }

  /** A read into a fresh zeroed buffer leaves the bytes it got, then zeros. */
  lemma FillWhole(was: seq<byte>, now: seq<byte>, got: seq<byte>, field: seq<byte>)
    requires |got| <= |was| && forall i :: 0 <= i < |was| ==> was[i] == NUL
    requires now == was[..0] + got + was[|got|..]
    requires field == got + Zeros(|was| - |got|)
    ensures now == field
  {
    assert was[|got|..] == Zeros(|was| - |got|);
  }

  /**
   * `elzma_decompress_run` over a payload through the stream callbacks
   * and, when it succeeds, the result copied to a new buffer.
   */
  method Decompress(payload: array<byte>, len: nat, decompress: seq<byte> -> Option<seq<byte>>)
    returns (data: array<byte>, ok: bool)
    requires len == payload.Length
    ensures ok <==> decompress(payload[..]).Some?
    ensures ok ==> fresh(data) && data[..] == decompress(payload[..]).value
  {
    var ds := new DataStream(payload, len);
    assert ds.Remaining() == payload[..];
    ok := RunCodec(ds, decompress, CODEC_CHUNK);
    data := CopyOut(ds);
  }

  /** The bytes of the output buffer copied to a new heap buffer (`new char[outLen]`, `memcpy`). */
  method CopyOut(ds: DataStream) returns (a: array<byte>)
    requires ds.Valid()
    ensures fresh(a) && a[..] == ds.Output()
  {
    a := new byte[ds.outLen];
    forall i | 0 <= i < ds.outLen {
      a[i] := ds.outData[i];
    }
  }

  /** An array holding the given bytes. */
  method FromSeq(s: seq<byte>) returns (a: array<byte>)
    ensures fresh(a) && a[..] == s
  {
    a := new byte[|s|](i requires 0 <= i < |s| => s[i]);
  }

  /**
   * One turn of the entry loop from a position that is not at the end:
   * the result is either a terminator, a decompression failure, or a
   * recovered descriptor with its size field rewritten.
   */
  method ReadEntry(f: InFile, w: Widths, decompress: seq<byte> -> Option<seq<byte>>)
    returns (d: Record, stop: bool, failed: bool)
    requires f.Valid() && !f.eof
    modifies f
    ensures f.Valid()
    ensures stop ==> ReadEntries(f.bytes, old(f.Position()), w, decompress) == PackageResult([], Finished)
    ensures !stop && failed ==> ReadEntries(f.bytes, old(f.Position()), w, decompress) == PackageResult([], DecompressFailed)
    ensures !stop && !failed ==> d.size == SizeField(|d.data|) && f.pos > old(f.pos)
    ensures !stop && !failed ==>
              ReadEntries(f.bytes, old(f.Position()), w, decompress)
              == PackageResult([d] + ReadEntries(f.bytes, f.Position(), w, decompress).entries,
                               ReadEntries(f.bytes, f.Position(), w, decompress).outcome)
  {
    ghost var cur := f.Position();
    d, stop, failed := Record([], [], [], []), false, false;
    var name := ReadField(f, w.name);
    ghost var c1 := ReadInto(f.bytes, cur, w.name);
    var ext := ReadField(f, w.ext);
    ghost var c2 := ReadInto(f.bytes, c1.next, w.ext);
    var size := ReadField(f, w.size);
    ghost var c3 := ReadInto(f.bytes, c2.next, w.size);
    if IsTerminator(size[..]) {
      stop := true;
      return;
    }
    var n := Strtoul(size[..]);
    var payload := ReadField(f, n);
    ghost var c4 := ReadInto(f.bytes, c3.next, n);
    var data, ok := Decompress(payload, n, decompress);
    if !ok {
      failed := true;
      return;
    }
    var rewritten := FromSeq(SizeField(data.Length));
    d := Record(name[..], ext[..], rewritten[..], data[..]);
    ReadEntriesUnfold(f.bytes, cur, w, decompress, c1, c2, c3, c4);
  }

  /**
   * The five header fields and the position after them. `ReadField` clears
   * each buffer; the program's header buffers are left uncleared, which the
   * model reads as zero (see `ReadNumbers`).
   */
  method ReadHeaderStream(f: InFile) returns (h: Header)
    requires f.Valid() && f.pos == 0 && !f.eof
    modifies f
    ensures f.Valid()
    ensures ReadHeader(f.bytes) == HeaderRead(h, f.Position())
  {
    var majVersion := ReadField(f, VERSION_WIDTH);
    var minVersion := ReadField(f, VERSION_WIDTH);
    var nameBuffer := ReadField(f, WIDTH_WIDTH);
    var extBuffer := ReadField(f, WIDTH_WIDTH);
    var sizeBuffer := ReadField(f, WIDTH_WIDTH);
    ReadHeaderReads(f.bytes);
    h := Header(Atoi(majVersion[..]), Atoi(minVersion[..]), Atoi(nameBuffer[..]), Atoi(extBuffer[..]), Atoi(sizeBuffer[..]));
  }

  /**
   * The entry loop: read entries while the end-of-file flag is clear,
   * stopping at a terminator or at a payload that does not decompress.
   */
  method ReadEntriesStream(f: InFile, w: Widths, decompress: seq<byte> -> Option<seq<byte>>)
    returns (entries: seq<Record>, outcome: Outcome)
    requires f.Valid()
    modifies f
    ensures PackageResult(entries, outcome) == ReadEntries(f.bytes, old(f.Position()), w, decompress)
  {
    ghost var whole := ReadEntries(f.bytes, f.Position(), w, decompress);
    entries := [];
    while !f.eof
      invariant f.Valid()
      invariant entries + ReadEntries(f.bytes, f.Position(), w, decompress).entries == whole.entries
      invariant ReadEntries(f.bytes, f.Position(), w, decompress).outcome == whole.outcome
      decreases |f.bytes| - f.pos
    {
      ghost var here := ReadEntries(f.bytes, f.Position(), w, decompress);
      var d, stop, failed := ReadEntry(f, w, decompress);
      if stop {
        return entries, Finished;
      }
      if failed {
        return entries, DecompressFailed;
      }
      Prepend(entries, d, here, ReadEntries(f.bytes, f.Position(), w, decompress), whole);
      entries := entries + [d];
    }
    return entries, Finished;
  }

  lemma Prepend(before: seq<Record>, v: Record, here: PackageResult, next: PackageResult, whole: PackageResult)
    requires before + here.entries == whole.entries && here.outcome == whole.outcome
    requires here == PackageResult([v] + next.entries, next.outcome)
    ensures (before + [v]) + next.entries == whole.entries && next.outcome == whole.outcome
  {
    assert (before + [v]) + next.entries == before + ([v] + next.entries);
  }

  /**
   * Reading one package file: the header, the version gate, the widths,
   * then the entry loop.
   */
  method ReadPackageStream(f: InFile, decompress: seq<byte> -> Option<seq<byte>>)
    returns (entries: seq<Record>, outcome: Outcome)
    requires f.Valid() && f.pos == 0 && !f.eof
    modifies f
    ensures Resized(entries)
    ensures PackageResult(entries, outcome) == ReadPackage(f.bytes, decompress)
  {
    var h := ReadHeaderStream(f);
    if !Compatible(h) {
      return [], Incompatible;
    }
    if !NonNegativeWidths(h) {
      return [], BadWidth;
    }
    entries, outcome := ReadEntriesStream(f, Widths(h.nameWidth, h.extWidth, h.sizeWidth), decompress);
    ReadEntriesResized(f.bytes, ReadHeader(f.bytes).next, Widths(h.nameWidth, h.extWidth, h.sizeWidth), decompress);
  }

  /** Every recovered descriptor's size field holds its payload's length, as the reader rewrites it. */
  predicate Resized(rs: seq<Record>) {
    rs == [] || (rs[0].size == SizeField(|rs[0].data|) && Resized(rs[1..]))
  }

  lemma {:induction false} ResizedConcat(a: seq<Record>, b: seq<Record>)
    requires Resized(a) && Resized(b)
    ensures Resized(a + b)
  {
    if a != [] {
      ResizedConcat(a[1..], b);
      assert (a + b)[1..] == a[1..] + b;
    } else {
      assert a + b == b;
    }
  }

  /** The reader rewrites every recovered size field to the decompressed length. */
  lemma {:induction false} ReadEntriesResized(bytes: seq<byte>, cur: Cursor, w: Widths, decompress: seq<byte> -> Option<seq<byte>>)
    requires cur.pos <= |bytes|
    ensures Resized(ReadEntries(bytes, cur, w, decompress).entries)
    decreases |bytes| - cur.pos
  {
    if !cur.eof {
      var name := ReadInto(bytes, cur, w.name);
      var ext := ReadInto(bytes, name.next, w.ext);
      var size := ReadInto(bytes, ext.next, w.size);
      if !IsTerminator(size.field) {
        var payload := ReadInto(bytes, size.next, Strtoul(size.field));
        if decompress(payload.field).Some? {
          var out := decompress(payload.field).value;
          ReadEntriesResized(bytes, payload.next, w, decompress);
          ResizedConcat([Record(name.field, ext.field, SizeField(|out|), out)], ReadEntries(bytes, payload.next, w, decompress).entries);
        }
      }
    }
  }

  // ---------------------------------------------------------------------
  // The disk and the command line

  /** The files on disk, by path: what the stages read and write. */
  class FileSystem {
    var files: map<FilePath, seq<byte>>

    constructor (files: map<FilePath, seq<byte>>)
      ensures this.files == files
    {
      this.files := files;
    }
  }

  /** The package `Package` writes in the working directory: "package.bin". */
  const PACKAGE_FILE: FilePath := FilePath([], [112, 97, 99, 107, 97, 103, 101], BIN_EXT)

  /**
   * A command-line argument as `IsFileOrFolder` sees it: a file, a folder
   * with the files its recursive listing yields, or neither.
   */
  datatype Arg = File(path: FilePath) | Folder(listing: seq<FilePath>) | Invalid

  datatype Sorted = Sorted(files: seq<FilePath>, packages: seq<FilePath>)

  /**
   * Where the constructor puts each argument: a file with the extension
   * ".bin" is a package, any other file is to be packed, every file a
   * folder lists is to be packed whatever its extension, and anything
   * else is ignored.
   */
  function Classify(args: seq<Arg>): Sorted {
    if args == [] then Sorted([], [])
    else
      var rest := Classify(args[1..]);
      match args[0]
      case File(p) =>
        if p.ext != BIN_EXT then Sorted([p] + rest.files, rest.packages)
        else Sorted(rest.files, [p] + rest.packages)
      case Folder(listing) => Sorted(listing + rest.files, rest.packages)
      case Invalid => rest
  }

  /** Every argument lands where it belongs, and nothing else lands anywhere. */
  lemma {:induction false} ClassifyMembers(args: seq<Arg>)
    ensures forall p :: p in Classify(args).packages <==> exists i :: 0 <= i < |args| && args[i] == File(p) && p.ext == BIN_EXT
    ensures forall p :: p in Classify(args).files <==>
              exists i :: 0 <= i < |args| && ((args[i] == File(p) && p.ext != BIN_EXT) || (args[i].Folder? && p in args[i].listing))
  {
    if args != [] {
      ClassifyMembers(args[1..]);
      assert forall i :: 1 <= i < |args| ==> args[i] == args[1..][i - 1];
      assert forall p, i :: 0 <= i < |args| - 1 && args[1..][i] == File(p) ==> args[i + 1] == File(p);
    }
  }

  // ---------------------------------------------------------------------
  // The packager

  /** The outcome of the reading stage for each package, in order. */
  function Results(paths: seq<FilePath>, files: map<FilePath, seq<byte>>, decompress: seq<byte> -> Option<seq<byte>>): seq<PackageResult>
    requires forall i :: 0 <= i < |paths| ==> paths[i] in files
  {
    seq(|paths|, i requires 0 <= i < |paths| => ReadPackage(files[paths[i]], decompress))
  }

  /** What the reading stage makes of a package list: the recovered entries and how many packages stay unread. */
  function Recovered(paths: seq<FilePath>, files: map<FilePath, seq<byte>>, decompress: seq<byte> -> Option<seq<byte>>): RunResult
    requires forall i :: 0 <= i < |paths| ==> paths[i] in files
  {
    Run(Results(paths, files, decompress))
  }

  /** Where `Unpackage` saves a recovered file: "package/" followed by its name and extension. */
  function SavedPath(r: Record): FilePath {
    FilePath(PACKAGE_DIR, CString(r.name), CString(r.ext))
  }

  /**
   * What `Unpackage` saves for a recovered file: as many payload bytes as
   * `strtoul` reads from its rewritten size field, which is the low 32 bits
   * of the payload's length.
   */
  function SavedContents(r: Record): (s: seq<byte>)
    ensures Strtoul(SizeField(|r.data|)) <= |r.data| && s == r.data[..Strtoul(SizeField(|r.data|))]
    ensures |r.data| < UINT32_MODULUS ==> s == r.data
  {
    SizeFieldParses(|r.data|);
    r.data[..|r.data| % UINT32_MODULUS]
  }

  /** The files saved one after the other, later ones replacing earlier ones of the same path. */
  function SaveAll(files: map<FilePath, seq<byte>>, rs: seq<Record>): map<FilePath, seq<byte>>
    decreases |rs|
  {
    if rs == [] then files
    else SaveAll(files[SavedPath(rs[0]) := SavedContents(rs[0])], rs[1..])
  }

  /** Saving never touches a path none of the recovered files is saved under. */
  lemma {:induction false} SaveAllOther(files: map<FilePath, seq<byte>>, rs: seq<Record>, q: FilePath)
    requires forall j :: 0 <= j < |rs| ==> SavedPath(rs[j]) != q
    ensures (q in SaveAll(files, rs)) == (q in files)
    ensures q in files ==> SaveAll(files, rs)[q] == files[q]
    decreases |rs|
  {
    if rs != [] {
      assert forall j :: 0 <= j < |rs| - 1 ==> rs[1..][j] == rs[j + 1];
      SaveAllOther(files[SavedPath(rs[0]) := SavedContents(rs[0])], rs[1..], q);
    }
  }

  /** A recovered file that no later one shares a path with is what ends up saved under its path. */
  lemma {:induction false} SaveAllLast(files: map<FilePath, seq<byte>>, rs: seq<Record>, i: nat)
    requires i < |rs|
    requires forall j :: i < j < |rs| ==> SavedPath(rs[j]) != SavedPath(rs[i])
    ensures SavedPath(rs[i]) in SaveAll(files, rs)
    ensures SaveAll(files, rs)[SavedPath(rs[i])] == SavedContents(rs[i])
    decreases |rs|
  {
    var next := files[SavedPath(rs[0]) := SavedContents(rs[0])];
    assert forall j :: 0 <= j < |rs| - 1 ==> rs[1..][j] == rs[j + 1];
    if i == 0 {
      SaveAllOther(next, rs[1..], SavedPath(rs[0]));
    } else {
      SaveAllLast(next, rs[1..], i - 1);
    }
  }

  /** Where a file ends up after a round trip through a package: "package/" with its own stem and extension. */
  function Unpacked(p: FilePath): FilePath {
    FilePath(PACKAGE_DIR, p.stem, p.ext)
  }

  /** A file the 32-bit size fields can carry, before and after compression. */
  predicate Fits(contents: seq<byte>, c: Codec) {
    |contents| < UINT32_MODULUS && |c.compress(contents)| < UINT32_MODULUS
  }

  /** Every path of a list whose paths are all accepted, described in order. */
  function DescribeAll(paths: seq<FilePath>, fs: map<FilePath, seq<byte>>): (r: seq<Record>)
    requires Readable(paths, fs) && forall i :: 0 <= i < |paths| ==> Accepts(paths[i])
    ensures |r| == |paths|
  {
    if paths == [] then [] else [Describe(paths[0], fs[paths[0]])] + DescribeAll(paths[1..], fs)
  }

  lemma AcceptedTail(paths: seq<FilePath>, fs: map<FilePath, seq<byte>>)
    requires paths != [] && Readable(paths, fs) && forall j :: 0 <= j < |paths| ==> Accepts(paths[j])
    ensures Readable(paths[1..], fs) && forall j :: 0 <= j < |paths[1..]| ==> Accepts(paths[1..][j])
  {
    assert forall j :: 0 <= j < |paths| - 1 ==> paths[1..][j] == paths[j + 1];
  }

  /** The `i`-th description is the description of the `i`-th path. */
  lemma {:induction false} DescribeAllAt(paths: seq<FilePath>, fs: map<FilePath, seq<byte>>, i: nat)
    requires Readable(paths, fs) && (forall j :: 0 <= j < |paths| ==> Accepts(paths[j])) && i < |paths|
    ensures DescribeAll(paths, fs)[i] == Describe(paths[i], fs[paths[i]])
    decreases i
  {
    if i > 0 {
      AcceptedTail(paths, fs);
      DescribeAllAt(paths[1..], fs, i - 1);
    }
  }

  /** When every path is accepted, `Collect` sets none aside and describes each one, in order. */
  lemma {:induction false} CollectAccepted(paths: seq<FilePath>, fs: map<FilePath, seq<byte>>)
    requires Readable(paths, fs) && forall i :: 0 <= i < |paths| ==> Accepts(paths[i])
    ensures Collect(paths, fs) == Collected(DescribeAll(paths, fs), [])
  {
    if paths != [] {
      AcceptedTail(paths, fs);
      CollectAccepted(paths[1..], fs);
    }
  }

  /**
   * The whole pipeline on files that fit: the package `Package` writes
   * reads back without error to one recovered file per path, in order,
   * and each is saved under "package/" with its path's stem and extension
   * and exactly the bytes it had.
   */
  lemma PipelineRoundTrip(paths: seq<FilePath>, fs: map<FilePath, seq<byte>>, c: Codec)
    requires Inverse(c) && Readable(paths, fs)
    requires forall i :: 0 <= i < |paths| ==> Accepts(paths[i]) && Fits(fs[paths[i]], c)
    ensures ReadPackage(PackageImage(Collect(paths, fs).records, c), c.decompress)
            == PackageResult(RecoverAll(Collect(paths, fs).records), Finished)
    ensures |RecoverAll(Collect(paths, fs).records)| == |paths|
    ensures forall i :: 0 <= i < |paths| ==>
              SavedPath(RecoverAll(Collect(paths, fs).records)[i]) == Unpacked(paths[i]) &&
              SavedContents(RecoverAll(Collect(paths, fs).records)[i]) == fs[paths[i]]
  {
    var rs := Collect(paths, fs).records;
    CollectAccepted(paths, fs);
    forall i | 0 <= i < |paths|
      ensures Writable(rs[i], c)
      ensures SavedPath(Recover(rs[i])) == Unpacked(paths[i]) && SavedContents(Recover(rs[i])) == fs[paths[i]]
    {
      DescribeAllAt(paths, fs, i);
      DescribeWhole(paths[i], fs[paths[i]]);
      Low32(|fs[paths[i]]|);
    }
    PackageRoundTrip(rs, c);
  }

  /**
   * After `Unpackage`, when no two paths share a stem and an extension,
   * "package/" holds every packed file with exactly its original bytes.
   */
  lemma UnpackRestores(paths: seq<FilePath>, fs: map<FilePath, seq<byte>>, c: Codec, disk: map<FilePath, seq<byte>>)
    requires Inverse(c) && Readable(paths, fs)
    requires forall i :: 0 <= i < |paths| ==> Accepts(paths[i]) && Fits(fs[paths[i]], c)
    requires forall i, j :: 0 <= i < j < |paths| ==> Unpacked(paths[i]) != Unpacked(paths[j])
    ensures forall i :: 0 <= i < |paths| ==>
              Unpacked(paths[i]) in SaveAll(disk, RecoverAll(Collect(paths, fs).records)) &&
              SaveAll(disk, RecoverAll(Collect(paths, fs).records))[Unpacked(paths[i])] == fs[paths[i]]
  {
    PipelineRoundTrip(paths, fs, c);
    var saved := RecoverAll(Collect(paths, fs).records);
    forall i | 0 <= i < |paths|
      ensures Unpacked(paths[i]) in SaveAll(disk, saved) && SaveAll(disk, saved)[Unpacked(paths[i])] == fs[paths[i]]
    {
      SaveAllLast(disk, saved, i);
    }
  }

  /** One step of a run: the first package's result, then the run over the rest. */
  lemma RunCons(results: seq<PackageResult>, i: nat)
    requires i < |results|
    ensures results[i].outcome != Finished ==> Run(results[i..]) == RunResult(results[i].entries, |results| - i)
    ensures results[i].outcome == Finished ==>
      Run(results[i..]) == RunResult(results[i].entries + Run(results[i + 1..]).entries, Run(results[i + 1..]).unread)
  {
    assert results[i..][1..] == results[i + 1..];
  }

  /** Opening one package and reading it through. */
  method ReadOne(contents: seq<byte>, decompress: seq<byte> -> Option<seq<byte>>)
    returns (entries: seq<Record>, outcome: Outcome)
    ensures Resized(entries)
    ensures PackageResult(entries, outcome) == ReadPackage(contents, decompress)
  {
    var f := new InFile(contents);
    entries, outcome := ReadPackageStream(f, decompress);
  }

  /** One turn of `Unpackage`: the path built from the name and extension, and the bytes written there. */
  method SaveOne(r: Record) returns (path: FilePath, contents: seq<byte>)
    requires r.size == SizeField(|r.data|)
    ensures path == SavedPath(r) && contents == SavedContents(r)
  {
    path := FilePath(PACKAGE_DIR, CString(r.name), CString(r.ext));
    var data := FromSeq(r.data);
    var n := ParseSizeField(r.size, |r.data|);
    var out := new OutFile();
    WriteAtEnd(out, data[..n]);
    contents := out.bytes;
  }

  /**
   * The loop of `ReadFiles` over the package list: each package opened and
   * read through, its entries appended, until one does not finish; that
   * package and every later one stay on the list, `left`.
   */
  method ReadAll(files: map<FilePath, seq<byte>>, paths: seq<FilePath>, decompress: seq<byte> -> Option<seq<byte>>)
    returns (entries: seq<Record>, left: seq<FilePath>)
    requires forall i :: 0 <= i < |paths| ==> paths[i] in files
    ensures Resized(entries)
    ensures entries == Recovered(paths, files, decompress).entries
    ensures left == paths[|paths| - Recovered(paths, files, decompress).unread..]
  {
    ghost var rs := Results(paths, files, decompress);
    var k := 0;
    entries := [];
    while k < |paths|
      invariant k <= |paths| && Resized(entries)
      invariant entries + Run(rs[k..]).entries == Run(rs).entries
      invariant Run(rs[k..]).unread == Run(rs).unread
    {
      var more, outcome := ReadOne(files[paths[k]], decompress);
      RunCons(rs, k);
      ResizedConcat(entries, more);
      if outcome != Finished {
        entries := entries + more;
        left := paths[k..];
        return;
      }
      Shift(entries, more, Run(rs[k + 1..]).entries, Run(rs).entries);
      entries := entries + more;
      k := k + 1;
    }
    assert rs[k..] == [];
    left := [];
  }

  lemma FramedTail(ds: seq<Record>)
    requires ds != [] && forall i :: 0 <= i < |ds| ==> Framed(ds[i])
    ensures Framed(ds[0]) && forall i :: 0 <= i < |ds[1..]| ==> Framed(ds[1..][i])
  {
    assert forall i :: 0 <= i < |ds| - 1 ==> ds[1..][i] == ds[i + 1];
  }

  class Binpressor {
    var filePaths: seq<FilePath>
    var descriptors: seq<Record>
    var inFiles: seq<Record>
    var packages: seq<FilePath>

    /** The descriptors are framed; the recovered files carry their rewritten size. */
    predicate Valid()
      reads this`descriptors, this`inFiles
    {
      (forall i :: 0 <= i < |descriptors| ==> Framed(descriptors[i])) && Resized(inFiles)
    }

    /** The constructor's first half: sorting the arguments into files to pack and packages to read. */
    constructor (args: seq<Arg>)
      ensures Valid()
      ensures filePaths == Classify(args).files && packages == Classify(args).packages
      ensures descriptors == [] && inFiles == []
    {
      var files: seq<FilePath> := [];
      var pkgs: seq<FilePath> := [];
      var i := 0;
      while i < |args|
        invariant 0 <= i <= |args|
        invariant files + Classify(args[i..]).files == Classify(args).files
        invariant pkgs + Classify(args[i..]).packages == Classify(args).packages
      {
        assert args[i..][1..] == args[i + 1..];
        match args[i] {
          case File(p) =>
            if p.ext != BIN_EXT {
              files := files + [p];
            } else {
              pkgs := pkgs + [p];
            }
          case Folder(listing) =>
            files := files + listing;
          case Invalid =>
        }
        i := i + 1;
      }
      filePaths := files;
      packages := pkgs;
      descriptors := [];
      inFiles := [];
    }

    /**
     * `CollectFileInfo`, with a path whose extension does not fit set
     * aside like one whose stem does not fit: every path is taken off the
     * list, accepted ones become descriptors, and the rejected ones are put
     * back as the new path list.
     */
    method CollectFileInfo(fs: FileSystem)
      requires Valid() && Readable(filePaths, fs.files)
      modifies this
      ensures Valid()
      ensures descriptors == old(descriptors) + Collect(old(filePaths), fs.files).records
      ensures filePaths == Collect(old(filePaths), fs.files).failed
      ensures inFiles == old(inFiles) && packages == old(packages)
    {
      ghost var P0 := filePaths;
      var failed: seq<FilePath> := [];
      while filePaths != []
        invariant Valid() && Readable(filePaths, fs.files)
        invariant inFiles == old(inFiles) && packages == old(packages)
        invariant descriptors + Collect(filePaths, fs.files).records == old(descriptors) + Collect(P0, fs.files).records
        invariant failed + Collect(filePaths, fs.files).failed == Collect(P0, fs.files).failed
        decreases |filePaths|
      {
        var p := filePaths[0];
        CollectCons(filePaths, fs.files);
        ghost var rest := Collect(filePaths[1..], fs.files);
        if |p.stem| >= NAME_BUFFER || |p.ext| >= EXT_BUFFER {
          Shift(failed, [p], rest.failed, Collect(P0, fs.files).failed);
          failed := failed + [p];
        } else {
          var d := MakeDescriptor(p, fs.files[p]);
          Shift(descriptors, [d], rest.records, old(descriptors) + Collect(P0, fs.files).records);
          descriptors := descriptors + [d];
        }
        filePaths := filePaths[1..];
      }
      filePaths := failed;
    }

    /**
     * `Package`: when there are descriptors, "package.bin" is opened, the
     * header written, then one entry per descriptor (`WriteEntries`); the
     * file is saved as "package.bin".
     */
    method Package(fs: FileSystem, c: Codec)
      requires Valid()
      modifies this, fs
      ensures Valid() && descriptors == []
      ensures old(descriptors) == [] ==> fs.files == old(fs.files)
      ensures old(descriptors) != [] ==> fs.files == old(fs.files)[PACKAGE_FILE := PackageImage(old(descriptors), c)]
      ensures filePaths == old(filePaths) && inFiles == old(inFiles) && packages == old(packages)
    {
      if descriptors == [] {
        return;
      }
      var out := new OutFile();
      WriteHeader(out);
      WriteEntries(out, out.bytes, c);
      fs.files := fs.files[PACKAGE_FILE := out.bytes];
    }

    /**
     * The packaging loop: each descriptor's entry appended in turn, and the
     * descriptor taken off the list as soon as it is written.
     */
    method WriteEntries(out: OutFile, ghost header: seq<byte>, c: Codec)
      requires Valid() && out.pos == |out.bytes| && out.bytes == header
      modifies this`descriptors, out
      ensures Valid() && descriptors == []
      ensures out.pos == |out.bytes| && out.bytes == header + EntriesImage(old(descriptors), c)
    {
      ghost var done: seq<Record> := [];
      while descriptors != []
        invariant Valid() && done + descriptors == old(descriptors)
        invariant out.pos == |out.bytes| && out.bytes == header + EntriesImage(done, c)
        decreases |descriptors|
      {
        ghost var d := WriteNext(out, header, done, c);
        Shift(done, [d], descriptors, old(descriptors));
        done := done + [d];
      }
      assert done == old(descriptors);
    }

    /** One turn of the packaging loop: the first descriptor's entry appended, and the descriptor erased. */
    method WriteNext(out: OutFile, ghost header: seq<byte>, ghost done: seq<Record>, c: Codec) returns (ghost d: Record)
      requires Valid() && descriptors != []
      requires out.pos == |out.bytes| && out.bytes == header + EntriesImage(done, c)
      modifies this`descriptors, out
      ensures Valid() && [d] + descriptors == old(descriptors)
      ensures out.pos == |out.bytes| && out.bytes == header + EntriesImage(done + [d], c)
    {
      d := descriptors[0];
      FramedTail(descriptors);
      AppendEntry(out, header, done, descriptors[0], c);
      descriptors := descriptors[1..];
    }

    /**
     * `ReadFiles`: each package in turn, its entries appended to the
     * recovered files and the package taken off the list; a package that
     * does not finish ends the stage and stays on the list with every
     * later one.
     */
    method ReadFiles(fs: FileSystem, decompress: seq<byte> -> Option<seq<byte>>)
      requires Valid() && forall i :: 0 <= i < |packages| ==> packages[i] in fs.files
      modifies this
      ensures Valid()
      ensures inFiles == old(inFiles) + Recovered(old(packages), fs.files, decompress).entries
      ensures packages == old(packages)[|old(packages)| - Recovered(old(packages), fs.files, decompress).unread..]
      ensures filePaths == old(filePaths) && descriptors == old(descriptors)
    {
      var before := inFiles;
      var entries, left := ReadAll(fs.files, packages, decompress);
      ResizedConcat(before, entries);
      inFiles := before + entries;
      packages := left;
    }

    /**
     * `Unpackage`: each recovered file saved under "package/" with its name
     * and extension, as many payload bytes as its size field says, and
     * taken off the list.
     */
    method Unpackage(fs: FileSystem)
      requires Valid()
      modifies this, fs
      ensures Valid() && inFiles == []
      ensures fs.files == SaveAll(old(fs.files), old(inFiles))
      ensures filePaths == old(filePaths) && descriptors == old(descriptors) && packages == old(packages)
    {
      while inFiles != []
        invariant Valid()
        invariant SaveAll(fs.files, inFiles) == SaveAll(old(fs.files), old(inFiles))
        invariant filePaths == old(filePaths) && descriptors == old(descriptors) && packages == old(packages)
        decreases |inFiles|
      {
        var path, contents := SaveOne(inFiles[0]);
        fs.files := fs.files[path := contents];
        inFiles := inFiles[1..];
      }
    }
  }
}
