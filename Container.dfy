/**
 * The package container. A package is a 32-byte header of five `%i`
 * fields (major 4, minor 4, name width 8, extension width 8, size width 8)
 * followed by entries `name ext size payload`, with no entry count and no
 * separator. This module holds the layout the writer produces, the reader
 * as a function of the file's bytes, and the round trip between them.
 */
module Container {
  import opened Bytes

  const MAJOR_VERSION: nat := 1
  const MINOR_VERSION: nat := 1

  const NAME_BUFFER: nat := 128
  const EXT_BUFFER: nat := 32
  const SIZE_BUFFER: nat := 32

  const READ_STEP: nat := 26214400
  const WRITE_STEP: nat := 26214400

  const VERSION_WIDTH: nat := 4
  const WIDTH_WIDTH: nat := 8
  const HEADER_SIZE: nat := 32

  datatype Option<T> = None | Some(value: T)

  /**
   * The compression library seen from outside: a compressor that always
   * produces output and a decompressor that may fail.
   */
  datatype Codec = Codec(compress: seq<byte> -> seq<byte>, decompress: seq<byte> -> Option<seq<byte>>)

  /** The library's promise that decompression undoes compression. */
  ghost predicate Inverse(c: Codec) {
    forall s :: c.decompress(c.compress(s)) == Some(s)
  }

  // ---------------------------------------------------------------------
  // Header

  datatype Header = Header(major: int, minor: int, nameWidth: int, extWidth: int, sizeWidth: int)

  /** The header this version writes: version 1.1 and the compile-time field widths. */
  const CURRENT: Header := Header(MAJOR_VERSION, MINOR_VERSION, NAME_BUFFER, EXT_BUFFER, SIZE_BUFFER)

  /** The header's fields fit their `sprintf_s` buffers (4 and 8 bytes, terminator included). */
  predicate Encodable(h: Header) {
    && 0 <= h.major < 1000 && 0 <= h.minor < 1000
    && 0 <= h.nameWidth < 10000000 && 0 <= h.extWidth < 10000000 && 0 <= h.sizeWidth < 10000000
  }

  lemma SmallFormat(n: nat, k: nat)
    requires (k == 3 && n < 1000) || (k == 7 && n < 10000000)
    ensures FormatInt(n) == Digits(n) && |FormatInt(n)| <= k
  {
    Pow10Small();
    DigitsLength(n, k);
    FormatIntSmall(n);
  }

  lemma Pow10Small()
    ensures Pow10(3) == 1000 && Pow10(7) == 10000000
  {
  }

  /** The five header fields as `Package` writes them, in order. */
  function EncodeHeader(h: Header): (r: seq<byte>)
    requires Encodable(h)
    ensures |r| == HEADER_SIZE
  {
    SmallFormat(h.major, 3);
    SmallFormat(h.minor, 3);
    SmallFormat(h.nameWidth, 7);
    SmallFormat(h.extWidth, 7);
    SmallFormat(h.sizeWidth, 7);
    IntField(h.major, VERSION_WIDTH) + IntField(h.minor, VERSION_WIDTH)
      + IntField(h.nameWidth, WIDTH_WIDTH) + IntField(h.extWidth, WIDTH_WIDTH) + IntField(h.sizeWidth, WIDTH_WIDTH)
  }

  /** The five header fields read back with `atoi`. */
  function ParseHeader(b: seq<byte>): Header
    requires |b| == HEADER_SIZE
  {
    Header(Atoi(b[0..4]), Atoi(b[4..8]), Atoi(b[8..16]), Atoi(b[16..24]), Atoi(b[24..32]))
  }

  /** The version gate: only the major and minor version are checked. */
  predicate Compatible(h: Header) {
    h.major == MAJOR_VERSION && h.minor == MINOR_VERSION
  }

  lemma HeaderRoundTrip(h: Header)
    requires Encodable(h)
    ensures ParseHeader(EncodeHeader(h)) == h
    ensures Compatible(ParseHeader(EncodeHeader(h))) <==> h.major == MAJOR_VERSION && h.minor == MINOR_VERSION
  {
    var b := EncodeHeader(h);
    SmallFormat(h.major, 3);
    SmallFormat(h.minor, 3);
    SmallFormat(h.nameWidth, 7);
    SmallFormat(h.extWidth, 7);
    SmallFormat(h.sizeWidth, 7);
    assert b[0..4] == IntField(h.major, 4);
    assert b[4..8] == IntField(h.minor, 4);
    assert b[8..16] == IntField(h.nameWidth, 8);
    assert b[16..24] == IntField(h.extWidth, 8);
    assert b[24..32] == IntField(h.sizeWidth, 8);
    AtoiIntField(h.major, 4);
    AtoiIntField(h.minor, 4);
    AtoiIntField(h.nameWidth, 8);
    AtoiIntField(h.extWidth, 8);
    AtoiIntField(h.sizeWidth, 8);
  }

  lemma FieldBytes(n: nat, w: nat, d: seq<byte>)
    requires (n == 1 && w == 4 && d == [49]) || (n == 128 && w == 8 && d == [49, 50, 56])
          || (n == 32 && w == 8 && d == [51, 50])
    ensures |FormatInt(n)| < w && IntField(n, w) == d + Zeros(w - |d|)
  {
    SmallFormat(n, 3);
    if n == 128 {
      assert Digits(12) == [49, 50];
    } else if n == 32 {
      assert Digits(3) == [51];
    }
  }

  /** The header this version writes, byte for byte: "1", "1", "128", "32", "32", NUL-padded. */
  lemma CurrentHeaderBytes()
    ensures Encodable(CURRENT)
    ensures EncodeHeader(CURRENT) ==
      [49, 0, 0, 0] + [49, 0, 0, 0]
      + [49, 50, 56, 0, 0, 0, 0, 0] + [51, 50, 0, 0, 0, 0, 0, 0] + [51, 50, 0, 0, 0, 0, 0, 0]
    ensures ParseHeader(EncodeHeader(CURRENT)) == CURRENT && Compatible(CURRENT)
  {
    FieldBytes(1, 4, [49]);
    FieldBytes(128, 8, [49, 50, 56]);
    FieldBytes(32, 8, [51, 50]);
    assert Zeros(3) == [0, 0, 0];
    assert Zeros(5) == [0, 0, 0, 0, 0];
    assert Zeros(6) == [0, 0, 0, 0, 0, 0];
    assert IntField(1, 4) == [49, 0, 0, 0];
    assert IntField(128, 8) == [49, 50, 56, 0, 0, 0, 0, 0];
    assert IntField(32, 8) == [51, 50, 0, 0, 0, 0, 0, 0];
    HeaderRoundTrip(CURRENT);
  }

  // ---------------------------------------------------------------------
  // Entries as written

  /**
   * The four buffers of a descriptor: name, extension and size as the
   * fixed-width fields they are stored in, and the payload.
   */
  datatype Record = Record(name: seq<byte>, ext: seq<byte>, size: seq<byte>, data: seq<byte>)

  /**
   * A write-side descriptor: name and extension at their buffer widths,
   * and the size field holding the payload's length, which fits 32 bits.
   */
  predicate Framed(r: Record) {
    |r.name| == NAME_BUFFER && |r.ext| == EXT_BUFFER && |r.data| < UINT32_MODULUS
    && r.size == SizeField(|r.data|)
  }

  /** `strtoul` reads a framed descriptor's size field as its payload length. */
  lemma FramedSize(r: Record)
    requires Framed(r)
    ensures |r.size| == SIZE_BUFFER && Strtoul(r.size) == |r.data|
  {
    SizeFieldValue(|r.data|);
  }

  /**
   * The size field after `memset(size, 0, SIZE_BUFFER)` and
   * `sprintf_s(size, SIZE_BUFFER, "%i", n)`: the writer's field for the
   * compressed length and, corrected, the reader's for the decompressed one.
   */
  function SizeField(n: nat): (r: seq<byte>)
    ensures |r| == SIZE_BUFFER && r[0] != NUL
  {
    IntField(n, SIZE_BUFFER)
  }

  /** `strtoul` reads a size field back as the low 32 bits of the length. */
  lemma SizeFieldParses(n: nat)
    ensures Strtoul(SizeField(n)) == n % UINT32_MODULUS
  {
    StrtoulIntField(n, SIZE_BUFFER);
  }

  /** `%i` prints only the low 32 bits of a length. */
  lemma SizeFieldLow32(n: nat)
    ensures SizeField(n) == SizeField(n % UINT32_MODULUS)
  {
    FormatIntLow32(n);
  }

  /** A length below 2^32 reads back unchanged from its size field. */
  lemma SizeFieldValue(n: nat)
    requires n < UINT32_MODULUS
    ensures Strtoul(SizeField(n)) == n
  {
    SizeFieldParses(n);
    Low32(n);
  }

  /**
   * One entry as `Package` writes it for a descriptor whose compressed
   * payload is `payload`: the name and extension buffers, the rewritten
   * size field, then as many payload bytes as that field says.
   */
  function EntryImage(r: Record, payload: seq<byte>): seq<byte> {
    r.name + r.ext + SizeField(|payload|) + payload[..|payload| % UINT32_MODULUS]
  }

  function EntriesImage(rs: seq<Record>, c: Codec): seq<byte> {
    if rs == [] then [] else EntryImage(rs[0], c.compress(rs[0].data)) + EntriesImage(rs[1..], c)
  }

  /** Writing one more descriptor appends its entry to what was written before. */
  lemma {:induction false} EntriesImageSnoc(rs: seq<Record>, r: Record, c: Codec)
    ensures EntriesImage(rs + [r], c) == EntriesImage(rs, c) + EntryImage(r, c.compress(r.data))
    decreases |rs|
  {
    if rs == [] {
      assert [r][1..] == [];
    } else {
      assert (rs + [r])[1..] == rs[1..] + [r];
      EntriesImageSnoc(rs[1..], r, c);
    }
  }

  /** The whole of `package.bin`: the header once, then one entry per descriptor, in order. */
  function PackageImage(rs: seq<Record>, c: Codec): seq<byte> {
    CurrentHeaderBytes();
    EncodeHeader(CURRENT) + EntriesImage(rs, c)
  }

  // ---------------------------------------------------------------------
  // Reading

  /** A read position in an input file and its end-of-file flag. */
  datatype Cursor = Cursor(pos: nat, eof: bool)

  datatype Chunk = Chunk(field: seq<byte>, next: Cursor)

  /**
   * `istream::read(buf, n)` into a zero-filled `n`-byte buffer: the bytes
   * that remain, up to `n`, land at the front and the rest stay zero; a
   * short read sets the end-of-file flag.
   */
  function ReadInto(bytes: seq<byte>, cur: Cursor, n: nat): (r: Chunk)
    requires cur.pos <= |bytes|
    ensures |r.field| == n && cur.pos <= r.next.pos <= |bytes|
    ensures r.next.pos - cur.pos == if n <= |bytes| - cur.pos then n else |bytes| - cur.pos
    ensures r.next.eof == (cur.eof || r.next.pos - cur.pos < n)
    ensures n > 0 && r.field[0] != NUL ==> r.next.pos > cur.pos
  {
    var k := if n <= |bytes| - cur.pos then n else |bytes| - cur.pos;
    Chunk(Window(bytes, cur.pos, k) + Zeros(n - k), Cursor(cur.pos + k, cur.eof || k < n))
  }

  /** The `k` bytes of `bytes` that start at position `p`, one at a time. */
  function Window(bytes: seq<byte>, p: nat, k: nat): (r: seq<byte>)
    requires p + k <= |bytes|
    ensures |r| == k
    decreases k
  {
    if k == 0 then [] else [bytes[p]] + Window(bytes, p + 1, k - 1)
  }

  /** A window is the slice it covers. */
  lemma {:induction false} WindowSlice(bytes: seq<byte>, p: nat, k: nat)
    requires p + k <= |bytes|
    ensures Window(bytes, p, k) == bytes[p..p + k]
    decreases k
  {
    if k > 0 {
      WindowSlice(bytes, p + 1, k - 1);
      assert bytes[p..p + k] == [bytes[p]] + bytes[p + 1..p + k];
    }
  }

  /** A window splits into two windows side by side. */
  lemma {:induction false} WindowSplit(bytes: seq<byte>, p: nat, a: nat, k: nat)
    requires p + a + k <= |bytes|
    ensures Window(bytes, p, a + k) == Window(bytes, p, a) + Window(bytes, p + a, k)
    decreases a
  {
    if a > 0 {
      WindowSplit(bytes, p + 1, a - 1, k);
      assert Window(bytes, p, a + k) == [bytes[p]] + Window(bytes, p + 1, a - 1 + k);
    }
  }

  /** What a read leaves in its buffer: the bytes it got, then zeros. */
  lemma ReadIntoField(bytes: seq<byte>, cur: Cursor, n: nat)
    requires cur.pos <= |bytes|
    ensures ReadInto(bytes, cur, n).field
            == bytes[cur.pos..ReadInto(bytes, cur, n).next.pos] + Zeros(n - (ReadInto(bytes, cur, n).next.pos - cur.pos))
  {
    var k := if n <= |bytes| - cur.pos then n else |bytes| - cur.pos;
    WindowSlice(bytes, cur.pos, k);
  }

  /** Reading exactly the bytes that are there. */
  lemma ReadExact(bytes: seq<byte>, cur: Cursor, a: seq<byte>, b: seq<byte>)
    requires cur.pos <= |bytes| && bytes[cur.pos..] == a + b
    ensures ReadInto(bytes, cur, |a|) == Chunk(a, Cursor(cur.pos + |a|, cur.eof))
    ensures bytes[cur.pos + |a|..] == b
  {
    ReadIntoField(bytes, cur, |a|);
    assert bytes[cur.pos..cur.pos + |a|] == (a + b)[..|a|] == a;
    assert bytes[cur.pos + |a|..] == (a + b)[|a|..] == b;
    assert a + Zeros(0) == a;
  }

  datatype HeaderRead = HeaderRead(header: Header, next: Cursor)

  /** The widths of the five header fields, in the order they are read. */
  const HEADER_WIDTHS: seq<nat> := [VERSION_WIDTH, VERSION_WIDTH, WIDTH_WIDTH, WIDTH_WIDTH, WIDTH_WIDTH]

  datatype NumbersRead = NumbersRead(values: seq<int>, next: Cursor)

  /**
   * Fields of the given widths read one after another and parsed with `atoi`.
   * The header buffers are not cleared before the read: the model takes the
   * part a short read leaves unwritten as zero, and lets `atoi` stop at the
   * end of a full field.
   */
  function ReadNumbers(bytes: seq<byte>, cur: Cursor, widths: seq<nat>): (r: NumbersRead)
    requires cur.pos <= |bytes|
    ensures |r.values| == |widths| && cur.pos <= r.next.pos <= |bytes|
    decreases |widths|
  {
    if widths == [] then NumbersRead([], cur)
    else
      var field := ReadInto(bytes, cur, widths[0]);
      var rest := ReadNumbers(bytes, field.next, widths[1..]);
      NumbersRead([Atoi(field.field)] + rest.values, rest.next)
  }

  /** The five `atoi`-parsed header fields. */
  function ReadHeader(bytes: seq<byte>): (r: HeaderRead)
    ensures r.next.pos <= |bytes|
  {
    var v := ReadNumbers(bytes, Cursor(0, false), HEADER_WIDTHS);
    HeaderRead(Header(v.values[0], v.values[1], v.values[2], v.values[3], v.values[4]), v.next)
  }

  /** The header as five reads in a row: the major and minor version, then the three widths. */
  lemma ReadHeaderReads(bytes: seq<byte>)
    ensures var major := ReadInto(bytes, Cursor(0, false), VERSION_WIDTH);
            var minor := ReadInto(bytes, major.next, VERSION_WIDTH);
            var name := ReadInto(bytes, minor.next, WIDTH_WIDTH);
            var ext := ReadInto(bytes, name.next, WIDTH_WIDTH);
            var size := ReadInto(bytes, ext.next, WIDTH_WIDTH);
            ReadHeader(bytes)
            == HeaderRead(Header(Atoi(major.field), Atoi(minor.field), Atoi(name.field), Atoi(ext.field), Atoi(size.field)), size.next)
  {
    var w := HEADER_WIDTHS;
    var major := ReadInto(bytes, Cursor(0, false), VERSION_WIDTH);
    var minor := ReadInto(bytes, major.next, VERSION_WIDTH);
    var name := ReadInto(bytes, minor.next, WIDTH_WIDTH);
    var ext := ReadInto(bytes, name.next, WIDTH_WIDTH);
    var size := ReadInto(bytes, ext.next, WIDTH_WIDTH);
    assert w[1..][1..][1..][1..] == [WIDTH_WIDTH] && w[1..][1..][1..][1..][1..] == [];
    assert ReadNumbers(bytes, size.next, []) == NumbersRead([], size.next);
    var r4 := ReadNumbers(bytes, ext.next, w[1..][1..][1..][1..]);
    assert r4 == NumbersRead([Atoi(size.field)], size.next);
    var r3 := ReadNumbers(bytes, name.next, w[1..][1..][1..]);
    assert r3 == NumbersRead([Atoi(ext.field)] + r4.values, size.next);
    var r2 := ReadNumbers(bytes, minor.next, w[1..][1..]);
    assert r2 == NumbersRead([Atoi(name.field)] + r3.values, size.next);
    var r1 := ReadNumbers(bytes, major.next, w[1..]);
    assert r1 == NumbersRead([Atoi(minor.field)] + r2.values, size.next);
    var r0 := ReadNumbers(bytes, Cursor(0, false), w);
    assert r0 == NumbersRead([Atoi(major.field)] + r1.values, size.next);
  }

  /** The entry field widths a package declares. */
  datatype Widths = Widths(name: nat, ext: nat, size: nat)

  /** An empty size field (`strcmp(size, "") == 0`) ends the entry loop. */
  predicate IsTerminator(size: seq<byte>) {
    size == [] || size[0] == NUL
  }

  /**
   * The rewrite as written: `memset` and `sprintf_s` with SIZE_BUFFER on a
   * buffer that has the header's width. `None` when that writes past the
   * end of the buffer.
   */
  function AsWrittenSizeRewrite(size: seq<byte>, n: nat): (r: Option<seq<byte>>)
    ensures r.Some? <==> |size| >= SIZE_BUFFER
    ensures r.Some? ==> |r.value| == |size| && r.value[..SIZE_BUFFER] == SizeField(n)
  {
    if |size| < SIZE_BUFFER then None
    else
      var f := SizeField(n) + size[SIZE_BUFFER..];
      assert f[..SIZE_BUFFER] == SizeField(n);
      Some(f)
  }

  /** How reading one package ends. */
  datatype Outcome = Finished | Incompatible | BadWidth | DecompressFailed

  datatype PackageResult = PackageResult(entries: seq<Record>, outcome: Outcome)

  /**
   * The entry loop of one package from `cur` on. While the end-of-file flag
   * is clear: read the name, extension and size fields into zeroed buffers
   * of the declared widths; an empty size field ends the loop; otherwise
   * read as many payload bytes as `strtoul` makes of the size field and
   * decompress them. A failure ends the loop; a success records the entry
   * with its size field rewritten to the decompressed length.
   */
  function ReadEntries(bytes: seq<byte>, cur: Cursor, w: Widths, decompress: seq<byte> -> Option<seq<byte>>): (r: PackageResult)
    requires cur.pos <= |bytes|
    ensures r.outcome == Finished || r.outcome == DecompressFailed
    decreases |bytes| - cur.pos, 1
  {
    if cur.eof then PackageResult([], Finished) else EntryTurn(bytes, cur, w, decompress)
  }

  /** One turn of the entry loop, from a position where the end-of-file flag is clear, and the loop after it. */
  function EntryTurn(bytes: seq<byte>, cur: Cursor, w: Widths, decompress: seq<byte> -> Option<seq<byte>>): (r: PackageResult)
    requires cur.pos <= |bytes|
    ensures r.outcome == Finished || r.outcome == DecompressFailed
    decreases |bytes| - cur.pos, 0
  {
    var name := ReadInto(bytes, cur, w.name);
    var ext := ReadInto(bytes, name.next, w.ext);
    var size := ReadInto(bytes, ext.next, w.size);
    if IsTerminator(size.field) then PackageResult([], Finished)
    else
      var payload := ReadInto(bytes, size.next, Strtoul(size.field));
      match decompress(payload.field)
      case None => PackageResult([], DecompressFailed)
      case Some(out) =>
        var rest := ReadEntries(bytes, payload.next, w, decompress);
        PackageResult([Record(name.field, ext.field, SizeField(|out|), out)] + rest.entries, rest.outcome)
  }

  predicate NonNegativeWidths(h: Header) {
    h.nameWidth >= 0 && h.extWidth >= 0 && h.sizeWidth >= 0
  }

  /**
   * Reading one package: the header, the version gate, then the entry
   * loop with the widths the header declares. A negative width makes the
   * source's `new char[...]` throw; the model stops there with `BadWidth`.
   */
  function ReadPackage(bytes: seq<byte>, decompress: seq<byte> -> Option<seq<byte>>): PackageResult {
    ReadBody(bytes, ReadHeader(bytes), decompress)
  }

  /** What follows the header read: the version gate, the width check, then the entry loop. */
  function ReadBody(bytes: seq<byte>, h: HeaderRead, decompress: seq<byte> -> Option<seq<byte>>): PackageResult
    requires h.next.pos <= |bytes|
  {
    if !Compatible(h.header) then PackageResult([], Incompatible)
    else if !NonNegativeWidths(h.header) then PackageResult([], BadWidth)
    else ReadEntries(bytes, h.next, Widths(h.header.nameWidth, h.header.extWidth, h.header.sizeWidth), decompress)
  }

  /** Only the version gate reports `Incompatible`, and it recovers nothing. */
  lemma ReadPackageGate(bytes: seq<byte>, decompress: seq<byte> -> Option<seq<byte>>)
    ensures ReadPackage(bytes, decompress).outcome == Incompatible <==> !Compatible(ReadHeader(bytes).header)
    ensures ReadPackage(bytes, decompress).outcome == Incompatible ==> ReadPackage(bytes, decompress).entries == []
  {
    ReadBodyGate(bytes, ReadHeader(bytes), decompress);
  }

  lemma ReadBodyGate(bytes: seq<byte>, h: HeaderRead, decompress: seq<byte> -> Option<seq<byte>>)
    requires h.next.pos <= |bytes|
    ensures ReadBody(bytes, h, decompress).outcome == Incompatible <==> !Compatible(h.header)
    ensures ReadBody(bytes, h, decompress).outcome == Incompatible ==> ReadBody(bytes, h, decompress).entries == []
  {
  }

  /** Entries recovered by a run over several packages, and how many packages it left unread. */
  datatype RunResult = RunResult(entries: seq<Record>, unread: nat)

  /**
   * A run over the packages' results, in order. A package that does not
   * finish (version mismatch, bad width, decompression failure) ends the
   * whole run: its entries and those of earlier packages are kept, and it
   * and every later package stay unread.
   */
  function Run(results: seq<PackageResult>): (r: RunResult)
    ensures r.unread <= |results|
  {
    if results == [] then RunResult([], 0)
    else if results[0].outcome != Finished then RunResult(results[0].entries, |results|)
    else
      var rest := Run(results[1..]);
      RunResult(results[0].entries + rest.entries, rest.unread)
  }

  /** Every package before the first unread one finished, and the first unread one did not. */
  lemma {:induction false} RunOutcomes(results: seq<PackageResult>)
    ensures forall i :: 0 <= i < |results| - Run(results).unread ==> results[i].outcome == Finished
    ensures Run(results).unread > 0 ==> results[|results| - Run(results).unread].outcome != Finished
  {
    if results != [] && results[0].outcome == Finished {
      RunOutcomes(results[1..]);
      assert forall i :: 1 <= i < |results| ==> results[i] == results[1..][i - 1];
    }
  }

  /** A run that stops at package `i` keeps the entries of packages 0..i, the failing one's included. */
  lemma {:induction false} RunStopsAt(results: seq<PackageResult>, i: nat)
    requires i < |results|
    requires forall j :: 0 <= j < i ==> results[j].outcome == Finished
    requires results[i].outcome != Finished
    ensures Run(results).unread == |results| - i
    ensures Run(results).entries == Run(results[..i]).entries + results[i].entries
  {
    if i > 0 {
      var tail := results[1..];
      assert forall j :: 0 <= j < i - 1 ==> tail[j] == results[j + 1];
      RunStopsAt(tail, i - 1);
      assert results[..i][1..] == tail[..i - 1];
    }
  }

  // ---------------------------------------------------------------------
  // Round trip

  /** What the reader makes of a descriptor the writer framed. */
  function Recover(r: Record): Record {
    Record(r.name, r.ext, SizeField(|r.data|), r.data)
  }

  function RecoverAll(rs: seq<Record>): (r: seq<Record>)
    ensures |r| == |rs| && forall i :: 0 <= i < |rs| ==> r[i] == Recover(rs[i])
  {
    if rs == [] then []
    else
      var rest := RecoverAll(rs[1..]);
      assert forall i :: 1 <= i < |rs| ==> ([Recover(rs[0])] + rest)[i] == rest[i - 1];
      [Recover(rs[0])] + rest
  }

  /** A descriptor the writer frames and whose compressed length fits the 32-bit size field. */
  predicate Writable(r: Record, c: Codec) {
    |r.name| == NAME_BUFFER && |r.ext| == EXT_BUFFER && |c.compress(r.data)| < UINT32_MODULUS
  }

  /** A read that finds no bytes left leaves an empty size field, which ends the loop. */
  lemma EofTerminates(bytes: seq<byte>, w: Widths, decompress: seq<byte> -> Option<seq<byte>>)
    ensures ReadEntries(bytes, Cursor(|bytes|, false), w, decompress) == PackageResult([], Finished)
  {
    var name := ReadInto(bytes, Cursor(|bytes|, false), w.name);
    var ext := ReadInto(bytes, name.next, w.ext);
    var size := ReadInto(bytes, ext.next, w.size);
    assert size.next.pos == |bytes|;
    assert w.size > 0 ==> size.field[0] == NUL;
  }

  /** Four consecutive reads over a file that has all of their bytes. */
  lemma FourReads(bytes: seq<byte>, pos: nat, a: seq<byte>, b: seq<byte>, c: seq<byte>, d: seq<byte>, tail: seq<byte>)
    requires pos <= |bytes| && bytes[pos..] == a + (b + (c + (d + tail)))
    ensures ReadInto(bytes, Cursor(pos, false), |a|) == Chunk(a, Cursor(pos + |a|, false))
    ensures ReadInto(bytes, Cursor(pos + |a|, false), |b|) == Chunk(b, Cursor(pos + |a| + |b|, false))
    ensures ReadInto(bytes, Cursor(pos + |a| + |b|, false), |c|) == Chunk(c, Cursor(pos + |a| + |b| + |c|, false))
    ensures ReadInto(bytes, Cursor(pos + |a| + |b| + |c|, false), |d|) == Chunk(d, Cursor(pos + |a| + |b| + |c| + |d|, false))
  {
    ReadExact(bytes, Cursor(pos, false), a, b + (c + (d + tail)));
    ReadExact(bytes, Cursor(pos + |a|, false), b, c + (d + tail));
    ReadExact(bytes, Cursor(pos + |a| + |b|, false), c, d + tail);
    ReadExact(bytes, Cursor(pos + |a| + |b| + |c|, false), d, tail);
  }

  /** One turn of the entry loop, in terms of the four reads it makes. */
  lemma ReadEntriesUnfold(bytes: seq<byte>, cur: Cursor, w: Widths, decompress: seq<byte> -> Option<seq<byte>>,
                          name: Chunk, ext: Chunk, size: Chunk, payload: Chunk)
    requires cur.pos <= |bytes| && !cur.eof
    requires name == ReadInto(bytes, cur, w.name)
    requires ext == ReadInto(bytes, name.next, w.ext)
    requires size == ReadInto(bytes, ext.next, w.size)
    requires !IsTerminator(size.field)
    requires payload == ReadInto(bytes, size.next, Strtoul(size.field))
    requires decompress(payload.field).Some?
    ensures ReadEntries(bytes, cur, w, decompress)
            == PackageResult([Record(name.field, ext.field, SizeField(|decompress(payload.field).value|), decompress(payload.field).value)]
                               + ReadEntries(bytes, payload.next, w, decompress).entries,
                             ReadEntries(bytes, payload.next, w, decompress).outcome)
  {
  }

  /** One turn of the entry loop over four fields that are all present and a payload that decompresses. */
  lemma ReadEntriesStep(bytes: seq<byte>, pos: nat, w: Widths, decompress: seq<byte> -> Option<seq<byte>>,
                        name: seq<byte>, ext: seq<byte>, size: seq<byte>, payload: seq<byte>, tail: seq<byte>,
                        next: nat, out: seq<byte>)
    requires |name| == w.name && |ext| == w.ext && |size| == w.size
    requires pos <= |bytes| && bytes[pos..] == name + (ext + (size + (payload + tail)))
    requires !IsTerminator(size) && Strtoul(size) == |payload| && decompress(payload).Some?
    requires next == pos + |name| + |ext| + |size| + |payload| && out == decompress(payload).value
    ensures next <= |bytes|
    ensures ReadEntries(bytes, Cursor(pos, false), w, decompress)
            == PackageResult([Record(name, ext, SizeField(|out|), out)] + ReadEntries(bytes, Cursor(next, false), w, decompress).entries,
                             ReadEntries(bytes, Cursor(next, false), w, decompress).outcome)
  {
    var p1 := pos + |name|;
    var p2 := p1 + |ext|;
    var p3 := p2 + |size|;
    FourReads(bytes, pos, name, ext, size, payload, tail);
    ReadEntriesUnfold(bytes, Cursor(pos, false), w, decompress,
                      Chunk(name, Cursor(p1, false)), Chunk(ext, Cursor(p2, false)),
                      Chunk(size, Cursor(p3, false)), Chunk(payload, Cursor(next, false)));
  }

  /** A payload that fits the 32-bit size field is written whole. */
  lemma EntryImageWhole(r: Record, p: seq<byte>)
    requires |p| < UINT32_MODULUS
    ensures EntryImage(r, p) == r.name + (r.ext + (SizeField(|p|) + p))
  {
    assert |p| % UINT32_MODULUS == |p|;
    assert p[..|p|] == p;
  }

  lemma Reassociate(a: seq<byte>, b: seq<byte>, c: seq<byte>, d: seq<byte>, e: seq<byte>)
    ensures (a + (b + (c + d))) + e == a + (b + (c + (d + e)))
  {
  }

  /** An entry image whose payload fits the size field, as the four pieces the reader takes apart. */
  lemma EntryImageSplit(bytes: seq<byte>, pos: nat, r: Record, p: seq<byte>, tail: seq<byte>, next: nat)
    requires |p| < UINT32_MODULUS
    requires pos <= |bytes| && bytes[pos..] == EntryImage(r, p) + tail
    requires next == pos + |EntryImage(r, p)|
    ensures bytes[pos..] == r.name + (r.ext + (SizeField(|p|) + (p + tail)))
    ensures next == pos + |r.name| + |r.ext| + SIZE_BUFFER + |p|
    ensures next <= |bytes| && bytes[next..] == tail
  {
    EntryImageWhole(r, p);
    Reassociate(r.name, r.ext, SizeField(|p|), p, tail);
    assert bytes[next..] == bytes[pos..][next - pos..];
  }

  /** Reading one entry image whose payload decompresses. */
  lemma EntryImageRead(bytes: seq<byte>, pos: nat, r: Record, p: seq<byte>, tail: seq<byte>, next: nat,
                       decompress: seq<byte> -> Option<seq<byte>>)
    requires |r.name| == NAME_BUFFER && |r.ext| == EXT_BUFFER && |p| < UINT32_MODULUS && decompress(p).Some?
    requires pos <= |bytes| && bytes[pos..] == EntryImage(r, p) + tail
    requires next == pos + |EntryImage(r, p)|
    ensures next <= |bytes| && bytes[next..] == tail
    ensures ReadEntries(bytes, Cursor(pos, false), Widths(NAME_BUFFER, EXT_BUFFER, SIZE_BUFFER), decompress)
            == PackageResult([Record(r.name, r.ext, SizeField(|decompress(p).value|), decompress(p).value)]
                               + ReadEntries(bytes, Cursor(next, false), Widths(NAME_BUFFER, EXT_BUFFER, SIZE_BUFFER), decompress).entries,
                             ReadEntries(bytes, Cursor(next, false), Widths(NAME_BUFFER, EXT_BUFFER, SIZE_BUFFER), decompress).outcome)
  {
    EntryImageSplit(bytes, pos, r, p, tail, next);
    SizeFieldValue(|p|);
    ReadEntriesStep(bytes, pos, Widths(NAME_BUFFER, EXT_BUFFER, SIZE_BUFFER), decompress, r.name, r.ext, SizeField(|p|), p, tail,
                    next, decompress(p).value);
  }

  /** Reading one entry the writer framed gives its recovered descriptor, then reading goes on after it. */
  lemma EntryRoundTrip(bytes: seq<byte>, pos: nat, r: Record, c: Codec, tail: seq<byte>, next: nat)
    requires Inverse(c) && Writable(r, c)
    requires pos <= |bytes| && bytes[pos..] == EntryImage(r, c.compress(r.data)) + tail
    requires next == pos + |EntryImage(r, c.compress(r.data))|
    ensures next <= |bytes| && bytes[next..] == tail
    ensures ReadEntries(bytes, Cursor(pos, false), Widths(NAME_BUFFER, EXT_BUFFER, SIZE_BUFFER), c.decompress)
            == PackageResult([Recover(r)] + ReadEntries(bytes, Cursor(next, false), Widths(NAME_BUFFER, EXT_BUFFER, SIZE_BUFFER), c.decompress).entries,
                             ReadEntries(bytes, Cursor(next, false), Widths(NAME_BUFFER, EXT_BUFFER, SIZE_BUFFER), c.decompress).outcome)
  {
    assert c.decompress(c.compress(r.data)) == Some(r.data);
    EntryImageRead(bytes, pos, r, c.compress(r.data), tail, next, c.decompress);
  }

  lemma WritableTail(rs: seq<Record>, c: Codec)
    requires rs != [] && forall i :: 0 <= i < |rs| ==> Writable(rs[i], c)
    ensures forall i :: 0 <= i < |rs[1..]| ==> Writable(rs[1..][i], c)
  {
    assert forall i :: 0 <= i < |rs| - 1 ==> rs[1..][i] == rs[i + 1];
  }

  /**
   * Reading back the entries the writer framed, from any offset where they
   * start, recovers every descriptor in order and finishes normally.
   */
  lemma {:induction false} EntriesRoundTrip(bytes: seq<byte>, pos: nat, rs: seq<Record>, c: Codec)
    requires Inverse(c)
    requires forall i :: 0 <= i < |rs| ==> Writable(rs[i], c)
    requires pos <= |bytes| && bytes[pos..] == EntriesImage(rs, c)
    ensures ReadEntries(bytes, Cursor(pos, false), Widths(NAME_BUFFER, EXT_BUFFER, SIZE_BUFFER), c.decompress)
            == PackageResult(RecoverAll(rs), Finished)
    decreases |rs|
  {
    var w := Widths(NAME_BUFFER, EXT_BUFFER, SIZE_BUFFER);
    if rs == [] {
      assert pos == |bytes|;
      EofTerminates(bytes, w, c.decompress);
    } else {
      var e := EntryImage(rs[0], c.compress(rs[0].data));
      var tail := EntriesImage(rs[1..], c);
      assert bytes[pos..] == e + tail;
      var next := pos + |e|;
      EntryRoundTrip(bytes, pos, rs[0], c, tail, next);
      WritableTail(rs, c);
      EntriesRoundTrip(bytes, next, rs[1..], c);
    }
  }

  /** Five consecutive reads of 4, 4, 8, 8 and 8 bytes over a file that has them all. */
  lemma ReadHeaderFields(bytes: seq<byte>, f0: seq<byte>, f1: seq<byte>, f2: seq<byte>, f3: seq<byte>, f4: seq<byte>, rest: seq<byte>)
    requires |f0| == 4 && |f1| == 4 && |f2| == 8 && |f3| == 8 && |f4| == 8
    requires bytes == f0 + (f1 + (f2 + (f3 + (f4 + rest))))
    ensures ReadHeader(bytes) == HeaderRead(Header(Atoi(f0), Atoi(f1), Atoi(f2), Atoi(f3), Atoi(f4)), Cursor(HEADER_SIZE, false))
  {
    ReadHeaderReads(bytes);
    assert bytes[0..] == bytes;
    ReadExact(bytes, Cursor(0, false), f0, f1 + (f2 + (f3 + (f4 + rest))));
    ReadExact(bytes, Cursor(4, false), f1, f2 + (f3 + (f4 + rest)));
    ReadExact(bytes, Cursor(8, false), f2, f3 + (f4 + rest));
    ReadExact(bytes, Cursor(16, false), f3, f4 + rest);
    ReadExact(bytes, Cursor(24, false), f4, rest);
  }

  /** Reading a header the writer encoded gives it back, and the entries start right after it. */
  lemma ReadHeaderOf(h: Header, rest: seq<byte>)
    requires Encodable(h)
    ensures ReadHeader(EncodeHeader(h) + rest) == HeaderRead(h, Cursor(HEADER_SIZE, false))
  {
    SmallFormat(h.major, 3);
    SmallFormat(h.minor, 3);
    SmallFormat(h.nameWidth, 7);
    SmallFormat(h.extWidth, 7);
    SmallFormat(h.sizeWidth, 7);
    var f0, f1 := IntField(h.major, 4), IntField(h.minor, 4);
    var f2, f3, f4 := IntField(h.nameWidth, 8), IntField(h.extWidth, 8), IntField(h.sizeWidth, 8);
    assert EncodeHeader(h) + rest == f0 + (f1 + (f2 + (f3 + (f4 + rest))));
    ReadHeaderFields(EncodeHeader(h) + rest, f0, f1, f2, f3, f4, rest);
    AtoiIntField(h.major, 4);
    AtoiIntField(h.minor, 4);
    AtoiIntField(h.nameWidth, 8);
    AtoiIntField(h.extWidth, 8);
    AtoiIntField(h.sizeWidth, 8);
  }

  /**
   * The round trip: with a decompressor that undoes the compressor,
   * reading what `Package` writes recovers every descriptor's name and
   * extension buffers and its original bytes, in order.
   */
  lemma PackageRoundTrip(rs: seq<Record>, c: Codec)
    requires Inverse(c)
    requires forall i :: 0 <= i < |rs| ==> Writable(rs[i], c)
    ensures ReadPackage(PackageImage(rs, c), c.decompress) == PackageResult(RecoverAll(rs), Finished)
  {
    CurrentHeaderBytes();
    var bytes := PackageImage(rs, c);
    ReadHeaderOf(CURRENT, EntriesImage(rs, c));
    assert bytes[HEADER_SIZE..] == EntriesImage(rs, c);
    EntriesRoundTrip(bytes, HEADER_SIZE, rs, c);
  }

  /** A package holding only the header unpacks to nothing, without error. */
  lemma EmptyPackage(c: Codec)
    ensures ReadPackage(PackageImage([], c), c.decompress) == PackageResult([], Finished)
  {
    CurrentHeaderBytes();
    var bytes := PackageImage([], c);
    ReadHeaderOf(CURRENT, []);
    assert bytes == EncodeHeader(CURRENT) + [];
    EofTerminates(bytes, Widths(NAME_BUFFER, EXT_BUFFER, SIZE_BUFFER), c.decompress);
  }

  /**
   * The size-field rewrite as written overruns the buffer of every package
   * whose header passes the gate but declares a size width below SIZE_BUFFER.
   */
  lemma AsWrittenSizeRewriteOverflows(h: Header, rest: seq<byte>, size: seq<byte>, n: nat)
    requires Encodable(h) && Compatible(h) && h.sizeWidth < SIZE_BUFFER
    requires |size| == h.sizeWidth
    ensures Compatible(ReadHeader(EncodeHeader(h) + rest).header)
    ensures ReadHeader(EncodeHeader(h) + rest).header.sizeWidth == |size|
    ensures AsWrittenSizeRewrite(size, n) == None
  {
    ReadHeaderOf(h, rest);
  }
}
