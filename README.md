# Binpressor in Dafny

Binpressor is a command-line packager. It takes files and folders from the command line
and bundles the files into one binary container, `package.bin`. Each file's bytes are
compressed with LZMA. A `.bin` argument is read back instead, and its files are saved
under `package/`. This project models the core of that program as Dafny, and proves
properties of the model:

- the package format: a 32-byte header of five `%i` fields, then one
  `name ext size payload` entry per file, with no count and no separator;
- the chunked read and write loops that move a payload between a file and memory;
- the `dataStream` the compression library pulls from (`inputCallback`) and pushes
  into (`outputCallback`);
- the four stages of the `Binpressor` object: `CollectFileInfo`, `Package`, `ReadFiles`
  and `Unpackage`. They work over its four vectors: file paths, descriptors, recovered
  files and packages.

The project has four modules.

- `Bytes` holds the byte type and the C library's text conventions:
  - `memset`-zeroed buffers;
  - C strings ending at the first NUL;
  - `sprintf_s` with `%s` and `%i`, where `%i` prints the low 32 bits of a value as a
    signed `int`;
  - `atoi`;
  - `strtoul(s, NULL, 0)` with a 32-bit `unsigned long`: white space, an optional sign,
    `0x`/`0` prefixes and saturation.
- `Container` holds the format as the writer lays it out (`PackageImage`) and the reader
  as a function of a file's bytes (`ReadPackage`, `ReadEntries`). It also holds the
  round trip between them (`PackageRoundTrip`).
- `Streams` holds the files and the stream as classes with their fields updated in place
  (`InFile`, `OutFile`, `DataStream`), and the chunked loops as methods proved against
  `ReadInto` and against appending.
- `Pipeline` holds the `Binpressor` class. Its four stage methods are each proved
  against a specification function: `Collect`, `PackageImage`, `Recovered` (a `Run`
  over `ReadPackage` results) and `SaveAll`. The end-to-end lemmas `PipelineRoundTrip`
  and `UnpackRestores` state the whole pipeline's promise: every file that fits comes
  back under `package/` with its own name, extension and bytes. They hold for the
  payload writer corrected as "## Findings" describes. For the writer as written they
  hold only while every compressed payload fits one WRITE_STEP chunk
  (`AsWrittenPackageRoundTrip`). On disk, names are compared byte for byte, as on a
  case-sensitive file system (see "## Left out").

The model follows the 64-bit build (`_WIN64`): `_UINT` is 64 bits wide. The
compression library is a `Codec` value: a compressor, and a decompressor that may fail.
The round-trip lemmas assume only that decompression undoes compression (`Inverse`).
Opening, reading and writing files work over a map from paths to contents.

The header bytes are those of the release C runtime, where `sprintf_s` leaves the rest
of a zeroed buffer alone. The debug runtime fills the unused tail of the buffer with
0xFE, so it would write other bytes.

The model follows the code as written, and not the program's evident intent, except
where "## Findings" lists a corrected member. In particular:

- A decompression failure returns from `ReadFiles` (Binpressor.cpp:477-481). The files
  already recovered from that package and from earlier ones stay in the list of
  recovered files. That package and every later one stay unread. They are not
  discarded, and later packages are not read on.
- A version mismatch also returns from `ReadFiles` (Binpressor.cpp:413-418). It ends
  the whole stage, not just that package.
- The entry loop ends only when the size field is an empty C string
  (Binpressor.cpp:450), or when the end-of-file flag is set before a turn. A non-empty
  size field that is not a number is not a terminator. `strtoul` reads it as 0, and the
  loop goes on to decompress an empty payload.
- A stem or extension that does not fit its buffer is not truncated. A stem that does
  not fit sets the file aside as failed (Binpressor.cpp:201-208). An extension that
  does not fit stalls the collect loop as written, which then never ends
  (Binpressor.cpp:210-214, see "## Findings"). `Collect` and the members built on it
  model the corrected loop, which sets that file aside too.

## Model

| member | source | states |
|---|---|---|
| Bytes.Zeros | Binpressor.cpp:224 | `memset(buf, 0, n)` leaves exactly `n` bytes, every one NUL |
| Bytes.ZerosConcat | Binpressor.cpp:442-444 | two zeroed runs side by side are one zeroed run of the combined length |
| Bytes.CString | Binpressor.cpp:525 | the C string a buffer holds is its longest NUL-free prefix: a prefix of the buffer, free of NUL, and followed by a NUL when shorter than the buffer |
| Bytes.CStringUnique | Binpressor.cpp:525 | those three facts determine the C string: any NUL-free prefix followed by NUL or by the end of the buffer is it |
| Bytes.TextField | Binpressor.cpp:208 | `memset` then `sprintf_s(buf, w, "%s", s)` for a text shorter than `w` gives a `w`-byte buffer that begins with the text and reads back as exactly that C string |
| Bytes.DigitRun | Binpressor.cpp:223 | the digits `strtoul` and `atoi` consume: at most the input, all digits of the base; `DigitRunPrefix` states that it is the longest such prefix |
| Bytes.Digits | Binpressor.cpp:217 | the decimal numeral `%i` prints for a non-negative value: at least one digit, starting with '0' exactly for zero; `DigitsValue` states that it denotes the value |
| Bytes.DigitRunPrefix | Binpressor.cpp:223 | the digits `strtoul` consumes are a prefix of its input, and the byte after them is not a digit of the base |
| Bytes.DigitsValue | Binpressor.cpp:217 | the decimal numeral printed for `n` denotes `n` |
| Bytes.FormatInt | Binpressor.cpp:217 | `%i` of a length prints between 1 and 11 bytes and never starts with NUL |
| Bytes.FormatIntLow32 | Binpressor.cpp:337 | `%i` prints only the low 32 bits of a 64-bit length |
| Bytes.FormatIntSmall | Binpressor.cpp:285-297 | a value that fits an `int` prints as its plain decimal numeral |
| Bytes.IntField | Binpressor.cpp:336-337 | a zeroed `w`-byte buffer with `%i` printed into it has `w` bytes and a non-NUL first byte |
| Bytes.SkipSpace | Binpressor.cpp:413 | the leading white space `atoi` and `strtoul` skip: what is left is no longer and does not start with white space; `SkipSpaceSuffix` states that exactly a white-space prefix is removed |
| Bytes.Atoi | Binpressor.cpp:413-422 | `atoi` within a buffer: white space skipped, an optional sign, then the decimal digits; `AtoiOfDigits` and `AtoiIntField` state what it reads back |
| Bytes.SkipSpaceSuffix | Binpressor.cpp:413 | `atoi` and `strtoul` skip exactly a leading run of white space and nothing else |
| Bytes.Strtoul | Binpressor.cpp:223 | `strtoul(size, NULL, 0)` never exceeds ULONG_MAX of a 32-bit `unsigned long` |
| Bytes.NumeralValue | Binpressor.cpp:223 | a decimal numeral followed by NUL padding is read up to the padding, to its value |
| Bytes.BaseZeroOfNumeral | Binpressor.cpp:223 | with base 0, a numeral without a leading zero followed by NULs is read as decimal |
| Bytes.BaseZeroOfZero | Binpressor.cpp:223 | with base 0, "0" followed by NULs is read as an octal zero |
| Bytes.BaseZeroMagnitude | Binpressor.cpp:223 | the magnitude base 0 reads: hexadecimal after `0x`, octal after `0`, decimal otherwise; `BaseZeroOfNumeral` and `BaseZeroOfZero` state the decimal and octal cases |
| Bytes.StrtoulOfUnsigned | Binpressor.cpp:223 | without white space or sign, `strtoul` returns the base-0 magnitude while it fits |
| Bytes.StrtoulOfNegative | Binpressor.cpp:223 | after a minus sign, `strtoul` returns the magnitude negated modulo 2^32 |
| Bytes.StrtoulIntField | Binpressor.cpp:217-223 | a field printed with `%i` reads back through `strtoul` as the printed value modulo 2^32, negative `int` images included |
| Bytes.AtoiOfDigits | Binpressor.cpp:413-422 | `atoi` of decimal digits followed by NULs is the value of the digits |
| Bytes.AtoiIntField | Binpressor.cpp:420-422 | a field printed with `%i` reads back through `atoi` as the printed value while it fits an `int` |
| Container.SmallFormat | Binpressor.cpp:285-297 | a version below 1000 prints in at most 3 bytes and a width below 10^7 in at most 7, so each fits its 4- or 8-byte buffer with its terminator |
| Container.EncodeHeader | Binpressor.cpp:283-303 | the header `Package` writes is exactly 32 bytes |
| Container.ParseHeader | Binpressor.cpp:413-422 | the five header fields, each read with `atoi` from its 4- or 8-byte buffer; `HeaderRoundTrip` states that it undoes `EncodeHeader` |
| Container.Compatible | Binpressor.cpp:413 | the version gate checks the major and the minor version and nothing else; `ReadPackageGate` states that a package fails exactly there |
| Container.HeaderRoundTrip | Binpressor.cpp:407-422 | the header fields `atoi` reads back are the ones `Package` printed, so the version gate passes exactly for version 1.1 |
| Container.FieldBytes | Binpressor.cpp:289-297 | "1", "128" and "32" fit their buffers and are NUL-padded |
| Container.CurrentHeaderBytes | Binpressor.cpp:283-303 | the header this version writes, byte for byte, reads back as version 1.1 with widths 128, 32 and 32, and passes the gate |
| Container.FramedSize | Binpressor.cpp:314-318 | a framed descriptor's size field is SIZE_BUFFER bytes and `strtoul` reads it as the payload length |
| Container.SizeField | Binpressor.cpp:336-337 | the rewritten size field is SIZE_BUFFER bytes and never an empty string |
| Container.SizeFieldParses | Binpressor.cpp:337-345 | `strtoul` reads a rewritten size field as the low 32 bits of the length printed into it |
| Container.SizeFieldLow32 | Binpressor.cpp:337 | lengths that agree in their low 32 bits print the same size field |
| Container.SizeFieldValue | Binpressor.cpp:344-345 | a length below 2^32 reads back unchanged from its size field |
| Container.EntryImage | Binpressor.cpp:311-356 | one entry as the corrected writer lays it out: name buffer, extension buffer, rewritten size field, then as many payload bytes as the field says; `EntryImageSplit`, `EntryImageWhole` and `EntryRoundTrip` state its layout and that it reads back |
| Container.EntriesImage | Binpressor.cpp:305-368 | the entries of the descriptors, one after another in order; `EntriesImageSnoc` and `EntriesRoundTrip` state it |
| Container.PackageImage | Binpressor.cpp:283-368 | the whole of "package.bin" as the corrected writer lays it out: the current header, then the entries; `PackageRoundTrip` states that it reads back to every descriptor |
| Container.EntriesImageSnoc | Binpressor.cpp:305-368 | writing one more descriptor appends its entry after those already written |
| Container.ReadInto | Binpressor.cpp:446-448 | a read into a zeroed `n`-byte buffer moves the position by the bytes left, up to `n`; it sets end-of-file exactly on a short read; and a buffer whose first byte is not NUL consumed at least one byte |
| Container.ReadIntoField | Binpressor.cpp:442-448 | after such a read the buffer holds the bytes read, then zeros |
| Container.ReadExact | Binpressor.cpp:446-448 | reading exactly the bytes that are there returns them, leaves end-of-file clear, and leaves the rest for the next read |
| Container.ReadNumbers | Binpressor.cpp:407-411 | reading one field per width yields one number per width and moves the position forward, within the file |
| Container.ReadHeader | Binpressor.cpp:407-411 | the header read leaves the position within the file |
| Container.ReadHeaderReads | Binpressor.cpp:407-422 | the header is five reads in a row, 4, 4, 8, 8 and 8 bytes, each parsed with `atoi` |
| Container.IsTerminator | Binpressor.cpp:450 | `strcmp(size, "") == 0`: the size field is an empty C string, that is, empty or starting with NUL; `EofTerminates` states that reading at the end of the file gives one |
| Container.AsWrittenSizeRewrite | Binpressor.cpp:485-486 | the rewrite as written stays in bounds exactly when the size buffer has at least SIZE_BUFFER bytes; then it starts with the new size field and keeps the buffer's length |
| Container.ReadEntries | Binpressor.cpp:436-494 | the entry loop of one package ends only at a terminator or end-of-file, or at a payload that does not decompress |
| Container.EntryTurn | Binpressor.cpp:438-493 | one turn of the entry loop and the loop after it end the same two ways |
| Container.ReadPackage | Binpressor.cpp:396-494 | reading one package file: the header, the version gate, the width check, then the entry loop with the declared widths; `ReadPackageGate`, `EmptyPackage` and `PackageRoundTrip` state its behaviour |
| Container.ReadBody | Binpressor.cpp:413-494 | what follows the header read: an incompatible version or a negative width stops with nothing recovered, otherwise the entry loop runs; `ReadBodyGate` states the gate |
| Container.NonNegativeWidths | Binpressor.cpp:439-441 | the widths `new char[...]` accepts: none negative |
| Container.ReadPackageGate | Binpressor.cpp:413-418 | a package is rejected as incompatible exactly when its major or minor version differs, and then nothing is recovered from it |
| Container.ReadBodyGate | Binpressor.cpp:413-418 | the same gate, after the header is read |
| Container.Run | Binpressor.cpp:394-505 | a run over the packages never leaves more packages unread than there are |
| Container.RunOutcomes | Binpressor.cpp:394-505 | every package before the first unread one finished, and the first unread one did not |
| Container.RunStopsAt | Binpressor.cpp:477-481 | a run that stops at package `i` keeps the entries of packages 0 to `i`, the failing one's included, and leaves `i` and every later package unread |
| Container.Recover | Binpressor.cpp:485-489 | the file the reader recovers from a written descriptor: the same name, extension and bytes, with the size field rewritten to the length; `EntryRoundTrip` states that it is what reading gives |
| Container.RecoverAll | Binpressor.cpp:485-489 | the reader's view of written descriptors keeps their number and order, and each one has its name, its extension and its payload, with the size rewritten |
| Container.EofTerminates | Binpressor.cpp:446-457 | reads at the end of the file leave an empty size field, and the loop ends normally with no entry |
| Container.FourReads | Binpressor.cpp:446-462 | four reads over a file that holds all their bytes return them in turn |
| Container.ReadEntriesUnfold | Binpressor.cpp:438-493 | a turn that reads a non-empty size field and a payload that decompresses records the entry, rewritten to the decompressed length, ahead of what the loop reads next |
| Container.ReadEntriesStep | Binpressor.cpp:438-493 | the same, for an entry whose four fields are all in the file and whose size field gives the payload's length |
| Container.EntryImageWhole | Binpressor.cpp:344-356 | a compressed payload below 2^32 bytes is written whole after its size field |
| Container.EntryImageSplit | Binpressor.cpp:311-356 | a written entry is its name, extension, size field and payload, in that order, and the next entry starts right after it |
| Container.EntryImageRead | Binpressor.cpp:446-493 | reading one written entry whose payload decompresses records it and goes on after it |
| Container.EntryRoundTrip | Binpressor.cpp:446-493 | reading an entry the writer framed gives back its name, its extension and its original bytes, and goes on after it |
| Container.EntriesRoundTrip | Binpressor.cpp:436-494 | reading back the entries the writer wrote, from where they start, recovers every descriptor in order and finishes normally |
| Container.ReadHeaderFields | Binpressor.cpp:407-411 | five reads over a file that holds 32 header bytes parse those bytes and leave the position at 32 |
| Container.ReadHeaderOf | Binpressor.cpp:407-422 | reading an encoded header gives it back, with the entries starting at byte 32 |
| Container.PackageRoundTrip | Binpressor.cpp:387-494 | reading what `Package` writes, with a decompressor that undoes the compressor, recovers every descriptor's name, extension and original bytes, in order, and finishes normally |
| Container.EmptyPackage | Binpressor.cpp:436-457 | for any codec, a package with a header and no entries reads back to nothing, without error |
| Container.AsWrittenSizeRewriteOverflows | Binpressor.cpp:485-486 | for every package that passes the gate but declares a size width below SIZE_BUFFER, the rewrite as written runs past the size buffer |
| Streams.InFile.constructor | Binpressor.cpp:396-397 | an opened file reads from its first byte with end-of-file clear |
| Streams.InFile.Read | Binpressor.cpp:234 | `read(&buf[off], n)` copies the next bytes, up to `n`, to `off` on, leaves the rest of the buffer alone, and moves the position as `ReadInto` says |
| Streams.ReadIntoConcatShort | Binpressor.cpp:227-240 | when the first of two reads runs out of bytes, the two together read as one read of the combined length |
| Streams.ReadIntoConcatFull | Binpressor.cpp:227-240 | the same when the first read gets all its bytes |
| Streams.ReadIntoConcat | Binpressor.cpp:227-240 | two reads one after the other read as one read of their combined length |
| Streams.FillStep | Binpressor.cpp:234 | a read into the zeroed tail of a buffer keeps what came before and leaves zeros after the chunk |
| Streams.ReadStep | Binpressor.cpp:230-235 | one turn of the read loop keeps the buffer as one read of everything asked for so far would leave it |
| Streams.ReadChunked | Binpressor.cpp:227-240 | the chunked read loop fills the zeroed buffer and moves the file position exactly as one read of the whole buffer would |
| Streams.Overwrite | Binpressor.cpp:354-355 | a write at `p` puts the bytes at `p`, keeps what lies before and beyond, and fills a gap past the end with zeros |
| Streams.OverwriteAtEnd | Binpressor.cpp:354-355 | a write at the end of the file appends |
| Streams.OutFile.constructor | Binpressor.cpp:278-279 | a file opened for writing is empty, with the put position at 0 |
| Streams.OutFile.Seek | Binpressor.cpp:354 | `seekp` moves the put position and changes no byte |
| Streams.OutFile.Write | Binpressor.cpp:355 | `write` overwrites at the put position and moves it past the bytes |
| Streams.SeekWrite | Binpressor.cpp:354-355 | a seek to the end and a write append the bytes |
| Streams.WritePayload | Binpressor.cpp:347-362 | the corrected chunked write loop appends exactly the first `fsize` bytes of the payload |
| Streams.AsWrittenPayload | Binpressor.cpp:348-356 | the loop as written emits exactly `n` bytes |
| Streams.AsWrittenPayloadStep | Binpressor.cpp:350-356 | each turn of the loop as written emits the payload's opening chunk, then the loop goes on with the rest of the length |
| Streams.WritePayloadAsWritten | Binpressor.cpp:347-362 | the loop as written appends `fsize` bytes made of repeated copies of the payload's opening chunk |
| Streams.AsWrittenPayloadSmall | Binpressor.cpp:348-356 | a payload of at most WRITE_STEP bytes is still written intact |
| Streams.AsWrittenPayloadCorrupts | Binpressor.cpp:348-356 | a longer payload whose byte at WRITE_STEP differs from its first byte is written wrong: that byte is replaced by the first byte |
| Streams.DataStream.constructor | Binpressor.cpp:316-320 | the stream starts with the whole input unread and no output |
| Streams.DataStream.InputCallback | Binpressor.cpp:46-64 | `inputCallback` hands over the next `min(inLen, size)` bytes, consumes exactly those, leaves the output alone and returns 0 |
| Streams.DataStream.OutputCallback | Binpressor.cpp:66-79 | `outputCallback` appends all `size` bytes to the output, takes them all, and leaves the input alone |
| Streams.RunCodec | Binpressor.cpp:332-334 | a library run through the two callbacks succeeds exactly when the transform does, and then the output is the transform of the whole input |
| Streams.PullAll | Binpressor.cpp:46-64 | calling `inputCallback` until it returns nothing collects exactly the unread input |
| Streams.PushAll | Binpressor.cpp:66-79 | pushing a result buffer by buffer through `outputCallback` leaves exactly that result as the output |
| Pipeline.Describe | Binpressor.cpp:197-240 | a collected descriptor is framed, its name and extension buffers read back as the path's stem and extension, and its payload is the first `strtoul(size)` bytes of the file |
| Pipeline.DescribeWhole | Binpressor.cpp:216-240 | a file below 4 GiB is described with all its bytes and its exact length |
| Pipeline.Collect | Binpressor.cpp:194-257 | every path becomes either a descriptor or a failed path |
| Pipeline.CollectFailedMembers | Binpressor.cpp:201-214 | a path is set aside exactly when it is on the list and its stem or extension does not fit |
| Pipeline.CollectCons | Binpressor.cpp:194-252 | each turn describes the first path or sets it aside, then goes on with the rest |
| Pipeline.CollectFramed | Binpressor.cpp:216-240 | every collected descriptor is framed: its size field holds its payload's length |
| Pipeline.CollectCounts | Binpressor.cpp:194-257 | the descriptors are exactly those of the accepted paths, one per path and in order, and the failed paths are the rejected ones, in order |
| Pipeline.Accepts | Binpressor.cpp:201-214 | a path is kept for packing when its stem is shorter than NAME_BUFFER and its extension shorter than EXT_BUFFER; `CollectFailedMembers` states that the others are set aside |
| Pipeline.AcceptedOfReadable | Binpressor.cpp:201-214 | the paths kept for packing are readable paths whose stem and extension fit |
| Pipeline.AcceptedOf | Binpressor.cpp:201-214 | the accepted paths are exactly the listed paths whose stem and extension fit |
| Pipeline.RejectedOf | Binpressor.cpp:201-214 | the rejected paths are exactly the listed paths whose stem or extension does not fit |
| Pipeline.AsWrittenCollectStep | Binpressor.cpp:195-252 | a turn of the loop as written erases the current path unless its stem fits and its extension does not |
| Pipeline.AsWrittenCollectStepReadable | Binpressor.cpp:195-252 | a turn of the loop as written only ever erases a path, so the paths it leaves are still readable |
| Pipeline.AsWrittenCollectRun | Binpressor.cpp:195-252 | `k` turns of the collect loop as written, or fewer if the iterator reaches the end; `AsWrittenCollectStalls` states that it never gets past an extension that does not fit |
| Pipeline.AsWrittenCollectStalls | Binpressor.cpp:210-214 | the loop as written never gets past a path whose extension does not fit: any number of turns leaves the state unchanged, with the loop condition still true |
| Pipeline.MakeDescriptor | Binpressor.cpp:197-240 | the body of the collect loop builds exactly the descriptor `Describe` specifies |
| Pipeline.Compress | Binpressor.cpp:316-340 | compressing through the stream callbacks yields a new buffer holding the compressed payload |
| Pipeline.WriteSized | Binpressor.cpp:336-356 | the size field is rewritten to the compressed length and written, then as many payload bytes as `strtoul` reads from it |
| Pipeline.ParseSizeField | Binpressor.cpp:345 | `strtoul` of a rewritten size field gives the length modulo 2^32 |
| Pipeline.WriteEntry | Binpressor.cpp:308-356 | one turn of the packaging loop appends exactly the descriptor's entry |
| Pipeline.WriteAtEnd | Binpressor.cpp:311 | a write at the end of the file appends |
| Pipeline.CurrentHeaderFields | Binpressor.cpp:283-297 | each header field fits its buffer with its terminator, and the header is the five fields in order |
| Pipeline.WriteHeader | Binpressor.cpp:283-303 | the header written is exactly the encoded current header |
| Pipeline.AsWrittenEntryImage | Binpressor.cpp:311-356 | one entry with its payload written by the chunk loop as written, every chunk from the start of the payload |
| Pipeline.AsWrittenEntriesImage | Binpressor.cpp:305-368 | the entries as the loop as written lays them out, in order |
| Pipeline.AsWrittenPackageImage | Binpressor.cpp:283-368 | "package.bin" as the program writes it; `AsWrittenEntriesSmall` and `AsWrittenPackageRoundTrip` state when it is the corrected package and reads back |
| Pipeline.AsWrittenEntrySmall | Binpressor.cpp:344-356 | a compressed payload of at most one chunk is written the same by the loop as written and the corrected loop |
| Pipeline.AsWrittenEntriesSmall | Binpressor.cpp:305-368 | when no compressed payload exceeds one chunk, the entries as written are the corrected package's entries |
| Pipeline.AsWrittenPackageRoundTrip | Binpressor.cpp:283-368 | when no compressed payload exceeds one chunk, the package as written reads back without error to every descriptor's file |
| Pipeline.FramedTail | Binpressor.cpp:305-367 | after the first descriptor is written and erased, the descriptors left are still framed |
| Pipeline.AppendEntry | Binpressor.cpp:305-368 | each turn of the entry loop appends the next entry after those already written |
| Pipeline.ReadField | Binpressor.cpp:439-448 | `new char[n]`, `memset` and `read` leave the buffer and the position as `ReadInto` says |
| Pipeline.FillWhole | Binpressor.cpp:442-448 | a read into a fresh zeroed buffer leaves the bytes it got, then zeros |
| Pipeline.Decompress | Binpressor.cpp:466-489 | decompression through the stream callbacks succeeds exactly when the library does, and then yields its output |
| Pipeline.CopyOut | Binpressor.cpp:488-489 | `new char[outLen]` and `memcpy` copy exactly the stream's output |
| Pipeline.ReadEntry | Binpressor.cpp:438-493 | one turn of the entry loop stops at a terminator, fails on decompression, or records an entry with its size rewritten and moves forward, each as `ReadEntries` says |
| Pipeline.ReadHeaderStream | Binpressor.cpp:401-422 | the five header reads give `ReadHeader`'s header and position |
| Pipeline.ReadEntriesStream | Binpressor.cpp:436-494 | the entry loop recovers exactly the entries `ReadEntries` specifies, and ends the same way |
| Pipeline.ReadPackageStream | Binpressor.cpp:396-494 | reading one package file gives exactly `ReadPackage`, with every recovered size field rewritten |
| Pipeline.ResizedConcat | Binpressor.cpp:493 | appending recovered files keeps every size field rewritten |
| Pipeline.ReadEntriesResized | Binpressor.cpp:485-493 | every file the reader recovers has its size field rewritten to its decompressed length |
| Pipeline.ClassifyMembers | Binpressor.cpp:98-109 | an argument is a package exactly when it is a file with extension ".bin"; a path is to be packed exactly when it is another file or is listed in a folder argument |
| Pipeline.Classify | Binpressor.cpp:98-109 | where the constructor puts each argument, in order: a ".bin" file among the packages, another file or a folder's listing among the files to pack; `ClassifyMembers` states both directions |
| Pipeline.Results | Binpressor.cpp:394-499 | the result of reading each package on the list, in order |
| Pipeline.Recovered | Binpressor.cpp:387-508 | what the reading stage makes of a package list: `Run` over each package's `ReadPackage`; `RunOutcomes`, `RunStopsAt` and `ReadAll` state what it recovers and what it leaves |
| Pipeline.SavedPath | Binpressor.cpp:524-534 | where a recovered file is saved: "package/" followed by the C strings in its name and extension buffers; `PipelineRoundTrip` states that this is the original stem and extension |
| Pipeline.SaveAll | Binpressor.cpp:513-558 | the files saved one after another, a later file replacing an earlier one of the same path; `SaveAllOther` and `SaveAllLast` state what ends up on disk |
| Pipeline.SavedContents | Binpressor.cpp:537 | `Unpackage` writes as many payload bytes as `strtoul` reads from the rewritten size field, which is the whole payload when it is below 4 GiB |
| Pipeline.SaveAllOther | Binpressor.cpp:520-554 | saving never touches a path no recovered file is saved under |
| Pipeline.SaveAllLast | Binpressor.cpp:520-554 | a recovered file that no later one shares a path with is what ends up saved under its path |
| Pipeline.DescribeAll | Binpressor.cpp:194-252 | the descriptors of accepted paths, one per path; `DescribeAllAt` states that the `i`-th describes the `i`-th path |
| Pipeline.Unpacked | Binpressor.cpp:524-534 | where a packed file should come back: "package/" with its own stem and extension |
| Pipeline.DescribeAllAt | Binpressor.cpp:194-252 | when every path is accepted, the `i`-th descriptor describes the `i`-th path |
| Pipeline.CollectAccepted | Binpressor.cpp:194-257 | when every path is accepted, none is set aside and each is described, in order |
| Pipeline.PipelineRoundTrip | Binpressor.cpp:111-115 | for files that fit, the package written reads back without error to one file per path, in order, each saved under "package/" with its path's stem and extension and exactly its bytes |
| Pipeline.UnpackRestores | Binpressor.cpp:111-115 | when no two paths share a stem and an extension, "package/" ends up holding every packed file with exactly its original bytes |
| Pipeline.RunCons | Binpressor.cpp:394-505 | the run over the packages from `i` on is package `i`'s result, then, if it finished, the run over the rest |
| Pipeline.ReadOne | Binpressor.cpp:396-499 | opening one package and reading it through gives `ReadPackage`, with every recovered size field rewritten |
| Pipeline.SaveOne | Binpressor.cpp:524-537 | one turn of `Unpackage` saves under "package/" + name + extension, as many payload bytes as the size field says |
| Pipeline.ReadAll | Binpressor.cpp:394-505 | the package loop recovers exactly the run's entries, and leaves on the list the package that did not finish and every one after it |
| Pipeline.Binpressor.constructor | Binpressor.cpp:98-109 | the arguments are sorted into files to pack and packages to read, as `Classify` specifies, and the other two vectors start empty |
| Pipeline.Binpressor.CollectFileInfo | Binpressor.cpp:168-258 | every path is taken off the list; the accepted ones are appended as descriptors and the rejected ones become the new path list, as `Collect` specifies; the other vectors are unchanged |
| Pipeline.Binpressor.Package | Binpressor.cpp:263-382 | with descriptors, "package.bin" becomes their package image and the descriptor list is emptied; without them, no file changes |
| Pipeline.Binpressor.WriteEntries | Binpressor.cpp:305-368 | the loop over the descriptors appends each one's entry after the header, in order, and erases them all |
| Pipeline.Binpressor.WriteNext | Binpressor.cpp:307-367 | one turn writes the first descriptor's entry after those already written and erases it from the front |
| Pipeline.Binpressor.ReadFiles | Binpressor.cpp:387-508 | the recovered files grow by exactly the run's entries; the packages left are the one that stopped the run and those after it; every recovered size field is rewritten |
| Pipeline.Binpressor.Unpackage | Binpressor.cpp:513-558 | every recovered file is saved, in order, and the list is emptied |

## Left out

- Console output, including the progress function and `PrintFilePaths` and `PrintFileDescriptors` (Binpressor.cpp:563-594). These only print.
- `IsFileOrFolder` and `CollectFilePaths` (Binpressor.cpp:135-163) query the operating system. An argument is given as an `Arg` that is already classified, and a folder as the listing its recursive iteration yields.
- File opens always succeed. The "could not open" branches (Binpressor.cpp:243-247, 377-381, 500-504, 548-553) are not modelled. The branch in `ReadFiles` never advances its iterator, so as written it would loop forever.
- The working directory, `_getcwd` and `create_directory` (Binpressor.cpp:529-533). Saved paths are "package/" plus name and extension.
- LZMA itself is the `Codec` parameter. `RunCodec` stands in for `elzma_compress_run` and `elzma_decompress_run`: it pulls all the input through `inputCallback` and pushes the result through `outputCallback`, in buffers of CODEC_CHUNK bytes. The library's real buffer sizes and interleaving are not modelled.
- The 32-bit build and its size guards (Binpressor.cpp:180-190, 424-434). The model follows the `_WIN64` build.
- The totals that `CollectFileInfo` and `Package` add up only for printing (Binpressor.cpp:175-178, 270-276, 373-375).
- Heap ownership (`new`, `delete`, `realloc`, `free`): descriptors are values in the vectors, not pointers.
- A negative width in a header that passes the gate makes `new char[...]` throw (Binpressor.cpp:439-441). No code catches it, so the program ends there, in the constructor (Binpressor.cpp:111-115), and `Unpackage` never runs. The model stops that package with `BadWidth` and ends the reading stage only, so `Unpackage` would still save the files recovered from earlier packages.
- Pipeline.Binpressor.ReadFiles: takes the unread packages off the list once, after the loop, rather than one erase per package. It reads files from a file system that the stage does not change.
- Pipeline.Collect: is the corrected loop, which sets aside a path whose extension does not fit. The loop as written is `AsWrittenCollectStep`, and it stalls on such a path.
- Pipeline.CollectFailedMembers: is about the corrected loop. As written, a path whose extension does not fit is never set aside: the loop stalls on it.
- Pipeline.CollectCons: is a turn of the corrected loop. The turn as written is `AsWrittenCollectStep`.
- Pipeline.CollectCounts: is about the corrected loop. As written, no list with an extension that does not fit is ever fully collected.
- Pipeline.SavedPath: takes the C string in the name and extension buffers and stops at the buffer's end. For a name or extension that fills its buffer with no NUL, which only a crafted package has, `<<` at Binpressor.cpp:525 reads past the heap buffer.
- Pipeline.SaveOne: builds the path with `SavedPath`, with the same reading of a name or extension that has no NUL.
- Pipeline.Binpressor.CollectFileInfo: models the corrected loop, which drains the list from the front. The loop as written is `AsWrittenCollectStep`.
- Bytes.SkipSpace: its own contract states only the length bound and the first remaining byte. The fact that it removes a white-space prefix and nothing else is `SkipSpaceSuffix`.
- Bytes.DigitRun: its own contract states only the length bound and that it is all digits. The prefix fact is `DigitRunPrefix`.
- Container.ReadHeader: its own contract states only the position bound. The field-by-field reading is `ReadHeaderReads`.
- Container.ReadEntries: the size-field rewrite is modelled as corrected, with a fresh SIZE_BUFFER field (see Findings).
- Pipeline.UnpackRestores: the disk is a map whose keys compare stems and extensions byte for byte, as on a case-sensitive file system. On Windows, "Notes.txt" and "NOTES.txt" are one file, and so are the splits ("a", ".b.c") and ("a.b", ".c"). The distinctness it requires does not rule those out, so it does not promise what Windows keeps for them.
- Pipeline.Binpressor.Unpackage: saves under a key of "package/", name and extension, compared byte for byte. A case-insensitive file system, which would merge names that differ only in letter case, is not modelled. A name or extension with no NUL is read as `SavedPath` says.
- Pipeline.SaveAllOther: a different key is a different file. Two keys that name one file on a case-insensitive file system are not related.
- Pipeline.SaveAllLast: "no later file shares its path" means no later file has the same bytes as its key. Names that differ only in letter case are not treated as the same file.
- Names are the bytes of the path's stem and extension. The wide-to-narrow conversion of boost's `path::string()` is not modelled.
- Container.ReadNumbers: the header buffers (Binpressor.cpp:401-411) are not cleared before the read. After a short read, the model takes their unread tail as zero, where the program would see indeterminate bytes. A field that fills its buffer with no NUL is parsed up to the buffer's end, where `atoi` would read past it.
- Container.ReadHeaderReads: relies on the same two readings of the uncleared header buffers as `ReadNumbers`.
- Pipeline.ReadHeaderStream: reads each header field into a zeroed buffer, which the program does not clear. It relies on the same two readings as `ReadNumbers`.
- Container.EntryTurn: a size field that fills its buffer with no NUL is read up to the buffer's end, where `strtoul` would read past it. `strcmp(size, "")` looks only at the first byte. The entry buffers themselves are zeroed, as in the program (Binpressor.cpp:442-444).
- Pipeline.Binpressor.Package: writes each payload with the corrected chunk loop (see Findings). The loop as written agrees with it only for payloads of at most WRITE_STEP bytes (`AsWrittenPackageRoundTrip`).
- Pipeline.Binpressor.WriteEntries: uses the corrected chunk loop, like `Package`.
- Pipeline.Binpressor.WriteNext: uses the corrected chunk loop, like `Package`.
- Pipeline.WriteEntry: uses the corrected chunk loop, like `Package`.
- Pipeline.WriteSized: uses the corrected chunk loop (`WritePayload`), not `WritePayloadAsWritten`.
- Container.EntryImage: lays out the payload as the corrected loop writes it. The layout as written is `AsWrittenEntryImage`.
- Container.PackageImage: is the corrected package. The package as written is `AsWrittenPackageImage`. The two agree when every compressed payload fits one chunk.
- Pipeline.PipelineRoundTrip: is about the corrected package image. See `AsWrittenPackageRoundTrip` for the writer as written.
- Streams.RunCodec: on failure it does not model the partial output that the library may already have pushed. `ReadFiles` frees that output and returns.

## Findings

| source | as written | input that shows it | evidently intended | confidence | as-written member | corrected member |
|---|---|---|---|---|---|---|
| Binpressor.cpp:210-214 | a path whose extension is 32 bytes or longer deletes the descriptor and does `continue` without erasing the path or advancing the iterator | any file whose extension is 32 or more bytes long, with a stem shorter than 128 bytes | set the path aside as failed and move on, as is done for a stem that is too long | not executed | Pipeline.AsWrittenCollectStalls | Pipeline.Binpressor.CollectFileInfo |
| Binpressor.cpp:348-356 | each chunk is written from `descriptor->data`, the start of the payload, not from `data + totalWritten` | a compressed payload longer than WRITE_STEP (26214400) bytes whose byte at offset WRITE_STEP differs from its first byte | write each chunk from the offset already written | not executed | Streams.AsWrittenPayloadCorrupts | Streams.WritePayload |
| Binpressor.cpp:485-486 | the size field is cleared and printed with SIZE_BUFFER (32) on a buffer allocated with the header's size width | a version 1.1 package whose header declares a size width below 32, e.g. 8 | rewrite the size into a buffer of SIZE_BUFFER bytes, or bound the writes by the header's width | not executed | Container.AsWrittenSizeRewriteOverflows | Container.ReadEntries |
