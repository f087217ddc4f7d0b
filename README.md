# SLB2 unpacker — a Dafny model

`slb2unpack` extracts the files packed in an SLB2 container (the package
format of PS4 firmware updates). The container starts with a 0x200-byte
header region. That region holds a 32-byte pack header: the magic "SLB2",
a version, flags, the number of files, the total number of 512-byte blocks
and three reserved words. A table of 48-byte file entries follows it:
block offset, file size, two reserved words and a 32-byte NUL-terminated
file name. The file data follows the header region, with each file padded
to whole 512-byte blocks. The program reads the pack header and checks the
magic. It then checks that the table fits in the header region and reads
the table. Last, it walks the data region with a running cursor and copies
each file out through a 512-byte buffer.

The model works on the container as a byte sequence (`seq<uint8>`). The
result is either a parse error or the ordered list of `(name, bytes)`
outputs, one per entry.

- `little_endian.dfy` (module `LittleEndian`): bytes, 32-bit words, and
  little-endian decoding and encoding of a word. The program reads the
  packed structs straight into memory, so on the little-endian hosts it
  targets every field is a little-endian word.
- `slb2_format.dfy` (module `Slb2Format`): the header and entry records as
  datatypes, decoding them from fixed offsets, and `Parse`. `Parse` applies
  the program's checks in the program's order: short header, bad magic, too
  many entries for the header region, short entry table. The module also
  has a serializer. Its round-trip lemmas show that `Parse` accepts exactly
  the inputs that begin with the serialization of a well-formed container.
- `slb2_extract.dfy` (module `Slb2Extract`): the 512-byte block alignment,
  the cursor as a closed-form sum of aligned sizes, and the bytes a bounded
  copy obtains. `Extract` is the specification of the whole run. Then come
  the lemmas about extraction: where each output comes from, truncated
  inputs, two worked examples, and fields that are decoded but never used.
  Last comes the imperative unpacker. It keeps the running cursor, reuses
  one 512-byte `array` buffer, and loops on the remaining size; it is
  proved equal to `Extract`.

The model follows what the program does:
- The program reads the 32-byte header and then exactly `file_count` 48-byte
  records. It does not read a full 512-byte header region.
- The magic check comes before the table-size check. The table-size check
  comes before the table is read. So a too-large `file_count` is refused
  whatever the input's length.
- A data read that comes up short is not an error. The copy loop just stops,
  and the output is shorter.
- `block_offset` is printed but never used to seek.

## Model

| member | source | states |
|---|---|---|
| LittleEndian.ReadU32Bytes | slb2unpack.c:43-51 | byte k of a decoded word is the byte stored at offset k (least significant first) |
| LittleEndian.DecodeEncode | slb2unpack.c:43-51 | decoding the four-byte encoding of any word gives that word back |
| LittleEndian.EncodeDecode | slb2unpack.c:43-51 | encoding a decoded word gives back the four bytes it was read from |
| LittleEndian.ReadU32Local | slb2unpack.c:27-51 | a field's value depends only on its own four bytes |
| Slb2Format.NameOf | slb2unpack.c:31 | the output name is a NUL-free prefix of the 32-byte buffer that ends at the first NUL, or is the whole buffer when there is none |
| Slb2Format.NameOfUnique | slb2unpack.c:116 | any NUL-free prefix that ends at a NUL or at the end of the buffer is that name, so the name is well defined |
| Slb2Format.DecodeEntry | slb2unpack.c:27-32 | an entry's name buffer is the record's last 32 bytes |
| Slb2Format.DecodeTable | slb2unpack.c:99 | one `fread` of n records gives exactly n entries, each with a 32-byte name buffer |
| Slb2Format.DecodeTableAt | slb2unpack.c:99 | entry i of the table read by one `fread` of `file_count` records is the record 48·i bytes after the table's start |
| Slb2Format.Parse | slb2unpack.c:76-102 | an accepted container has the SLB2 magic and exactly `file_count` ≤ 10 entries |
| Slb2Format.MagicBytesAgree | slb2unpack.c:10 | the first word equals 0x32424C53 exactly when the first four bytes are 'S','L','B','2' |
| Slb2Format.ParseOutcome | slb2unpack.c:76-102 | each outcome (short header, bad magic, too many entries, short table, success) happens exactly under its condition; the count check does not depend on the input's length |
| Slb2Format.ParsedEntryFields | slb2unpack.c:14-32 | entry i holds the words at 32+48·i+{0,4,8,12} and the name buffer at 32+48·i+16..+48 |
| Slb2Format.EncodeTableLength | slb2unpack.c:99 | a table of n entries with 32-byte names takes 48·n bytes |
| Slb2Format.HeaderRoundTrip | slb2unpack.c:43-51 | decoding an encoded header gives that header back |
| Slb2Format.EntryRoundTrip | slb2unpack.c:27-32 | decoding an encoded entry gives that entry back |
| Slb2Format.TableRoundTrip | slb2unpack.c:99 | decoding an encoded table gives that table back |
| Slb2Format.HeaderBytes | slb2unpack.c:76 | the first 32 bytes are the encoding of the header decoded from them |
| Slb2Format.EntryBytes | slb2unpack.c:27-32 | a 48-byte record is the encoding of the entry decoded from it |
| Slb2Format.TableBytes | slb2unpack.c:99 | the table bytes are the encoding of the entries decoded from them |
| Slb2Format.ParseSerialize | slb2unpack.c:76-102 | an input that begins with a well-formed container's serialization parses to that container, whatever follows |
| Slb2Format.ParsedIsSerialized | slb2unpack.c:76-102 | a parsed container is well formed and the input begins with its serialization |
| Slb2Format.ParseIffSerialized | slb2unpack.c:76-102 | parsing gives c exactly when c is well formed and the input begins with c's serialization |
| Slb2Extract.Align512 | slb2unpack.c:129 | the advance `(fsize + 511) & ~511` is a multiple of 512, is at least fsize and is less than fsize + 512 |
| Slb2Extract.Align512Least | slb2unpack.c:129 | no smaller multiple of 512 holds fsize bytes |
| Slb2Extract.Align512Examples | slb2unpack.c:129 | 0→0, 1→512, 511→512, 512→512, 513→1024, 600→1024 |
| Slb2Extract.AlignedSum | slb2unpack.c:129 | a sum of aligned sizes is a whole number of blocks |
| Slb2Extract.DataOffset | slb2unpack.c:108-129 | the cursor, 0x200 plus the aligned sizes of the earlier entries, is always on a block boundary at or after 0x200 |
| Slb2Extract.DataOffsetStep | slb2unpack.c:128-129 | the cursor moves from entry i to entry i+1 by the aligned size of entry i |
| Slb2Extract.DataOffsetMonotone | slb2unpack.c:129 | the cursor never moves backwards |
| Slb2Extract.DataRegionsDisjoint | slb2unpack.c:108-137 | the bytes copied for entry i end no later than where any later entry's data starts |
| Slb2Extract.DataOffsetBySizes | slb2unpack.c:122-129 | the cursor depends on the entries' file sizes only, not on block offsets or any other field |
| Slb2Extract.Available | slb2unpack.c:131 | a read at a position past the end obtains nothing; otherwise it can obtain everything up to the end |
| Slb2Extract.ReadRange | slb2unpack.c:131-137 | a copy of size bytes from pos obtains min(size, bytes left) bytes, and they are the input's bytes from pos on |
| Slb2Extract.ReadRangeComplete | slb2unpack.c:131-137 | when the input holds the whole entry, the copy is exactly the size bytes at pos |
| Slb2Extract.ReadRangePrefix | slb2unpack.c:131-137 | reading from a cut-down input gives a prefix of what the whole input gives |
| Slb2Extract.Extract | slb2unpack.c:104-140 | extraction fails exactly when parsing fails, with the same error, and otherwise gives one output per entry |
| Slb2Extract.EntryOutput | slb2unpack.c:116-137 | an entry's output is named by a NUL-free prefix of its name buffer and holds at most file_size bytes, all of them exactly when the size is 0 or the input reaches the end of the entry's data |
| Slb2Extract.ExtractIs | slb2unpack.c:104-140 | outputs that equal the entries' outputs one by one, in table order, are exactly what extraction gives |
| Slb2Extract.ExtractedFromBytes | slb2unpack.c:99-140 | output i is named by the NUL-terminated name at 32+48·i+16 (at most 32 bytes) and holds the bytes at the cursor that the size word at 32+48·i+4 asks for |
| Slb2Extract.OutputComplete | slb2unpack.c:131-137 | an output holds all of its entry's bytes exactly when the size is 0 or the input reaches the end of that entry's data |
| Slb2Extract.ParsePrefix | slb2unpack.c:99-102 | parsing reads nothing past the entry table |
| Slb2Extract.TruncatedInput | slb2unpack.c:99-137 | cutting the input after the table still succeeds, with the same names, and each output is a prefix of the full one |
| Slb2Extract.SecondEntryAfterAlignedFirst | slb2unpack.c:108-129 | after a 600-byte first entry, the second entry is read at 1536 whatever its block offset |
| Slb2Extract.SingleEntryExample | slb2unpack.c:76-140 | the one-entry container `ExampleContainer` ("A.BIN", 10 bytes), padded to its block, gives exactly one output "A.BIN" with those 10 bytes |
| Slb2Extract.ParseOutcomeAgrees | slb2unpack.c:81-102 | parsing looks only at the input length, the magic and the entry count before reading the table |
| Slb2Extract.HeaderWordsAgree | slb2unpack.c:44-47 | two inputs that agree on the non-informational bytes agree on the magic and on the entry count |
| Slb2Extract.EntryAgrees | slb2unpack.c:27-32 | two inputs that agree on the non-informational bytes agree on each entry's size and name |
| Slb2Extract.ParseAgrees | slb2unpack.c:81-102 | such inputs parse to the same error, or to tables with the same sizes and names |
| Slb2Extract.RangeAgrees | slb2unpack.c:131-137 | such inputs give the same data bytes, since every informational byte lies in the header region |
| Slb2Extract.InformationalFieldsIgnored | slb2unpack.c:86-91 | changing version, flags, total_blocks, any reserved word or any block_offset changes neither the error nor any output |
| Slb2Extract.ReadRangeSplit | slb2unpack.c:131-137 | two consecutive reads, the first of which came back whole, obtain what one read of their total size does |
| Slb2Extract.ReadRangeClamp | slb2unpack.c:131 | asking for more bytes than are left obtains just the bytes that are left |
| Slb2Extract.ReadChunk | slb2unpack.c:131 | one `fread` of count (at most the buffer's size) bytes at the stream position obtains min(count, bytes left) bytes into the front of the buffer, those being the input's bytes from that position, and leaves the rest of the buffer unchanged |
| Slb2Extract.CopyStep | slb2unpack.c:131-136 | one pass of the copy loop, appending the chunk read where the copy so far ends, extends the copy |
| Slb2Extract.CopyDone | slb2unpack.c:131 | the copy loop stops when nothing is left to ask for or nothing is left to read, and then it has the whole copy |
| Slb2Extract.CopyEntry | slb2unpack.c:128-137 | the chunked copy loop through the 512-byte buffer ends, since each pass reads at least one byte off fsize, and its output is exactly ReadRange(input, pos, fsize) |
| Slb2Extract.UnpackEntries | slb2unpack.c:108-140 | the entry loop, with its running cursor kept equal to `DataOffset` and one buffer shared by all entries, gives output k as the output of entry k, for every entry |
| Slb2Extract.Unpack | slb2unpack.c:76-140 | the whole imperative run, parsing and then the entry loop, gives exactly `Extract(input)` |

## Left out

- Command-line handling and the usage message (slb2unpack.c:59-62), and
  opening the input file (70-73). The input is a parameter.
- `malloc`/`free` of the header buffer (65-68, 143). The decoded table is a
  sequence.
- All printing (86-91, 121-126, 144). `block_offset` is printed but has no
  other use.
- Output files are not created. Each output is a `(name, bytes)` record in
  the returned list, so these are not modelled:
  - a failing `fopen` of the output (116-119), including the one for an
    empty name (a name buffer that starts with NUL);
  - an output name that is a path;
  - two entries with the same name, where the later file overwrites the
    earlier one.
- `fseek` failure (112-115) and short `fwrite` (132-135) are I/O
  outcomes. They are not modelled. A seek past the end of the input reads
  nothing.
- A short read ends an entry's copy silently, as in the program. There is
  no short-read error. `CopyEntry` collects what each pass would `fwrite`
  into one returned sequence rather than an output file.
- A name buffer with no NUL: the program reads past the buffer here, which
  is undefined behaviour. The model takes all 32 bytes as the name.
- The cursor `slb2_offset` and `fsize` are `size_t`. The model uses
  unbounded `nat`. With at most 10 entries of 32-bit sizes, no 64-bit
  `size_t` can overflow. The check `32 + file_count * 48 > 0x200` is exact
  on 64-bit `size_t`. A 32-bit `size_t` could wrap, and that is not modelled.
- Slb2Extract.Align512: the bit mask `& ~511` is written as the arithmetic
  expression that clears the low nine bits, `x - x % 512` with
  `x = fsize + 511`. It is not a 64-bit bit-vector operation. The two
  agree for every `fsize` below 2^32.
