/** The SLB2 container layout: the 32-byte pack header, the table of
    48-byte file entries that follows it inside the 0x200-byte header
    region, and the validation the unpacker performs before extracting
    anything (slb2unpack.c). */
module Slb2Format {
  import opened LittleEndian

  /** "SLB2" read as a little-endian word. */
  const SLB2_MAGIC: uint32 := 0x32424C53
  /** Size of the header region; the data of the first entry starts here. */
  const SLB2_HEADER_SIZE: nat := 0x200
  /** `sizeof(struct slb2_header)`: eight words, the entry table not included. */
  const HEADER_RECORD_SIZE: nat := 0x20
  /** `sizeof(struct slb2_entry)`. */
  const ENTRY_RECORD_SIZE: nat := 0x30
  /** Size of the `file_name` buffer of an entry. */
  const NAME_BUFFER_SIZE: nat := 0x20
  /** The most entries whose table fits in the header region. */
  const MAX_ENTRIES: nat := 10

  /** The ASCII bytes 'S', 'L', 'B', '2'. */
  const MAGIC_BYTES: seq<uint8> := [0x53, 0x4C, 0x42, 0x32]

  /** `struct slb2_header` without its trailing entry list. */
  datatype Header = Header(
    magic: uint32,
    version: uint32,
    flags: uint32,
    fileCount: uint32,
    totalBlocks: uint32,
    unk0: uint32,
    unk1: uint32,
    unk2: uint32)

  /** `struct slb2_entry`; `fileName` is the raw 32-byte buffer. */
  datatype Entry = Entry(
    blockOffset: uint32,
    fileSize: uint32,
    unk0: uint32,
    unk1: uint32,
    fileName: seq<uint8>)

  /** A decoded header together with its entry table. */
  datatype Container = Container(header: Header, entries: seq<Entry>)

  /** The ways the unpacker gives up before extracting anything. */
  datatype ParseError =
    | TruncatedHeader      // fewer than 32 bytes for the pack header
    | InvalidMagic         // the first word is not SLB2_MAGIC
    | HeaderOverflow       // the entry table would not fit in the header region
    | TruncatedEntryTable  // fewer than file_count whole entries follow the header

  datatype Result<T> = Ok(value: T) | Err(error: ParseError)

  /** Byte offset of entry `i` within the container. */
  function EntryOffset(i: nat): nat
  {
    HEADER_RECORD_SIZE + 48 * i
  }

  /** The bytes up to (not including) the first NUL of `buf`, or all of `buf`
      when it holds no NUL. */
  function NameOf(buf: seq<uint8>): (name: seq<uint8>)
    ensures |name| <= |buf| && name == buf[..|name|]
    ensures 0 !in name
    ensures |name| < |buf| ==> buf[|name|] == 0
  {
    if buf == [] || buf[0] == 0 then [] else [buf[0]] + NameOf(buf[1..])
  }

  /** The name is determined by being a NUL-free prefix that ends at a NUL
      or at the end of the buffer: any such prefix is `NameOf(buf)`. */
  lemma {:induction false} NameOfUnique(buf: seq<uint8>, p: seq<uint8>)
    requires |p| <= |buf| && p == buf[..|p|] && 0 !in p
    requires |p| < |buf| ==> buf[|p|] == 0
    ensures p == NameOf(buf)
  {
    if p != [] {
      assert buf[0] == p[0] != 0;
      assert p[1..] == buf[1..][..|p| - 1];
      NameOfUnique(buf[1..], p[1..]);
      assert p == [p[0]] + p[1..];
    }
  }

  /** Reading the pack header from the first 32 bytes. */
  function DecodeHeader(s: seq<uint8>): Header
    requires HEADER_RECORD_SIZE <= |s|
  {
    Header(ReadU32(s, 0x00), ReadU32(s, 0x04), ReadU32(s, 0x08), ReadU32(s, 0x0C),
           ReadU32(s, 0x10), ReadU32(s, 0x14), ReadU32(s, 0x18), ReadU32(s, 0x1C))
  }

  /** The header bytes are the encoding of the header read from them. */
  lemma HeaderBytes(s: seq<uint8>)
    requires HEADER_RECORD_SIZE <= |s|
    ensures EncodeHeader(DecodeHeader(s)) == s[..HEADER_RECORD_SIZE]
  {
    EncodeDecode(s, 0); EncodeDecode(s, 4); EncodeDecode(s, 8); EncodeDecode(s, 12);
    EncodeDecode(s, 16); EncodeDecode(s, 20); EncodeDecode(s, 24); EncodeDecode(s, 28);
    SliceSplit(s, 0, 4, 8); SliceSplit(s, 0, 8, 12); SliceSplit(s, 0, 12, 16); SliceSplit(s, 0, 16, 20);
    SliceSplit(s, 0, 20, 24); SliceSplit(s, 0, 24, 28); SliceSplit(s, 0, 28, 32);
    assert s[..HEADER_RECORD_SIZE] == s[0..32];
  }

  /** Reading one entry record from `s[off..off + 48]`; its name buffer is
      the record's last 32 bytes. */
  function DecodeEntry(s: seq<uint8>, off: nat): (e: Entry)
    requires off + ENTRY_RECORD_SIZE <= |s|
    ensures |e.fileName| == NAME_BUFFER_SIZE
  {
    Entry(ReadU32(s, off), ReadU32(s, off + 0x04), ReadU32(s, off + 0x08), ReadU32(s, off + 0x0C),
          s[off + 0x10..off + ENTRY_RECORD_SIZE])
  }

  /** Reading `n` consecutive entry records starting at `off`, as one
      `fread` of `n` items of 48 bytes does. */
  function DecodeTable(s: seq<uint8>, off: nat, n: nat): (es: seq<Entry>)
    requires off + 48 * n <= |s|
    ensures |es| == n
    ensures forall e | e in es :: |e.fileName| == NAME_BUFFER_SIZE
    decreases n
  {
    if n == 0 then []
    else [DecodeEntry(s, off)] + DecodeTable(s, off + ENTRY_RECORD_SIZE, n - 1)
  }

  /** Entry `i` of the table is the record `48 * i` bytes after its start. */
  lemma {:induction false} DecodeTableAt(s: seq<uint8>, off: nat, n: nat, i: nat)
    requires off + 48 * n <= |s| && i < n
    ensures DecodeTable(s, off, n)[i] == DecodeEntry(s, off + 48 * i)
    decreases n
  {
    if i > 0 {
      DecodeTableAt(s, off + ENTRY_RECORD_SIZE, n - 1, i - 1);
    }
  }

  /** Header read, magic check, header-size check and entry-table read of
      `main`, in that order. */
  function Parse(input: seq<uint8>): (r: Result<Container>)
    ensures r.Ok? ==> r.value.header.magic == SLB2_MAGIC
    ensures r.Ok? ==> |r.value.entries| == r.value.header.fileCount <= MAX_ENTRIES
  {
    if |input| < HEADER_RECORD_SIZE then Err(TruncatedHeader)
    else
      var h := DecodeHeader(input);
      if h.magic != SLB2_MAGIC then Err(InvalidMagic)
      else if HEADER_RECORD_SIZE + h.fileCount * ENTRY_RECORD_SIZE > SLB2_HEADER_SIZE then Err(HeaderOverflow)
      else if |input| < EntryOffset(h.fileCount) then Err(TruncatedEntryTable)
      else Ok(Container(h, DecodeTable(input, HEADER_RECORD_SIZE, h.fileCount)))
  }

  /** The word at offset 0 is the magic exactly when the first four bytes
      spell "SLB2". */
  lemma MagicBytesAgree(input: seq<uint8>)
    requires HEADER_RECORD_SIZE <= |input|
    ensures ReadU32(input, 0) == SLB2_MAGIC <==> input[..4] == MAGIC_BYTES
  {
    EncodeDecode(input, 0);
    assert input[0..4] == input[..4];
    if input[..4] == MAGIC_BYTES {
      ReadU32Local(input, MAGIC_BYTES, 0, 0);
    }
  }

  /** Which outcome `Parse` reports, in the source's order of checks; in
      particular a too-large `file_count` is refused whatever the length of
      the input, before any entry is read. */
  lemma ParseOutcome(input: seq<uint8>)
    ensures Parse(input) == Err(TruncatedHeader) <==> |input| < HEADER_RECORD_SIZE
    ensures Parse(input) == Err(InvalidMagic) <==>
      HEADER_RECORD_SIZE <= |input| && input[..4] != MAGIC_BYTES
    ensures Parse(input) == Err(HeaderOverflow) <==>
      HEADER_RECORD_SIZE <= |input| && input[..4] == MAGIC_BYTES && ReadU32(input, 0x0C) > MAX_ENTRIES
    ensures Parse(input) == Err(TruncatedEntryTable) <==>
      HEADER_RECORD_SIZE <= |input| && input[..4] == MAGIC_BYTES && ReadU32(input, 0x0C) <= MAX_ENTRIES &&
      |input| < EntryOffset(ReadU32(input, 0x0C))
    ensures Parse(input).Ok? <==>
      HEADER_RECORD_SIZE <= |input| && input[..4] == MAGIC_BYTES && ReadU32(input, 0x0C) <= MAX_ENTRIES &&
      EntryOffset(ReadU32(input, 0x0C)) <= |input|
  {
    if HEADER_RECORD_SIZE <= |input| {
      MagicBytesAgree(input);
    }
  }

  /** On success, entry `i` is the record at `32 + 48 * i`: its four words at
      `+0`, `+4`, `+8`, `+12` and its name buffer at `+16 .. +48`. */
  lemma ParsedEntryFields(input: seq<uint8>, i: nat)
    requires Parse(input).Ok? && i < |Parse(input).value.entries|
    ensures EntryOffset(i) + ENTRY_RECORD_SIZE <= |input|
    ensures Parse(input).value.entries[i] ==
      Entry(ReadU32(input, EntryOffset(i)), ReadU32(input, EntryOffset(i) + 4),
            ReadU32(input, EntryOffset(i) + 8), ReadU32(input, EntryOffset(i) + 12),
            input[EntryOffset(i) + 16..EntryOffset(i) + 48])
  {
    var n := ReadU32(input, 0x0C);
    assert Parse(input).value.entries == DecodeTable(input, HEADER_RECORD_SIZE, n);
    DecodeTableAt(input, HEADER_RECORD_SIZE, n, i);
  }

  // ---------------------------------------------------------------------
  // The layout written out: the inverse of the decoding above.

  function EncodeHeader(h: Header): (b: seq<uint8>)
    ensures |b| == HEADER_RECORD_SIZE
  {
    EncodeU32(h.magic) + EncodeU32(h.version) + EncodeU32(h.flags) + EncodeU32(h.fileCount)
    + EncodeU32(h.totalBlocks) + EncodeU32(h.unk0) + EncodeU32(h.unk1) + EncodeU32(h.unk2)
  }

  function EncodeEntry(e: Entry): (b: seq<uint8>)
    ensures |b| == 16 + |e.fileName|
  {
    EncodeU32(e.blockOffset) + EncodeU32(e.fileSize) + EncodeU32(e.unk0) + EncodeU32(e.unk1) + e.fileName
  }

  function EncodeTable(es: seq<Entry>): seq<uint8>
  {
    if es == [] then [] else EncodeEntry(es[0]) + EncodeTable(es[1..])
  }

  /** The container as the bytes of its header region up to the end of the
      entry table. */
  function Serialize(c: Container): seq<uint8>
  {
    EncodeHeader(c.header) + EncodeTable(c.entries)
  }

  /** What every parsed container satisfies. */
  predicate WellFormed(c: Container)
  {
    && c.header.magic == SLB2_MAGIC
    && c.header.fileCount == |c.entries| <= MAX_ENTRIES
    && forall e | e in c.entries :: |e.fileName| == NAME_BUFFER_SIZE
  }

  lemma {:induction false} EncodeTableLength(es: seq<Entry>)
    requires forall e | e in es :: |e.fileName| == NAME_BUFFER_SIZE
    ensures |EncodeTable(es)| == 48 * |es|
  {
    if es != [] {
      assert forall e | e in es[1..] :: e in es;
      EncodeTableLength(es[1..]);
    }
  }

  /** The header read from the encoding of `h` is `h`. */
  lemma HeaderRoundTrip(h: Header, s: seq<uint8>)
    requires |s| >= HEADER_RECORD_SIZE && s[..HEADER_RECORD_SIZE] == EncodeHeader(h)
    ensures DecodeHeader(s) == h
  {
    var lo := EncodeU32(h.magic) + EncodeU32(h.version) + EncodeU32(h.flags) + EncodeU32(h.fileCount);
    var hi := EncodeU32(h.totalBlocks) + EncodeU32(h.unk0) + EncodeU32(h.unk1) + EncodeU32(h.unk2);
    assert EncodeHeader(h) == lo + hi;
    assert s[0..16] == lo && s[16..32] == hi;
    HalfRoundTrip(s, 0, h.magic, h.version, h.flags, h.fileCount);
    HalfRoundTrip(s, 16, h.totalBlocks, h.unk0, h.unk1, h.unk2);
  }

  /** Four words read from the 16 bytes that encode them. */
  lemma HalfRoundTrip(s: seq<uint8>, off: nat, w0: uint32, w1: uint32, w2: uint32, w3: uint32)
    requires off + 16 <= |s|
    requires s[off..off + 16] == EncodeU32(w0) + EncodeU32(w1) + EncodeU32(w2) + EncodeU32(w3)
    ensures ReadU32(s, off) == w0 && ReadU32(s, off + 4) == w1
    ensures ReadU32(s, off + 8) == w2 && ReadU32(s, off + 12) == w3
  {
    var b := s[off..off + 16];
    var p2 := EncodeU32(w0) + EncodeU32(w1);
    var p3 := p2 + EncodeU32(w2);
    assert b == p3 + EncodeU32(w3);
    FieldRoundTrip(s, off, b, 0, w0);
    FieldRoundTrip(s, off, b, 4, w1);
    FieldRoundTrip(s, off, b, 8, w2);
    FieldRoundTrip(s, off, b, 12, w3);
  }

  /** A slice of a slice is a slice. */
  lemma SubSlice(s: seq<uint8>, off: nat, len: nat, a: nat, b: nat)
    requires off + len <= |s| && a <= b <= len
    ensures s[off..off + len][a..b] == s[off + a..off + b]
  {
    var t := s[off..off + len];
    assert forall k | 0 <= k < b - a :: t[a..b][k] == t[a + k] == s[off + a + k];
  }

  /** The field of width 4 at `at` in `b` holds `w` when those bytes encode `w`. */
  lemma FieldRoundTrip(s: seq<uint8>, off: nat, b: seq<uint8>, at: nat, w: uint32)
    requires off + |b| <= |s| && s[off..off + |b|] == b
    requires at + 4 <= |b| && b[at..at + 4] == EncodeU32(w)
    ensures ReadU32(s, off + at) == w
  {
    SubSlice(s, off, |b|, at, at + 4);
    ReadU32Local(s, EncodeU32(w), off + at, 0);
    DecodeEncode(w);
  }

  /** The entry read from the encoding of `e` is `e`. */
  lemma EntryRoundTrip(e: Entry, s: seq<uint8>, off: nat)
    requires |e.fileName| == NAME_BUFFER_SIZE
    requires off + ENTRY_RECORD_SIZE <= |s| && s[off..off + ENTRY_RECORD_SIZE] == EncodeEntry(e)
    ensures DecodeEntry(s, off) == e
  {
    var b := EncodeEntry(e);
    var p2 := EncodeU32(e.blockOffset) + EncodeU32(e.fileSize);
    var p3 := p2 + EncodeU32(e.unk0);
    assert b == p3 + EncodeU32(e.unk1) + e.fileName;
    FieldRoundTrip(s, off, b, 0, e.blockOffset);
    FieldRoundTrip(s, off, b, 4, e.fileSize);
    FieldRoundTrip(s, off, b, 8, e.unk0);
    FieldRoundTrip(s, off, b, 12, e.unk1);
    SubSlice(s, off, ENTRY_RECORD_SIZE, 16, ENTRY_RECORD_SIZE);
  }

  /** The table read from the encoding of `es` is `es`. */
  lemma {:induction false} TableRoundTrip(es: seq<Entry>, s: seq<uint8>, off: nat)
    requires forall e | e in es :: |e.fileName| == NAME_BUFFER_SIZE
    requires off + 48 * |es| <= |s|
    requires s[off..off + 48 * |es|] == EncodeTable(es)
    ensures DecodeTable(s, off, |es|) == es
  {
    if es != [] {
      var n, e, rest := |es|, es[0], es[1..];
      assert forall x | x in rest :: x in es;
      EncodeTableLength(rest);
      var mid, end := off + ENTRY_RECORD_SIZE, off + 48 * n;
      assert mid + 48 * (n - 1) == end;
      SliceSplit(s, off, mid, end);
      ConcatSplit(s[off..mid], s[mid..end], EncodeEntry(e), EncodeTable(rest));
      EntryRoundTrip(e, s, off);
      TableRoundTrip(rest, s, mid);
      assert DecodeTable(s, off, n) == [DecodeEntry(s, off)] + DecodeTable(s, mid, n - 1);
      assert es == [e] + rest;
    }
  }

  /** Two concatenations with equally long first parts are equal part by part. */
  lemma ConcatSplit(a: seq<uint8>, b: seq<uint8>, c: seq<uint8>, d: seq<uint8>)
    requires a + b == c + d && |a| == |c|
    ensures a == c && b == d
  {
    assert a == (a + b)[..|a|] && c == (c + d)[..|c|];
    assert b == (a + b)[|a|..] && d == (c + d)[|c|..];
  }


  /** `s[a..c]` split at `b`. */
  lemma SliceSplit(s: seq<uint8>, a: nat, b: nat, c: nat)
    requires a <= b <= c <= |s|
    ensures s[a..c] == s[a..b] + s[b..c]
  {
  }

  /** The bytes of an entry record are the encoding of the entry read from them. */
  lemma EntryBytes(s: seq<uint8>, off: nat)
    requires off + ENTRY_RECORD_SIZE <= |s|
    ensures EncodeEntry(DecodeEntry(s, off)) == s[off..off + ENTRY_RECORD_SIZE]
  {
    EncodeDecode(s, off); EncodeDecode(s, off + 4); EncodeDecode(s, off + 8); EncodeDecode(s, off + 12);
    SliceSplit(s, off, off + 4, off + 8); SliceSplit(s, off, off + 8, off + 12);
    SliceSplit(s, off, off + 12, off + 16); SliceSplit(s, off, off + 16, off + ENTRY_RECORD_SIZE);
  }

  /** The encoding of a table with a first entry `e`. */
  lemma EncodeTableCons(e: Entry, rest: seq<Entry>)
    ensures EncodeTable([e] + rest) == EncodeEntry(e) + EncodeTable(rest)
  {
    assert ([e] + rest)[1..] == rest;
  }

  /** The bytes of a table are the encoding of the entries read from them. */
  lemma {:induction false} TableBytes(s: seq<uint8>, off: nat, n: nat)
    requires off + 48 * n <= |s|
    ensures EncodeTable(DecodeTable(s, off, n)) == s[off..off + 48 * n]
    decreases n
  {
    if n > 0 {
      var mid, end := off + ENTRY_RECORD_SIZE, off + 48 * n;
      assert mid + 48 * (n - 1) == end;
      var e, rest := DecodeEntry(s, off), DecodeTable(s, mid, n - 1);
      assert DecodeTable(s, off, n) == [e] + rest;
      assert EncodeTable([e] + rest) == s[off..mid] + s[mid..end] by {
        EncodeTableCons(e, rest);
        EntryBytes(s, off);
        TableBytes(s, mid, n - 1);
      }
      SliceSplit(s, off, mid, end);
    }
  }

  /** Parsing an input that begins with the serialization of a well-formed
      container, whatever follows it, gives that container back. */
  lemma ParseSerialize(c: Container, input: seq<uint8>)
    requires WellFormed(c) && Serialize(c) <= input
    ensures Parse(input) == Ok(c)
  {
    var s := Serialize(c);
    var n := |c.entries|;
    EncodeTableLength(c.entries);
    assert input[..HEADER_RECORD_SIZE] == s[..HEADER_RECORD_SIZE] == EncodeHeader(c.header);
    HeaderRoundTrip(c.header, input);
    assert input[HEADER_RECORD_SIZE..EntryOffset(n)] == s[HEADER_RECORD_SIZE..] == EncodeTable(c.entries);
    TableRoundTrip(c.entries, input, HEADER_RECORD_SIZE);
  }

  /** Conversely, a parsed container is well formed and the input begins with
      its serialization. */
  lemma ParsedIsSerialized(input: seq<uint8>, c: Container)
    requires Parse(input) == Ok(c)
    ensures WellFormed(c) && Serialize(c) <= input
  {
    var n := c.header.fileCount;
    assert c.header == DecodeHeader(input);
    assert c.entries == DecodeTable(input, HEADER_RECORD_SIZE, n);
    assert WellFormed(c);
    HeaderBytes(input);
    TableBytes(input, HEADER_RECORD_SIZE, n);
    SliceSplit(input, 0, HEADER_RECORD_SIZE, EntryOffset(n));
    assert Serialize(c) == input[0..EntryOffset(n)];
  }

  /** `Parse` accepts exactly the inputs that begin with the serialization of
      a well-formed container, and returns that container. */
  lemma ParseIffSerialized(input: seq<uint8>, c: Container)
    ensures Parse(input) == Ok(c) <==> WellFormed(c) && Serialize(c) <= input
  {
    if Parse(input) == Ok(c) {
      ParsedIsSerialized(input, c);
    }
    if WellFormed(c) && Serialize(c) <= input {
      ParseSerialize(c, input);
    }
  }
}
