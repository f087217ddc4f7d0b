/** Extraction of the entries of an SLB2 container: the running data cursor
    that starts at the end of the header region and advances by each entry's
    size rounded up to whole 512-byte blocks, and the chunked copy of each
    entry's bytes through a 512-byte buffer (the entry loop of `main` in
    slb2unpack.c). */
module Slb2Extract {
  import opened LittleEndian
  import opened Slb2Format

  /** Size of the copy buffer, and of a block of the data region. */
  const READ_BUFFER_SIZE: nat := 512

  function Min(a: nat, b: nat): nat
  {
    if a <= b then a else b
  }

  /** `(fsize + 511) & ~511`: clearing the low nine bits of `fsize + 511`,
      that is, `fsize` rounded up to a whole number of 512-byte blocks. */
  function Align512(fsize: nat): (r: nat)
    ensures r % 512 == 0
    ensures fsize <= r < fsize + 512
  {
    (fsize + 511) - (fsize + 511) % 512
  }

  /** No smaller multiple of 512 holds `fsize` bytes. */
  lemma Align512Least(fsize: nat, m: nat)
    requires m % 512 == 0 && fsize <= m
    ensures Align512(fsize) <= m
  {
  }

  /** The block advance for a few sizes. */
  lemma Align512Examples()
    ensures Align512(0) == 0 && Align512(1) == 512 && Align512(511) == 512
    ensures Align512(512) == 512 && Align512(513) == 1024 && Align512(600) == 1024
  {
  }

  /** Sum of the block-aligned sizes of `es`. */
  function AlignedSum(es: seq<Entry>): (n: nat)
    ensures n % 512 == 0
  {
    if es == [] then 0
    else
      var init, last := AlignedSum(es[..|es| - 1]), Align512(es[|es| - 1].fileSize);
      BlocksAdd(init, last);
      init + last
  }

  /** Two whole numbers of blocks add up to a whole number of blocks. */
  lemma BlocksAdd(a: nat, b: nat)
    requires a % 512 == 0 && b % 512 == 0
    ensures (a + b) % 512 == 0
  {
    assert a + b == 512 * (a / 512 + b / 512);
  }

  /** Where the data of entry `i` starts: the end of the header region plus
      the aligned sizes of the entries before it. It is always on a block
      boundary at or past the header region. */
  function DataOffset(es: seq<Entry>, i: nat): (o: nat)
    requires i <= |es|
    ensures o % 512 == 0
    ensures SLB2_HEADER_SIZE <= o
  {
    SLB2_HEADER_SIZE + AlignedSum(es[..i])
  }

  /** The cursor moves from entry `i` to entry `i + 1` by the aligned size of
      entry `i`. */
  lemma DataOffsetStep(es: seq<Entry>, i: nat)
    requires i < |es|
    ensures DataOffset(es, i + 1) == DataOffset(es, i) + Align512(es[i].fileSize)
  {
    assert es[..i + 1][..i] == es[..i];
  }

  /** The data of entry `i` ends no later than where the data of any later
      entry begins: the entries' byte ranges never overlap. */
  lemma {:induction false} DataRegionsDisjoint(es: seq<Entry>, i: nat, j: nat)
    requires i < j <= |es|
    ensures DataOffset(es, i) + es[i].fileSize <= DataOffset(es, j)
    decreases j - i
  {
    DataOffsetStep(es, i);
    if i + 1 < j {
      DataRegionsDisjoint(es, i + 1, j);
      DataOffsetMonotone(es, i + 1, j);
    }
  }

  /** The cursor never moves backwards. */
  lemma {:induction false} DataOffsetMonotone(es: seq<Entry>, i: nat, j: nat)
    requires i <= j <= |es|
    ensures DataOffset(es, i) <= DataOffset(es, j)
    decreases j - i
  {
    if i < j {
      DataOffsetStep(es, i);
      DataOffsetMonotone(es, i + 1, j);
    }
  }

  /** The cursor depends on the entries' sizes alone. */
  lemma {:induction false} DataOffsetBySizes(es: seq<Entry>, fs: seq<Entry>, i: nat)
    requires |es| == |fs| && i <= |es|
    requires forall k | 0 <= k < |es| :: es[k].fileSize == fs[k].fileSize
    ensures DataOffset(es, i) == DataOffset(fs, i)
  {
    if i > 0 {
      DataOffsetBySizes(es, fs, i - 1);
      DataOffsetStep(es, i - 1);
      DataOffsetStep(fs, i - 1);
    }
  }

  /** How many bytes a read at `pos` can still get. */
  function Available(input: seq<uint8>, pos: nat): (n: nat)
    ensures pos + n <= |input| || n == 0
    ensures pos < |input| ==> pos + n == |input|
  {
    if pos < |input| then |input| - pos else 0
  }

  /** The bytes a copy of `size` bytes from position `pos` obtains: `size`
      bytes when the input holds them, fewer (down to none) when it ends
      first. */
  function ReadRange(input: seq<uint8>, pos: nat, size: nat): (r: seq<uint8>)
    ensures |r| == Min(size, Available(input, pos))
    ensures forall k | 0 <= k < |r| :: r[k] == input[pos + k]
  {
    if pos < |input| then input[pos..pos + Min(size, |input| - pos)] else []
  }

  /** When the input holds the whole entry, its data is exactly the `size`
      bytes at `pos`. */
  lemma ReadRangeComplete(input: seq<uint8>, pos: nat, size: nat)
    requires pos + size <= |input|
    ensures ReadRange(input, pos, size) == input[pos..pos + size]
  {
  }

  /** One output file: its name and the bytes written to it. */
  datatype Output = Output(name: seq<uint8>, data: seq<uint8>)

  /** What extracting the container `input` produces: the parse error, or one
      output per entry, in table order, named by the entry and holding the
      bytes at that entry's cursor position. */
  function Extract(input: seq<uint8>): (r: Result<seq<Output>>)
    ensures r.Err? <==> Parse(input).Err?
    ensures r.Err? ==> r.error == Parse(input).error
    ensures r.Ok? ==> |r.value| == |Parse(input).value.entries|
  {
    match Parse(input)
    case Err(e) => Err(e)
    case Ok(c) =>
      var es := c.entries;
      Ok(seq(|es|, i requires 0 <= i < |es| => EntryOutput(input, es, i)))
  }

  /** The output of entry `i` of the table `es`: named by the NUL-free
      prefix of its name buffer, holding at most `file_size` bytes, and all
      of them exactly when the size is 0 or the input reaches the end of the
      entry's data. */
  function EntryOutput(input: seq<uint8>, es: seq<Entry>, i: nat): (o: Output)
    requires i < |es|
    ensures 0 !in o.name && o.name <= es[i].fileName
    ensures |o.data| <= es[i].fileSize
    ensures |o.data| == es[i].fileSize <==> es[i].fileSize == 0 || DataOffset(es, i) + es[i].fileSize <= |input|
  {
    Output(NameOf(es[i].fileName), ReadRange(input, DataOffset(es, i), es[i].fileSize))
  }

  /** Outputs that agree one by one with the entries' outputs are what
      `Extract` gives. */
  lemma ExtractIs(input: seq<uint8>, outs: seq<Output>)
    requires Parse(input).Ok? && |outs| == |Parse(input).value.entries|
    requires forall k | 0 <= k < |outs| :: outs[k] == EntryOutput(input, Parse(input).value.entries, k)
    ensures Extract(input) == Ok(outs)
  {
    var es := Parse(input).value.entries;
    var want := seq(|es|, i requires 0 <= i < |es| => EntryOutput(input, es, i));
    assert Extract(input) == Ok(want);
    assert forall k | 0 <= k < |outs| :: want[k] == outs[k];
    assert want == outs;
  }

  /** On success, output `i` is named by the NUL-terminated name buffer at
      `32 + 48 * i + 16` (at most 32 bytes of it) and holds the bytes at the
      cursor, as many as the `file_size` word at `32 + 48 * i + 4` asks for
      and the input still holds. */
  lemma ExtractedFromBytes(input: seq<uint8>, i: nat)
    requires Extract(input).Ok? && i < |Extract(input).value|
    ensures EntryOffset(i) + ENTRY_RECORD_SIZE <= |input|
    ensures Extract(input).value[i].name == NameOf(input[EntryOffset(i) + 16..EntryOffset(i) + 48])
    ensures |Extract(input).value[i].name| <= NAME_BUFFER_SIZE
    ensures Extract(input).value[i].data ==
      ReadRange(input, DataOffset(Parse(input).value.entries, i), ReadU32(input, EntryOffset(i) + 4))
  {
    ParsedEntryFields(input, i);
  }

  /** An output holds all `file_size` bytes of its entry exactly when the
      input reaches the end of the entry's data; otherwise it is shorter and
      there is no error. */
  lemma OutputComplete(input: seq<uint8>, i: nat)
    requires Extract(input).Ok? && i < |Extract(input).value|
    ensures var e := Parse(input).value.entries[i];
      |Extract(input).value[i].data| == e.fileSize <==>
      e.fileSize == 0 || DataOffset(Parse(input).value.entries, i) + e.fileSize <= |input|
  {
  }

  /** Parsing reads nothing past the entry table. */
  lemma ParsePrefix(input: seq<uint8>, cut: nat)
    requires Parse(input).Ok?
    requires EntryOffset(Parse(input).value.header.fileCount) <= cut <= |input|
    ensures Parse(input[..cut]) == Parse(input)
  {
    var c := Parse(input).value;
    ParsedIsSerialized(input, c);
    EncodeTableLength(c.entries);
    assert Serialize(c) <= input[..cut];
    ParseSerialize(c, input[..cut]);
  }

  /** A read from a prefix of the input obtains a prefix of the bytes. */
  lemma ReadRangePrefix(input: seq<uint8>, cut: nat, pos: nat, size: nat)
    requires cut <= |input|
    ensures ReadRange(input[..cut], pos, size) <= ReadRange(input, pos, size)
  {
  }

  /** Cutting the input anywhere after the entry table still succeeds, with
      the same outputs under the same names; each output's data is a prefix
      of what the whole input gives. */
  lemma TruncatedInput(input: seq<uint8>, cut: nat)
    requires Parse(input).Ok?
    requires EntryOffset(Parse(input).value.header.fileCount) <= cut <= |input|
    ensures Extract(input[..cut]).Ok?
    ensures |Extract(input[..cut]).value| == |Extract(input).value|
    ensures forall i | 0 <= i < |Extract(input).value| ::
      Extract(input[..cut]).value[i].name == Extract(input).value[i].name &&
      Extract(input[..cut]).value[i].data <= Extract(input).value[i].data
  {
    ParsePrefix(input, cut);
    var es := Parse(input).value.entries;
    forall i | 0 <= i < |es|
      ensures EntryOutput(input[..cut], es, i).data <= EntryOutput(input, es, i).data
    {
      ReadRangePrefix(input, cut, DataOffset(es, i), es[i].fileSize);
    }
  }

  /** The second of two entries is read at 512 + 1024 = 1536 when the first
      holds 600 bytes, whatever either entry's block offset says. */
  lemma SecondEntryAfterAlignedFirst(input: seq<uint8>)
    requires Parse(input).Ok? && |Parse(input).value.entries| == 2
    requires Parse(input).value.entries[0].fileSize == 600
    ensures Extract(input).value[1].data == ReadRange(input, 1536, Parse(input).value.entries[1].fileSize)
  {
    DataOffsetStep(Parse(input).value.entries, 0);
  }

  /** The name "A.BIN". */
  function ExampleName(): seq<uint8>
  {
    [0x41, 0x2E, 0x42, 0x49, 0x4E]
  }

  /** A container with one entry "A.BIN" of 10 bytes at block 1. */
  function ExampleContainer(): Container
  {
    var e := Entry(1, 10, 0, 0, ExampleName() + seq(NAME_BUFFER_SIZE - |ExampleName()|, _ => 0));
    Container(Header(SLB2_MAGIC, 1, 0, 1, 2, 0, 0, 0), [e])
  }

  /** The example container is well formed and serializes to 80 bytes. */
  lemma ExampleWellFormed()
    ensures WellFormed(ExampleContainer())
    ensures |Serialize(ExampleContainer())| == HEADER_RECORD_SIZE + ENTRY_RECORD_SIZE
  {
    EncodeTableLength(ExampleContainer().entries);
  }

  /** The example entry's name buffer names "A.BIN". */
  lemma ExampleNameOf()
    ensures NameOf(ExampleContainer().entries[0].fileName) == ExampleName()
  {
    var buf := ExampleContainer().entries[0].fileName;
    assert buf[..5] == ExampleName();
    NameOfUnique(buf, ExampleName());
  }

  /** The bytes right after a 512-byte header region are read as its data. */
  lemma ExampleData(head: seq<uint8>, data: seq<uint8>, padding: seq<uint8>)
    requires |head| == SLB2_HEADER_SIZE && |data| == 10
    ensures ReadRange(head + data + padding, SLB2_HEADER_SIZE, 10) == data
  {
    assert (head + data + padding)[SLB2_HEADER_SIZE..SLB2_HEADER_SIZE + 10] == data;
  }

  /** The example container, any filler up to the end of the header region,
      the 10 data bytes and 502 padding bytes extract to one output "A.BIN"
      holding exactly those 10 bytes. */
  lemma SingleEntryExample(filler: seq<uint8>, data: seq<uint8>, padding: seq<uint8>)
    requires |filler| == SLB2_HEADER_SIZE - HEADER_RECORD_SIZE - ENTRY_RECORD_SIZE
    requires |data| == 10 && |padding| == 502
    ensures Extract(Serialize(ExampleContainer()) + filler + data + padding) == Ok([Output(ExampleName(), data)])
  {
    var c := ExampleContainer();
    var head := Serialize(c) + filler;
    var input := head + data + padding;
    ExampleWellFormed();
    assert Serialize(c) <= input;
    ParseSerialize(c, input);
    ExampleNameOf();
    ExampleData(head, data, padding);
    assert DataOffset(c.entries, 0) == SLB2_HEADER_SIZE;
    assert EntryOutput(input, c.entries, 0) == Output(ExampleName(), data);
    ExtractIs(input, [Output(ExampleName(), data)]);
    assert Serialize(c) + filler + data + padding == input;
  }

  /** The bytes that are decoded but never used: version, flags,
      total_blocks and the reserved words of the pack header, and the
      block_offset and reserved words of every entry slot. */
  predicate Informational(p: nat)
  {
    || 0x04 <= p < 0x0C
    || 0x10 <= p < HEADER_RECORD_SIZE
    || (HEADER_RECORD_SIZE <= p < SLB2_HEADER_SIZE &&
        ((p - HEADER_RECORD_SIZE) % ENTRY_RECORD_SIZE < 4 || 8 <= (p - HEADER_RECORD_SIZE) % ENTRY_RECORD_SIZE < 16))
  }

  /** Byte `k` of entry slot `i` sits at position `k` within its slot. */
  lemma SlotPosition(i: nat, k: nat)
    requires k < ENTRY_RECORD_SIZE
    ensures (EntryOffset(i) + k - HEADER_RECORD_SIZE) % ENTRY_RECORD_SIZE == k
  {
    assert EntryOffset(i) + k - HEADER_RECORD_SIZE == 48 * i + k;
  }

  /** The `file_size` word and the name buffer of an entry slot are not
      informational. */
  lemma SlotByteUsed(i: nat, k: nat)
    requires i < MAX_ENTRIES && (4 <= k < 8 || 16 <= k < ENTRY_RECORD_SIZE)
    ensures !Informational(EntryOffset(i) + k)
  {
    SlotPosition(i, k);
  }

  /** `Parse` looks only at the length of the input, the magic and the
      entry count before it reads the table. */
  lemma ParseOutcomeAgrees(a: seq<uint8>, b: seq<uint8>)
    requires |a| == |b|
    requires |a| >= HEADER_RECORD_SIZE ==> ReadU32(a, 0) == ReadU32(b, 0) && ReadU32(a, 12) == ReadU32(b, 12)
    ensures Parse(a).Err? ==> Parse(a) == Parse(b)
    ensures Parse(a).Ok? ==> Parse(b).Ok? && |Parse(a).value.entries| == |Parse(b).value.entries|
  {
    if |a| >= HEADER_RECORD_SIZE {
      var ha, hb := DecodeHeader(a), DecodeHeader(b);
      assert ha.magic == hb.magic && ha.fileCount == hb.fileCount;
    }
  }

  /** The magic and the entry count are not informational. */
  lemma HeaderWordsAgree(a: seq<uint8>, b: seq<uint8>)
    requires |a| == |b| && HEADER_RECORD_SIZE <= |a|
    requires forall p {:trigger Informational(p)} | 0 <= p < |a| && !Informational(p) :: a[p] == b[p]
    ensures ReadU32(a, 0) == ReadU32(b, 0) && ReadU32(a, 12) == ReadU32(b, 12)
  {
    var magicA, magicB, countA, countB := a[0..4], b[0..4], a[12..16], b[12..16];
    forall j | 0 <= j < 4
      ensures magicA[j] == magicB[j] && countA[j] == countB[j]
    {
      assert !Informational(j) && !Informational(12 + j);
    }
    assert magicA == magicB && countA == countB;
    ReadU32Local(a, b, 0, 0);
    ReadU32Local(a, b, 12, 12);
  }

  /** The words that `Parse` checks or uses agree, so it gives the same
      error, or entries of the same sizes and names. */
  lemma ParseAgrees(a: seq<uint8>, b: seq<uint8>)
    requires |a| == |b|
    requires forall p {:trigger Informational(p)} | 0 <= p < |a| && !Informational(p) :: a[p] == b[p]
    ensures Parse(a).Err? ==> Parse(a) == Parse(b)
    ensures Parse(a).Ok? ==> Parse(b).Ok? && |Parse(a).value.entries| == |Parse(b).value.entries|
    ensures Parse(a).Ok? ==> forall i | 0 <= i < |Parse(a).value.entries| ::
      Parse(a).value.entries[i].fileSize == Parse(b).value.entries[i].fileSize &&
      Parse(a).value.entries[i].fileName == Parse(b).value.entries[i].fileName
  {
    if |a| >= HEADER_RECORD_SIZE {
      HeaderWordsAgree(a, b);
    }
    ParseOutcomeAgrees(a, b);
    if Parse(a).Ok? {
      var ea, eb := Parse(a).value.entries, Parse(b).value.entries;
      var n := |ea|;
      assert ea == DecodeTable(a, HEADER_RECORD_SIZE, n) && eb == DecodeTable(b, HEADER_RECORD_SIZE, n);
      forall i | 0 <= i < |ea|
        ensures ea[i].fileSize == eb[i].fileSize && ea[i].fileName == eb[i].fileName
      {
        DecodeTableAt(a, HEADER_RECORD_SIZE, n, i);
        DecodeTableAt(b, HEADER_RECORD_SIZE, n, i);
        EntryAgrees(a, b, i);
      }
    }
  }

  /** The `file_size` word and the name buffer of entry slot `i` agree. */
  lemma EntryAgrees(a: seq<uint8>, b: seq<uint8>, i: nat)
    requires |a| == |b| && i < MAX_ENTRIES && EntryOffset(i) + ENTRY_RECORD_SIZE <= |a|
    requires forall p {:trigger Informational(p)} | 0 <= p < |a| && !Informational(p) :: a[p] == b[p]
    ensures DecodeEntry(a, EntryOffset(i)).fileSize == DecodeEntry(b, EntryOffset(i)).fileSize
    ensures DecodeEntry(a, EntryOffset(i)).fileName == DecodeEntry(b, EntryOffset(i)).fileName
  {
    var o := EntryOffset(i);
    var sizeA, sizeB := a[o + 4..o + 8], b[o + 4..o + 8];
    forall j | 0 <= j < 4
      ensures sizeA[j] == sizeB[j]
    {
      SlotByteUsed(i, 4 + j);
    }
    var nameA, nameB := a[o + 16..o + ENTRY_RECORD_SIZE], b[o + 16..o + ENTRY_RECORD_SIZE];
    forall j | 0 <= j < NAME_BUFFER_SIZE
      ensures nameA[j] == nameB[j]
    {
      SlotByteUsed(i, 16 + j);
    }
    assert sizeA == sizeB;
    ReadU32Local(a, b, o + 4, o + 4);
    assert nameA == nameB;
  }

  /** Informational bytes all lie in the header region, so the data region
      reads alike. */
  lemma RangeAgrees(a: seq<uint8>, b: seq<uint8>, pos: nat, size: nat)
    requires |a| == |b| && SLB2_HEADER_SIZE <= pos
    requires forall p {:trigger Informational(p)} | 0 <= p < |a| && !Informational(p) :: a[p] == b[p]
    ensures ReadRange(a, pos, size) == ReadRange(b, pos, size)
  {
    var ra, rb := ReadRange(a, pos, size), ReadRange(b, pos, size);
    forall k | 0 <= k < |ra|
      ensures ra[k] == rb[k]
    {
      assert !Informational(pos + k);
    }
  }

  /** Two inputs that differ only in informational bytes extract alike: the
      same error, or the same outputs. In particular no `block_offset` value
      moves any entry's data. */
  lemma InformationalFieldsIgnored(a: seq<uint8>, b: seq<uint8>)
    requires |a| == |b|
    requires forall p {:trigger Informational(p)} | 0 <= p < |a| && !Informational(p) :: a[p] == b[p]
    ensures Extract(a) == Extract(b)
  {
    ParseAgrees(a, b);
    if Parse(a).Err? {
      assert Parse(a) == Parse(b);
      assert Extract(a) == Err(Parse(a).error);
      return;
    }
    var ea, eb := Parse(a).value.entries, Parse(b).value.entries;
    forall i | 0 <= i < |ea|
      ensures Extract(a).value[i] == Extract(b).value[i]
    {
      DataOffsetBySizes(ea, eb, i);
      RangeAgrees(a, b, DataOffset(ea, i), ea[i].fileSize);
      assert Extract(a).value[i] == EntryOutput(a, ea, i);
      assert Extract(b).value[i] == EntryOutput(b, eb, i);
    }
    assert Extract(a).value == Extract(b).value;
  }
  /** Reading positions `pos .. pos + n` and then `pos + n .. pos + n + m`
      obtains what one read of `n + m` bytes from `pos` does, when the
      first read came back whole. */
  lemma ReadRangeSplit(input: seq<uint8>, pos: nat, n: nat, m: nat)
    requires n <= Available(input, pos)
    ensures ReadRange(input, pos, n) + ReadRange(input, pos + n, m) == ReadRange(input, pos, n + m)
  {
    var a, b, c := ReadRange(input, pos, n), ReadRange(input, pos + n, m), ReadRange(input, pos, n + m);
    assert |a + b| == |c|;
    forall k | 0 <= k < |c|
      ensures (a + b)[k] == c[k]
    {
      if k >= n {
        assert (a + b)[k] == b[k - n];
      }
    }
  }

  /** Asking for more bytes than are left obtains just the bytes that are left. */
  lemma ReadRangeClamp(input: seq<uint8>, at: nat, count: nat)
    ensures ReadRange(input, at, count) == ReadRange(input, at, Min(count, Available(input, at)))
  {
  }

  /** One `fread(buffer, 1, count, in)` with the stream at position `at`:
      it obtains `count` bytes, or as many as are left, into the front of
      the buffer, and leaves the rest of the buffer as it was. */
  method ReadChunk(input: seq<uint8>, at: nat, count: nat, buffer: array<uint8>) returns (got: nat)
    requires count <= buffer.Length
    modifies buffer
    ensures got == Min(count, Available(input, at))
    ensures got <= count <= buffer.Length
    ensures buffer[..got] == ReadRange(input, at, count)
    ensures buffer[got..] == old(buffer[got..])
  {
    got := Min(count, Available(input, at));
    forall k | 0 <= k < got {
      buffer[k] := input[at + k];
    }
  }

  /** One pass of the copy loop: appending a chunk of at most `count`
      bytes, read where the bytes copied so far end, extends the copy. */
  lemma CopyStep(input: seq<uint8>, pos: nat, data: seq<uint8>, count: nat, chunk: seq<uint8>)
    requires data == ReadRange(input, pos, |data|) && |data| <= Available(input, pos)
    requires chunk == ReadRange(input, pos + |data|, count)
    ensures data + chunk == ReadRange(input, pos, |data| + |chunk|)
    ensures |data| + |chunk| <= Available(input, pos)
  {
    ReadRangeClamp(input, pos + |data|, count);
    ReadRangeSplit(input, pos, |data|, |chunk|);
  }

  /** The copy loop stops when nothing is left to ask for or nothing is
      left to read; either way it has all of the copy. */
  lemma CopyDone(input: seq<uint8>, pos: nat, size: nat, done: nat)
    requires done <= size && done <= Available(input, pos)
    requires Min(Min(size - done, READ_BUFFER_SIZE), Available(input, pos + done)) == 0
    ensures ReadRange(input, pos, size) == ReadRange(input, pos, done)
  {
    ReadRangeSplit(input, pos, done, size - done);
  }

  /** The copy loop of one entry: read at most `READ_BUFFER_SIZE` bytes into
      the reused buffer, append them to the output, take them off `fsize`,
      and stop at the first read that obtains nothing. The output holds the
      bytes `ReadRange` describes; each pass reads at least one byte, so
      `fsize` strictly decreases. */
  method CopyEntry(input: seq<uint8>, pos: nat, size: nat, buffer: array<uint8>) returns (data: seq<uint8>)
    requires buffer.Length == READ_BUFFER_SIZE
    modifies buffer
    ensures data == ReadRange(input, pos, size)
  {
    var fsize: nat := size;
    var at: nat := pos;
    data := [];
    var got := ReadChunk(input, at, Min(fsize, READ_BUFFER_SIZE), buffer);
    while got > 0
      invariant fsize + |data| == size && at == pos + |data|
      invariant data == ReadRange(input, pos, |data|)
      invariant |data| <= Available(input, pos)
      invariant got == Min(Min(fsize, READ_BUFFER_SIZE), Available(input, at))
      invariant buffer[..got] == ReadRange(input, at, Min(fsize, READ_BUFFER_SIZE))
      decreases fsize
    {
      var chunk := buffer[..got];
      CopyStep(input, pos, data, Min(fsize, READ_BUFFER_SIZE), chunk);
      data := data + chunk;
      fsize := fsize - got;
      at := at + got;
      got := ReadChunk(input, at, Min(fsize, READ_BUFFER_SIZE), buffer);
    }
    CopyDone(input, pos, size, |data|);
  }

  /** The entry loop: for each entry in table order, position the input at
      the cursor, advance the cursor by the entry's aligned size, and copy
      the entry out through one 512-byte buffer shared by all entries. The
      cursor stays equal to `DataOffset`, so output `k` is the output of
      entry `k`. */
  method UnpackEntries(input: seq<uint8>, es: seq<Entry>) returns (outs: seq<Output>)
    ensures |outs| == |es|
    ensures forall k | 0 <= k < |es| :: outs[k] == EntryOutput(input, es, k)
  {
    var buffer := new uint8[READ_BUFFER_SIZE];
    outs := [];
    var offset: nat := SLB2_HEADER_SIZE;
    for i := 0 to |es|
      invariant offset == DataOffset(es, i)
      invariant |outs| == i
      invariant forall k | 0 <= k < i :: outs[k] == EntryOutput(input, es, k)
    {
      var pos := offset;
      var fsize := es[i].fileSize;
      DataOffsetStep(es, i);
      offset := offset + Align512(fsize);
      var data := CopyEntry(input, pos, fsize, buffer);
      assert Output(NameOf(es[i].fileName), data) == EntryOutput(input, es, i);
      outs := outs + [Output(NameOf(es[i].fileName), data)];
    }
  }

  /** A whole run: parse the container, stop on a parse error, and
      otherwise extract every entry. It gives exactly what `Extract`
      specifies. */
  method Unpack(input: seq<uint8>) returns (r: Result<seq<Output>>)
    ensures r == Extract(input)
  {
    var parsed := Parse(input);
    if parsed.Err? {
      return Err(parsed.error);
    }
    var outs := UnpackEntries(input, parsed.value.entries);
    ExtractIs(input, outs);
    r := Ok(outs);
  }

}
