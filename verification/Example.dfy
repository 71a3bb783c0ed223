/**
 A family of ROMs that can be opened, rebuilt and opened again, and the inputs at which the library
 does not do what it says.
 */
module Example {
  import opened Bytes
  import opened Wrappers
  import opened Dma
  import opened Yaz0
  import opened Yaz0Literal
  import opened Unpack
  import opened Rom
  import opened Layout
  import opened Plan
  import opened Placement
  import opened Write
  import opened Cic
  import opened Open
  import opened Reopen
  import opened Preserve
  import opened Decoy
  import opened RoundTrip
  import opened Bound
  import opened Rebuild
  import Crc32c

  /* The ROMs */

  const BOOTCODE_AT: nat := 0x101000
  const TABLE_AT: nat := 0x101010
  const FILE_AT: nat := 0x101050
  const BLANK_SIZE: nat := 0xFBC

  // MAKEROM as long as the check code needs it, a short BOOTCODE, and the table; then one file.
  function Rows(row: Dma): seq<Dma> {
    [Dma(0, BOOTCODE_AT, 0, 0), Dma(BOOTCODE_AT, TABLE_AT, BOOTCODE_AT, 0), Dma(TABLE_AT, FILE_AT, TABLE_AT, 0), row]
  }

  // All that is not zero before the table are four bytes at the end of the boot code, and a mark
  // behind them.
  function Front(tail: bytes, mark: bytes): (b: bytes)
    requires |tail| == 4 && |mark| == SIGNATURE_SIZE
    ensures |b| == TABLE_AT
  {
    Zeros(IPL3_END - 4) + tail + mark + Zeros(TABLE_AT - IPL3_END - SIGNATURE_SIZE)
  }

  ghost predicate Fronted(img: bytes, mark: bytes) {
    |mark| == SIGNATURE_SIZE && |img| >= TABLE_AT && exists tail: bytes :: |tail| == 4 && img[..TABLE_AT] == Front(tail, mark)
  }

  predicate Known(front: bytes) { |front| == TABLE_AT && Crc32c.Crc(0, front[IPL3_START..IPL3_END]) == IPL3_CRC }

  // There is a boot code with the checksum that is looked for.
  lemma SomeFrontIsKnown(mark: bytes) returns (front: bytes)
    requires |mark| == SIGNATURE_SIZE
    ensures Known(front) && Fronted(front, mark)
  {
    var tail := Crc32c.AnyChecksum(0, Zeros(BLANK_SIZE), IPL3_CRC);
    front := Front(tail, mark);
    assert front[..TABLE_AT] == front;
    assert front[IPL3_START..IPL3_END] == Zeros(BLANK_SIZE) + tail;
  }

  function Sample(front: bytes, row: Dma, file: bytes): RomView
    requires |front| == TABLE_AT
  {
    RomView(front + PrintTable(Rows(row)) + file, Rows(row))
  }

  /* Nothing before the table passes for it */

  const BLANK: bytes := Zeros(SIGNATURE_SIZE)

  // No entry there has a VROM end but for what is in the mark.
  lemma NothingBesides(img: bytes, mark: bytes, k: nat, length: nat)
    requires Fronted(img, mark) && CODE_AT + ENTRY_SIZE <= k && k + SIGNATURE_SIZE <= TABLE_AT
    requires !(IPL3_END <= k < IPL3_END + SIGNATURE_SIZE)
    ensures !PassesAt(img, k, length)
  {
    if k % ENTRY_SIZE == 0 {
      OutsideMark(k);
      BlankWord(img, mark, k + 4);
      SubSlice(img, k, k + ENTRY_SIZE, 4, 8);
    }
  }

  lemma OutsideMark(k: nat)
    requires k % ENTRY_SIZE == 0 && !(IPL3_END <= k < IPL3_END + SIGNATURE_SIZE)
    ensures k + 8 <= IPL3_END - 4 || IPL3_END + SIGNATURE_SIZE <= k
  {
  }

  lemma BlankWord(img: bytes, mark: bytes, at: nat)
    requires Fronted(img, mark) && at + 4 <= TABLE_AT && (at + 4 <= IPL3_END - 4 || IPL3_END + SIGNATURE_SIZE <= at)
    ensures ReadU32(img[at..at + 4]) == 0
  {
    var tail: bytes :| |tail| == 4 && img[..TABLE_AT] == Front(tail, mark);
    var word := img[at..at + 4];
    forall j | 0 <= j < 4
      ensures word[j] == 0
    {
      assert word[j] == img[at + j] == img[..TABLE_AT][at + j] == Front(tail, mark)[at + j];
    }
  }

  lemma MarkedEntry(img: bytes, mark: bytes, j: nat)
    requires Fronted(img, mark) && j < 3
    ensures EntryAt(img, IPL3_END + 16 * j) == Parse(mark[16 * j..16 * j + 16])
  {
    var tail: bytes :| |tail| == 4 && img[..TABLE_AT] == Front(tail, mark);
    assert img[IPL3_END..IPL3_END + SIGNATURE_SIZE] == img[..TABLE_AT][IPL3_END..IPL3_END + SIGNATURE_SIZE] == mark;
    SubSlice(img, IPL3_END, IPL3_END + SIGNATURE_SIZE, 16 * j, 16 * j + 16);
  }

  lemma FrontIsHarmless(img: bytes, mark: bytes)
    requires Fronted(img, mark)
    ensures CodeIsHarmless(img)
  {
    BlankWord(img, mark, 0x24);
  }

  lemma BlankIsClear(img: bytes, length: nat)
    requires Fronted(img, BLANK)
    ensures Clear(img, TABLE_AT, length)
  {
    FrontIsHarmless(img, BLANK);
    forall k: nat | CODE_AT + ENTRY_SIZE <= k && k + SIGNATURE_SIZE <= TABLE_AT
      ensures !PassesAt(img, k, length)
    {
      if IPL3_END <= k < IPL3_END + SIGNATURE_SIZE && k % ENTRY_SIZE == 0 {
        BlankMark(img, (k - IPL3_END) / 16, length);
      } else if k % ENTRY_SIZE == 0 {
        NothingBesides(img, BLANK, k, length);
      }
    }
  }

  lemma BlankMark(img: bytes, j: nat, length: nat)
    requires Fronted(img, BLANK) && j < 3
    ensures !PassesAt(img, IPL3_END + 16 * j, length)
  {
    MarkedEntry(img, BLANK, j);
    assert BLANK[16 * j..16 * j + 16] == Zeros(16);
    assert Zeros(16)[4..8] == Zeros(4);
  }

  /* They can be opened */

  lemma SampleParts(front: bytes, row: Dma, file: bytes)
    requires |front| == TABLE_AT
    ensures var img := Sample(front, row, file).image;
      && |img| == FILE_AT + |file| && img[..TABLE_AT] == front
      && img[TABLE_AT..FILE_AT] == PrintTable(Rows(row)) && img[FILE_AT..] == file
  {
  }

  lemma RowsSign(t: seq<Dma>, row: Dma, length: nat)
    requires t == Rows(row) && length >= FILE_AT
    ensures |t| == 4 && CanBeMakerom(t[0]) && IsDmadata(t[0], t[1], t[2], TABLE_AT, length)
    ensures t[2].vromEnd - t[2].vromStart == ENTRY_SIZE * |t|
  {
  }

  lemma ImageIsSigned(img: bytes, t: seq<Dma>, row: Dma)
    requires t == Rows(row) && |img| >= FILE_AT && img[TABLE_AT..FILE_AT] == PrintTable(t)
    ensures Signed(RomView(img, t), TABLE_AT)
  {
    RowsSign(t, row, |img|);
    PrintedLoaded(img, TABLE_AT, t);
    LoadedSignature(img, TABLE_AT, t);
  }

  lemma ImageOpens(v: RomView, front: bytes)
    requires Known(front) && Signed(v, TABLE_AT) && |v.image| >= FILE_AT && v.image[..TABLE_AT] == front
    requires |v.table| > 0 && v.table[0] == Dma(0, BOOTCODE_AT, 0, 0) && Clear(v.image, TABLE_AT, |v.image|)
    ensures Opens(v.image, TABLE_AT) && IsCic6105(v.image, v.table[0])
  {
    CodeStaysHarmless(v.image, v.image, TABLE_AT);
    FirstExactly(v.image, v.image, TABLE_AT);
    assert v.image[IPL3_START..IPL3_END] == front[IPL3_START..IPL3_END];
    WrapFits(BOOTCODE_AT);
    FoundHead(v.image, TABLE_AT);
  }

  // One opens unless its mark passes for a table at its own length.
  lemma SampleOpens(front: bytes, mark: bytes, row: Dma, file: bytes)
    requires Known(front) && Fronted(front, mark)
    ensures var v := Sample(front, row, file);
      && |v.image| == FILE_AT + |file| && v.image[FILE_AT..] == file
      && Signed(v, TABLE_AT) && Fronted(v.image, mark)
      && (Clear(v.image, TABLE_AT, |v.image|) ==> Opens(v.image, TABLE_AT) && IsCic6105(v.image, v.table[0]))
  {
    var v := Sample(front, row, file);
    SampleParts(front, row, file);
    ImageIsSigned(v.image, Rows(row), row);
    assert front[..TABLE_AT] == front;
    if Clear(v.image, TABLE_AT, |v.image|) {
      ImageOpens(v, front);
    }
  }

  // With a blank mark it does, and is clear at any length.
  lemma BlankOpens(row: Dma, file: bytes) returns (v: RomView)
    ensures |v.image| == FILE_AT + |file| && v.image[FILE_AT..] == file && v.table == Rows(row)
    ensures Signed(v, TABLE_AT) && Opens(v.image, TABLE_AT) && IsCic6105(v.image, v.table[0]) && Fronted(v.image, BLANK)
  {
    var front := SomeFrontIsKnown(BLANK);
    v := Sample(front, row, file);
    SampleOpens(front, BLANK, row, file);
    BlankIsClear(v.image, |v.image|);
  }

  /* They can be rebuilt */

  lemma StoredQualifies(c: Codec, v: RomView, row: Dma, file: bytes)
    requires Contract(c) && Signed(v, TABLE_AT) && v.table == Rows(row)
    requires 0 < |file| <= 0xF000_0000 && row == Dma(FILE_AT, FILE_AT + |file|, FILE_AT, 0)
    requires |v.image| >= FILE_AT + |file| && v.image[FILE_AT..FILE_AT + |file|] == file
    ensures Decompressed(c, v, TABLE_AT) && AllStored(v.table) && v.table[0].vromEnd % 16 == 0
    ensures FileOf(c, v, 3) == Some(file)
  {
    RowsAreTidy(v.table, row);
    forall i | 0 <= i < |v.table|
      ensures ReadableAt(c, v, i)
    {
      StoredReads(c, v, row, i);
    }
  }

  lemma RowsAreTidy(t: seq<Dma>, row: Dma)
    requires t == Rows(row) && row.vromStart == FILE_AT && row.vromStart <= row.vromEnd
    ensures RangesApart(t) && (row == SparseRow(row) ==> SparseTable(t)) && t[0].vromEnd % 16 == 0
    ensures KindOf(row) == StoredEntry ==> AllStored(t)
  {
    forall i, j | 0 <= i < j < |t| && Occupied(t[i]) && Occupied(t[j])
      ensures RangeApart(t[i], t[j])
    {
    }
  }

  lemma StoredReads(c: Codec, v: RomView, row: Dma, i: nat)
    requires v.table == Rows(row) && |v.image| >= FILE_AT && i < 4
    requires i == 3 ==> KindOf(row) == StoredEntry && row.romStart + (row.vromEnd - row.vromStart) <= |v.image|
    requires row.vromStart <= row.vromEnd
    ensures ReadableAt(c, v, i)
  {
  }

  /* Where their files are written */

  // A plan for one of them: three files that are copied, and a fourth, whatever is done with it.
  ghost predicate Shaped(p: Plan) {
    && HeadCopied(p) && |p.entries| == 4
    && p.entries[0].vromEnd == BOOTCODE_AT && p.entries[1].vromEnd == TABLE_AT && p.entries[2].vromEnd == FILE_AT
    && p.entries[3].vromStart == FILE_AT && p.jobs[3].Put? && p.Length(3) > 0
  }

  lemma ShapedStarts(p: Plan)
    requires Shaped(p)
    ensures p.Start(0) == 0 && p.Start(1) == BOOTCODE_AT && p.Start(2) == TABLE_AT && p.Start(3) == FILE_AT
    ensures p.Length(0) == BOOTCODE_AT && p.Length(1) == 16 && p.Length(2) == 64
  {
    if p.pack == Dense {
      Cursor(p, 0);
      Cursor(p, 1);
      Cursor(p, 2);
    }
  }

  lemma Cursor(p: Plan, i: nat)
    requires p.Valid() && p.pack == Dense && i < |p.entries| && Live(p.entries[i]) && p.Length(i) % 16 == 0
    requires p.Start(i) + p.Length(i) < TWO_32
    ensures p.Position(i + 1) == p.Start(i) + p.Length(i)
    ensures i + 1 < |p.entries| ==> p.Start(i + 1) == p.Start(i) + p.Length(i)
  {
    WrapFits(p.Length(i));
    AlignedAlready(p.Length(i));
    WrapFits(p.Start(i) + p.Length(i));
  }

  lemma AlignedAlready(n: u32)
    requires n % 16 == 0
    ensures Align16(n) == n
  {
    assert n <= 0xFFFF_FFF0;
    WrapFits(n + 15);
    assert (n + 15) % 16 == 15;
  }

  // Without padding they fit where the fourth file does.
  lemma ShapedRoomy(p: Plan, length: nat)
    requires Shaped(p)
    ensures Roomy(p, NoPad, length) <==> FILE_AT + p.Length(3) <= length
  {
    ShapedStarts(p);
    if FILE_AT + p.Length(3) <= length {
      forall i | 0 <= i < 4
        ensures p.FitsAt(length, i)
      {
      }
    } else {
      assert !p.FitsAt(length, 3);
    }
  }

  // What write_rom leaves when everything fits.
  lemma WriteSucceeds(p: Plan, c: Codec, v: RomView, o: nat, pad: Pad, before: bytes) returns (after: bytes, romSize: nat)
    requires Rebuilding(p, c, v, o) && |v.table| > 0 && IsCic6105(v.image, v.table[0])
    requires CODE_END <= |before| <= SAFE_LENGTH && |p.entries| > TABLE_INDEX && Roomy(p, pad, |before|)
    ensures Written(p, pad, before, after, romSize)
  {
    BootcodeIsThere(p, c, v, o, pad, before);
    NothingIsBad(p, c, v, o);
    CheckCodeErrors(Tabled(p, pad, before), p.Row(0));
    after, romSize := WritableIsWritten(p, pad, before);
  }

  lemma WritableIsWritten(p: Plan, pad: Pad, before: bytes) returns (after: bytes, romSize: nat)
    requires p.Valid() && |p.entries| > TABLE_INDEX && Writable(p, pad, before) && CODE_END <= |before| <= SAFE_LENGTH
    ensures Written(p, pad, before, after, romSize)
  {
    after := Finished(p, pad, before, CheckCodeOf(Tabled(p, pad, before), p.Row(0)).value);
    romSize := p.Size() + |Padding(p.Size(), pad)|;
  }

  lemma CompressShape(p: Plan, c: Codec, v: RomView, row: Dma)
    requires CompressedFrom(p, c, v, TABLE_AT) && v.table == Rows(row) && Occupied(row) && row.vromStart == FILE_AT
    ensures |p.entries| == |p.jobs| == 4 && p.jobs[3].Put? && CompressedAs(p, c, v, 3)
    ensures 0 < p.Length(3) ==> Shaped(p)
  {
    PlannedHead(c, v, TABLE_AT, CompressPlan(v.table), Dense);
    CompressedJob(p, c, v, TABLE_AT, 3);
  }

  lemma DecompressShape(p: Plan, c: Codec, v: RomView, row: Dma)
    requires DecompressedFrom(p, c, v, TABLE_AT) && v.table == Rows(row) && Occupied(row) && row.vromStart == FILE_AT
    ensures |p.entries| == |p.jobs| == 4 && p.jobs[3].Put? && p.Length(3) == row.vromEnd - row.vromStart
    ensures Shaped(p)
  {
    PlannedHead(c, v, TABLE_AT, DecompressPlan(v.table), p.pack);
    DecompressedJob(p, c, v, TABLE_AT, 3);
  }

  /* A ROM that comes back */

  const SEVEN: bytes := [7]
  const SEVEN_ROW: Dma := Dma(FILE_AT, FILE_AT + 1, FILE_AT, 0)

  lemma EncodedSeven()
    ensures Contract(LITERAL_CODEC) && |LITERAL_CODEC.encode(SEVEN)| == 18 && MAGIC <= LITERAL_CODEC.encode(SEVEN)
  {
    LiteralCodecKeepsContract();
  }

  lemma SevenQualifies(v: RomView)
    requires Signed(v, TABLE_AT) && v.table == Rows(SEVEN_ROW) && |v.image| == FILE_AT + 1 && v.image[FILE_AT..] == SEVEN
    ensures Decompressed(LITERAL_CODEC, v, TABLE_AT) && AllStored(v.table) && v.table[0].vromEnd % 16 == 0
    ensures FileOf(LITERAL_CODEC, v, 3) == Some(SEVEN)
  {
    EncodedSeven();
    StoredQualifies(LITERAL_CODEC, v, SEVEN_ROW, SEVEN);
  }

  // Compressing the one-byte file writes 18 bytes, whose extent is 32 bytes long.
  lemma SevenCompressed(c: Codec, v: RomView, length: nat) returns (p: Plan)
    requires Decompressed(c, v, TABLE_AT) && v.table == Rows(SEVEN_ROW) && |c.encode(SEVEN)| == 18
    requires FileOf(c, v, 3) == Some(SEVEN)
    ensures CompressedFrom(p, c, v, TABLE_AT) && Shaped(p)
    ensures Roomy(p, NoPad, length) <==> FILE_AT + 18 <= length
    ensures p.entries[3].operation == Compress && p.Start(3) == FILE_AT && p.Aligned(3) == 32
  {
    PlannedReachable(c, v, TABLE_AT, CompressPlan(v.table));
    p := PlanFor(c, v, CompressPlan(v.table), Dense);
    CompressShape(p, c, v, SEVEN_ROW);
    SevenPlaced(p, length);
  }

  lemma SevenPlaced(p: Plan, length: nat)
    requires Shaped(p) && p.Length(3) == 18
    ensures p.Start(3) == FILE_AT && p.Aligned(3) == 32
    ensures Roomy(p, NoPad, length) <==> FILE_AT + 18 <= length
  {
    ShapedStarts(p);
    ShapedRoomy(p, length);
    WrapFits(18);
  }

  // A buffer just long enough for what is written loses the last file: its extent ends behind it.
  lemma ShortBufferLosesFile() returns (v: RomView, p: Plan, before: bytes, after: bytes, romSize: nat)
    ensures Opens(v.image, TABLE_AT) && Decompressed(LITERAL_CODEC, v, TABLE_AT) && v.table[0].vromEnd % 16 == 0
    ensures CompressedFrom(p, LITERAL_CODEC, v, TABLE_AT) && Written(p, NoPad, before, after, romSize)
    ensures |v.table| == |p.entries| == 4 && FileOf(LITERAL_CODEC, v, 3) == Some(SEVEN)
    ensures FileOf(LITERAL_CODEC, RomView(after, p.Table()), 3) == None
  {
    v := BlankOpens(SEVEN_ROW, SEVEN);
    SevenQualifies(v);
    EncodedSeven();
    p, before, after, romSize := LosesFile(LITERAL_CODEC, v);
  }

  lemma LosesFile(c: Codec, v: RomView) returns (p: Plan, before: bytes, after: bytes, romSize: nat)
    requires Decompressed(c, v, TABLE_AT) && v.table == Rows(SEVEN_ROW) && |c.encode(SEVEN)| == 18
    requires FileOf(c, v, 3) == Some(SEVEN) && IsCic6105(v.image, v.table[0]) && v.table[0].vromEnd % 16 == 0
    ensures CompressedFrom(p, c, v, TABLE_AT) && Written(p, NoPad, before, after, romSize) && |p.entries| == 4
    ensures FileOf(c, RomView(after, p.Table()), 3) == None
  {
    before := Zeros(FILE_AT + 18);
    p := SevenCompressed(c, v, |before|);
    after, romSize := WriteSucceeds(p, c, v, TABLE_AT, NoPad, before);
    CompressedRom(p, c, v, TABLE_AT, NoPad, before, after, romSize);
    assert KeptAt(p, c, v, RomView(after, p.Table()), |before|, 3);
  }

  /* The whole way */

  // There and back: the ROM opens, is compressed, opens, is decompressed, and opens.
  lemma SomeRomComesBack()
    returns (v: RomView, p: Plan, before: bytes, between: bytes, size: nat, q: Plan, before': bytes, after: bytes, size': nat)
    ensures Opens(v.image, TABLE_AT) && Decompressed(LITERAL_CODEC, v, TABLE_AT) && v.table[0].vromEnd % 16 == 0
    ensures CompressedFrom(p, LITERAL_CODEC, v, TABLE_AT) && Written(p, NoPad, before, between, size)
    ensures Ample(p, LITERAL_CODEC, v, NoPad, |before|) && Opens(between, TABLE_AT)
    ensures DecompressedFrom(q, LITERAL_CODEC, RomView(between, TableAt(between, TABLE_AT)), TABLE_AT) && q.pack == Sparse
    ensures Written(q, NoPad, before', after, size') && Opens(after, TABLE_AT)
  {
    v := BlankOpens(SEVEN_ROW, SEVEN);
    SevenQualifies(v);
    EncodedSeven();
    var row;
    p, before, between, size, row := GoesThere(LITERAL_CODEC, v);
    BlankIsClear(v.image, |between|);
    q, before', after, size' := ComesBack(p, LITERAL_CODEC, v, row, before, between, size);
    BlankIsClear(v.image, |after|);
  }

  lemma GoesThere(c: Codec, v: RomView)
    returns (p: Plan, before: bytes, between: bytes, size: nat, row: Dma)
    requires Decompressed(c, v, TABLE_AT) && v.table == Rows(SEVEN_ROW) && |c.encode(SEVEN)| == 18
    requires FileOf(c, v, 3) == Some(SEVEN) && IsCic6105(v.image, v.table[0]) && v.table[0].vromEnd % 16 == 0
    ensures CompressedFrom(p, c, v, TABLE_AT) && Written(p, NoPad, before, between, size)
    ensures |before| == FILE_AT + 32 && |before| % 16 == 0
    ensures p.Table() == Rows(row) && Occupied(row) && row.vromStart == FILE_AT && row.vromEnd == FILE_AT + 1
  {
    before := EvenBuffer();
    p := SevenCompressed(c, v, |before|);
    row := CompressedTable(p, c, v);
    between, size := WriteSucceeds(p, c, v, TABLE_AT, NoPad, before);
  }

  lemma EvenBuffer() returns (b: bytes)
    ensures |b| == FILE_AT + 32 && |b| % 16 == 0
  {
    b := Zeros(FILE_AT + 32);
  }

  lemma ComesBack(p: Plan, c: Codec, v: RomView, row: Dma, before: bytes, between: bytes, size: nat)
    returns (q: Plan, before': bytes, after: bytes, size': nat)
    requires Decompressed(c, v, TABLE_AT) && v.table[0].vromEnd % 16 == 0 && CompressedFrom(p, c, v, TABLE_AT)
    requires Written(p, NoPad, before, between, size) && |before| % 16 == 0
    requires p.Table() == Rows(row) && Occupied(row) && row.vromStart == FILE_AT && row.vromEnd == FILE_AT + 1
    ensures SignatureAt(between, TABLE_AT) && OpensAsSeen(v.image, between, TABLE_AT)
    ensures DecompressedFrom(q, c, RomView(between, TableAt(between, TABLE_AT)), TABLE_AT) && q.pack == Sparse
    ensures Written(q, NoPad, before', after, size') && OpensAsSeen(v.image, after, TABLE_AT)
  {
    ThereAndOpen(c, v, TABLE_AT, p, NoPad, before, between, size);
    StoredCodeIsRight(p, NoPad, before, between, size);
    var w := RomView(between, p.Table());
    q := PlanFor(c, w, DecompressPlan(w.table), Sparse);
    before' := Zeros(row.vromEnd);
    after, size' := DecompressSample(q, c, w, row, before');
    ThereAndBack(c, v, TABLE_AT, p, NoPad, before, between, size, q, NoPad, before', after, size');
  }

  lemma DecompressSample(q: Plan, c: Codec, w: RomView, row: Dma, before: bytes) returns (after: bytes, size: nat)
    requires DecompressedFrom(q, c, w, TABLE_AT) && w.table == Rows(row) && IsCic6105(w.image, w.table[0])
    requires Occupied(row) && row.vromStart == FILE_AT && row.vromEnd <= 0x9000_0000 && |before| == row.vromEnd
    ensures Written(q, NoPad, before, after, size)
  {
    assert ReadableAt(c, w, 3);
    DecompressShape(q, c, w, row);
    ShapedRoomy(q, |before|);
    after, size := WriteSucceeds(q, c, w, TABLE_AT, NoPad, before);
  }

  lemma CompressedTable(p: Plan, c: Codec, v: RomView) returns (row: Dma)
    requires CompressedFrom(p, c, v, TABLE_AT) && v.table == Rows(SEVEN_ROW) && Shaped(p) && p.Aligned(3) == 32
    ensures p.Table() == Rows(row) && Occupied(row) && row.vromStart == FILE_AT && row.vromEnd == FILE_AT + 1
  {
    row := p.Row(3);
    ShapedStarts(p);
    forall i | 0 <= i < 4
      ensures CompressedAs(p, c, v, i)
    {
      CompressedJob(p, c, v, TABLE_AT, i);
    }
    SevenRows(p, c, v);
  }

  lemma SevenRows(p: Plan, c: Codec, v: RomView)
    requires p.Valid() && v.table == Rows(SEVEN_ROW) && Shaped(p) && p.Aligned(3) == 32
    requires forall i: nat :: i < 4 ==> CompressedAs(p, c, v, i)
    ensures p.Table() == Rows(p.Row(3)) && p.Row(3) == Dma(FILE_AT, FILE_AT + 1, FILE_AT, FILE_AT + 32)
  {
    ShapedStarts(p);
    forall i: nat | i < 3
      ensures p.Row(i) == v.table[i]
    {
      CompressedRow(p, c, v, i);
    }
    CompressedRow(p, c, v, 3);
    WrapFits(FILE_AT + 32);
  }

  /* A file that does not survive being copied */

  // The same file, compressed in the source: 18 bytes and what fills them up to 32.
  const PACKED_ROW: Dma := Dma(FILE_AT, FILE_AT + 1, FILE_AT, FILE_AT + 32)

  function PackedSeven(): bytes { Encode(SEVEN) + Zeros(14) }

  lemma PackedReads(c: Codec, v: RomView, d: bytes)
    requires Contract(c) && v.table == Rows(PACKED_ROW) && |v.image| >= FILE_AT + 32
    requires v.image[FILE_AT..FILE_AT + 32] == d && c.encode(SEVEN) <= d
    ensures FileOf(c, v, 3) == Some(SEVEN) && ReadableAt(c, v, 3)
    ensures StatOf(c, v, 3).Success? && Inside(v.image, StatOf(c, v, 3).value) && StoredBytes(c, v, 3) == d
  {
    DecodeEncode(c, SEVEN);
    TailDecides(c, c.encode(SEVEN), d);
    HeaderTells(c, d);
    SubSlice(v.image, FILE_AT, FILE_AT + 32, 0, HEADER_SIZE);
  }

  // Compressed again, the ROM opens, but what is read for the file are the first bytes of its
  // compressed form.
  lemma CopyLosesFile() returns (v: RomView, p: Plan, before: bytes, after: bytes, romSize: nat)
    ensures Opens(v.image, TABLE_AT) && Signed(v, TABLE_AT) && Readable(LITERAL_CODEC, v) && RangesApart(v.table)
    ensures CompressedFrom(p, LITERAL_CODEC, v, TABLE_AT) && v.table[0].vromEnd % 16 == 0
    ensures Written(p, NoPad, before, after, romSize) && Ample(p, LITERAL_CODEC, v, NoPad, |before|)
    ensures |v.table| == |p.entries| == 4 && FileOf(LITERAL_CODEC, v, 3) == Some(SEVEN)
    ensures FileOf(LITERAL_CODEC, RomView(after, p.Table()), 3) == Some([0x59])
  {
    var d;
    v, d := PackedSample();
    LiteralCodecKeepsContract();
    p, before, after, romSize := CopyIsStored(LITERAL_CODEC, v, d);
  }

  lemma PackedSample() returns (v: RomView, d: bytes)
    ensures Opens(v.image, TABLE_AT) && Signed(v, TABLE_AT) && v.table == Rows(PACKED_ROW)
    ensures IsCic6105(v.image, v.table[0])
    ensures |v.image| >= FILE_AT + 32 && v.image[FILE_AT..FILE_AT + 32] == d
    ensures LITERAL_CODEC.encode(SEVEN) <= d && d[..1] == [0x59]
  {
    d := PackedSeven();
    EncodedSeven();
    v := BlankOpens(PACKED_ROW, d);
    assert v.image[FILE_AT..FILE_AT + 32] == v.image[FILE_AT..];
  }

  lemma CopyIsStored(c: Codec, v: RomView, d: bytes) returns (p: Plan, before: bytes, after: bytes, romSize: nat)
    requires Contract(c) && Signed(v, TABLE_AT) && IsCic6105(v.image, v.table[0]) && v.table == Rows(PACKED_ROW)
    requires |v.image| >= FILE_AT + 32 && v.image[FILE_AT..FILE_AT + 32] == d && c.encode(SEVEN) <= d
    ensures Readable(c, v) && RangesApart(v.table) && FileOf(c, v, 3) == Some(SEVEN)
    ensures CompressedFrom(p, c, v, TABLE_AT) && v.table[0].vromEnd % 16 == 0 && |p.entries| == 4
    ensures Written(p, NoPad, before, after, romSize) && |before| % 16 == 0
    ensures FileOf(c, RomView(after, p.Table()), 3) == Some(d[..1])
  {
    PackedReads(c, v, d);
    RowsAreTidy(v.table, PACKED_ROW);
    forall i | 0 <= i < |v.table|
      ensures ReadableAt(c, v, i)
    {
      if i < 3 {
        StoredReads(c, v, PACKED_ROW, i);
      }
    }
    before := EvenBuffer();
    p := PackedPlan(c, v, d, |before|);
    after, romSize := WriteSucceeds(p, c, v, TABLE_AT, NoPad, before);
    CompressedRom(p, c, v, TABLE_AT, NoPad, before, after, romSize);
    assert KeptAt(p, c, v, RomView(after, p.Table()), |before|, 3);
  }

  lemma PackedPlan(c: Codec, v: RomView, d: bytes, length: nat) returns (p: Plan)
    requires Contract(c) && Signed(v, TABLE_AT) && Readable(c, v) && v.table == Rows(PACKED_ROW)
    requires StatOf(c, v, 3).Success? && Inside(v.image, StatOf(c, v, 3).value) && StoredBytes(c, v, 3) == d && |d| == 32
    ensures CompressedFrom(p, c, v, TABLE_AT) && Shaped(p)
    ensures Roomy(p, NoPad, length) <==> FILE_AT + 32 <= length
  {
    PlannedReachable(c, v, TABLE_AT, CompressPlan(v.table));
    p := PlanFor(c, v, CompressPlan(v.table), Dense);
    CompressShape(p, c, v, PACKED_ROW);
    ShapedRoomy(p, length);
  }

  /* A ROM that opens elsewhere */

  // A signature whose table ends behind its own ROM, but not behind a larger one.
  const DECOY_END: nat := FILE_AT + 32
  const DECOY: seq<Dma> := [Dma(0, IPL3_END, 0, 0), Dma(IPL3_END, IPL3_END, IPL3_END, 0), Dma(IPL3_END, DECOY_END, IPL3_END, 0)]

  lemma DecoyEntries(img: bytes, mark: bytes)
    requires mark == PrintTable(DECOY) && Fronted(img, mark)
    ensures forall j :: 0 <= j < 3 ==> EntryAt(img, IPL3_END + 16 * j) == DECOY[j]
  {
    forall j | 0 <= j < 3
      ensures EntryAt(img, IPL3_END + 16 * j) == DECOY[j]
    {
      MarkedEntry(img, mark, j);
      PrintedPart(DECOY, j);
      ParsePrint(DECOY[j]);
    }
  }

  lemma DecoyPasses(img: bytes, mark: bytes, length: nat)
    requires mark == PrintTable(DECOY) && Fronted(img, mark)
    ensures PassesAt(img, IPL3_END, length) <==> DECOY_END <= length
    ensures !PassesAt(img, IPL3_END + 16, length) && !PassesAt(img, IPL3_END + 32, length)
  {
    DecoyEntries(img, mark);
    assert EntryAt(img, IPL3_END + 16 * 0) == DECOY[0];
    assert EntryAt(img, IPL3_END + 16 * 1) == DECOY[1];
    assert EntryAt(img, IPL3_END + 16 * 2) == DECOY[2];
  }

  lemma DecoyIsAlone(img: bytes, mark: bytes, length: nat)
    requires mark == PrintTable(DECOY) && Fronted(img, mark)
    ensures CodeIsHarmless(img) && NoDecoy(img, IPL3_END, length)
    ensures NoDecoy(img, TABLE_AT, length) <==> length < DECOY_END
  {
    FrontIsHarmless(img, mark);
    DecoyPasses(img, mark, length);
    forall k: nat | CODE_AT + ENTRY_SIZE <= k && k + SIGNATURE_SIZE <= TABLE_AT && k != IPL3_END
      ensures !PassesAt(img, k, length)
    {
      if IPL3_END <= k < IPL3_END + SIGNATURE_SIZE {
        assert k == IPL3_END + 16 || k == IPL3_END + 32 || k % ENTRY_SIZE != 0;
      } else {
        NothingBesides(img, mark, k, length);
      }
    }
  }

  // It opens, and when it is compressed into a larger buffer its table is where it was; but what
  // is opened is the decoy.
  lemma DecoyTakesOver() returns (v: RomView, p: Plan, before: bytes, after: bytes, romSize: nat)
    ensures Opens(v.image, TABLE_AT) && Decompressed(LITERAL_CODEC, v, TABLE_AT) && v.table[0].vromEnd % 16 == 0
    ensures CompressedFrom(p, LITERAL_CODEC, v, TABLE_AT) && Written(p, NoPad, before, after, romSize)
    ensures Ample(p, LITERAL_CODEC, v, NoPad, |before|)
    ensures SignatureAt(after, TABLE_AT) && TableAt(after, TABLE_AT) == p.Table()
    ensures Opens(after, IPL3_END) && !Opens(after, TABLE_AT)
  {
    var mark := PrintTable(DECOY);
    var front := SomeFrontIsKnown(mark);
    v := Sample(front, SEVEN_ROW, SEVEN);
    SampleOpens(front, mark, SEVEN_ROW, SEVEN);
    DecoyIsAlone(v.image, mark, |v.image|);
    SevenQualifies(v);
    EncodedSeven();
    var row;
    p, before, after, romSize, row := GoesThere(LITERAL_CODEC, v);
    ThereAndOpen(LITERAL_CODEC, v, TABLE_AT, p, NoPad, before, after, romSize);
    StoredCodeIsRight(p, NoPad, before, after, romSize);
    DecoyIsAlone(v.image, mark, |after|);
    OpensAtDecoy(v.image, mark, after, p.Row(0));
  }

  lemma OpensAtDecoy(img: bytes, mark: bytes, after: bytes, makerom: Dma)
    requires mark == PrintTable(DECOY) && Fronted(img, mark) && OpensAsSeen(img, after, TABLE_AT)
    requires |after| == DECOY_END && IsCic6105(after, makerom)
    ensures Opens(after, IPL3_END)
  {
    DecoyPasses(img, mark, |after|);
    DecoyIsAlone(img, mark, |after|);
    SamePasses(img, after, TABLE_AT, IPL3_END, |after|);
    assert SameBelow(img, after, IPL3_END);
    FirstExactly(img, after, IPL3_END);
    CodeStaysHarmless(img, after, TABLE_AT);
    DecoyEntries(img, mark);
    SameEntry(img, after, TABLE_AT, IPL3_END);
    assert EntryAt(img, IPL3_END + 16 * 0) == DECOY[0];
    WrapFits(IPL3_END);
  }

  /* A file that is never read */

  // The header of a file of one byte, and no more than the beginning of its only group.
  const CUT_OFF: bytes := MAGIC + BigEndian32(1) + RESERVED + [0xFF]

  // With this codec reading a file ends exactly where its extent, or a whole file, is in the ROM.
  lemma LiteralReading(v: RomView, size: nat, index: nat)
    requires Contract(LITERAL_CODEC) && StatOf(LITERAL_CODEC, v, index).Success?
    requires StatFits(LITERAL_CODEC, v.image, StatOf(LITERAL_CODEC, v, index).value)
    requires StatOf(LITERAL_CODEC, v, index).value.how == Packed && StatOf(LITERAL_CODEC, v, index).value.fileSize <= size
    ensures var st := StatOf(LITERAL_CODEC, v, index).value;
      ReadReturns(LITERAL_CODEC, v, size, index) <==> EndableAt(LITERAL_CODEC, v.image, st)
  {
    var st := StatOf(LITERAL_CODEC, v, index).value;
    LiteralReturns(Part(v.image, st), st.size, st.fileSize);
  }

  lemma FileIsCutOff(v: RomView)
    requires v.table == Rows(PACKED_ROW) && |v.image| == FILE_AT + 17 && v.image[FILE_AT..] == CUT_OFF
    ensures StatOf(LITERAL_CODEC, v, 3) == Success(Stat(Packed, FILE_AT, 32, 1))
    ensures Part(v.image, Stat(Packed, FILE_AT, 32, 1)) == CUT_OFF && Decode(CUT_OFF) == None
  {
    var header := CUT_OFF[..HEADER_SIZE];
    assert header[..4] == MAGIC && header[4..8] == BigEndian32(1);
    ReadBigEndian(1);
    assert v.image[FILE_AT..FILE_AT + HEADER_SIZE] == v.image[FILE_AT..][..HEADER_SIZE];
    assert v.image[FILE_AT..FILE_AT + 17] == v.image[FILE_AT..];
  }

  // A ROM that opens, with a file for which the reading loop goes round for ever.
  lemma ReadingHangs() returns (v: RomView)
    ensures Opens(v.image, TABLE_AT) && Signed(v, TABLE_AT) && Contract(LITERAL_CODEC)
    ensures StatOf(LITERAL_CODEC, v, 3) == Success(Stat(Packed, FILE_AT, 32, 1)) && !ReadReturns(LITERAL_CODEC, v, 1, 3)
    ensures Headed(LITERAL_CODEC, CUT_OFF, 32, 1) && Part(v.image, Stat(Packed, FILE_AT, 32, 1)) == CUT_OFF
    ensures Hangs(LITERAL_CODEC, CUT_OFF, 32, 1)
  {
    LiteralCodecKeepsContract();
    v := BlankOpens(PACKED_ROW, CUT_OFF);
    FileIsCutOff(v);
    StatFacts(LITERAL_CODEC, v, 3);
    LiteralReading(v, 1, 3);
    LiteralReturns(CUT_OFF, 32, 1);
  }

  /* Sizes that are promised and not kept */

  // The sparse bound of the one-byte ROM is not the size of the padded one.
  lemma PaddedBoundFallsShort(pad: Pad) returns (v: RomView, p: Plan)
    requires pad != NoPad
    ensures Opens(v.image, TABLE_AT) && DecompressedFrom(p, LITERAL_CODEC, v, TABLE_AT) && |p.entries| > TABLE_INDEX
    ensures WriteBoundOf(LITERAL_CODEC, v, p.entries, Options(Sparse, pad)) == Success(FILE_AT + 16)
    ensures !Roomy(p, pad, FILE_AT + 16)
  {
    v := BlankOpens(SEVEN_ROW, SEVEN);
    SevenQualifies(v);
    p := SparseFallsShort(LITERAL_CODEC, v, pad);
  }

  lemma SparseFallsShort(c: Codec, v: RomView, pad: Pad) returns (p: Plan)
    requires pad != NoPad && Decompressed(c, v, TABLE_AT) && v.table == Rows(SEVEN_ROW)
    ensures DecompressedFrom(p, c, v, TABLE_AT) && |p.entries| > TABLE_INDEX
    ensures WriteBoundOf(c, v, p.entries, Options(Sparse, pad)) == Success(FILE_AT + 16)
    ensures !Roomy(p, pad, FILE_AT + 16)
  {
    PlannedReachable(c, v, TABLE_AT, DecompressPlan(v.table));
    p := PlanFor(c, v, DecompressPlan(v.table), Sparse);
    BoundOfSeven(p, c, v, pad);
    DecompressBoundIsExact(p, c, v, TABLE_AT, pad, FILE_AT + 16);
    NoPowerOfTwo();
  }

  lemma BoundOfSeven(p: Plan, c: Codec, v: RomView, pad: Pad)
    requires DecompressedFrom(p, c, v, TABLE_AT) && v.table == Rows(SEVEN_ROW)
    ensures Bounded(p, c, v) && WriteBoundOf(c, v, p.entries, Options(Sparse, pad)) == Success(FILE_AT + 16)
  {
    forall i | 0 <= i < 4
      ensures BoundedAt(p, c, v, i)
    {
      SevenBounded(p, c, v, i);
    }
    SevenBound(c, v);
  }

  lemma SevenBounded(p: Plan, c: Codec, v: RomView, i: nat)
    requires p.Valid() && v.table == Rows(SEVEN_ROW) && p.entries == DecompressPlan(v.table) && i < 4
    ensures BoundedAt(p, c, v, i)
  {
    if i < 3 {
      HeadBound(c, v, SEVEN_ROW, p.entries, i);
    }
  }

  lemma SevenBound(c: Codec, v: RomView)
    requires v.table == Rows(SEVEN_ROW)
    ensures MaxBound(c, v, DecompressPlan(v.table), 4) == Success(FILE_AT + 16)
  {
    assert Align16(1) == 16;
    BoundOfRows(c, v, SEVEN_ROW, DecompressPlan(v.table), 1);
  }

  lemma NoPowerOfTwo()
    ensures CeilPow2(FILE_AT + 16) != FILE_AT + 16
  {
    Pow2Adds(10, 10);
    assert Pow2(10) == 1024 && Pow2(20) == 0x10_0000 && Pow2(21) == 0x20_0000;
    CeilPow2IsLeast(FILE_AT + 16, 0);
    var j: nat :| CeilPow2(FILE_AT + 16) == Pow2(j);
    if j <= 20 {
      Pow2Grows(j, 20);
    } else {
      Pow2Grows(21, j);
    }
  }

  // The three files that are copied are bounded by their VROM ranges,
  lemma HeadBound(c: Codec, v: RomView, row: Dma, entries: seq<LayoutEntry>, i: nat)
    requires v.table == Rows(row) && Planned(v, entries) && i < 3
    ensures |entries| == 4 && Live(entries[i])
    ensures EntryBound(c, v, entries[i]) == Success(v.table[i].vromEnd - v.table[i].vromStart)
  {
  }

  // and the whole by where the fourth begins and what its own bound is rounded up to.
  lemma BoundOfRows(c: Codec, v: RomView, row: Dma, entries: seq<LayoutEntry>, last: u32)
    requires v.table == Rows(row) && Planned(v, entries) && row.vromStart == FILE_AT
    requires |entries| == 4 && Live(entries[3]) && EntryBound(c, v, entries[3]) == Success(last)
    requires FILE_AT + Align16(last) <= UINT32_MAX
    ensures SumBound(c, v, entries, 4) == MaxBound(c, v, entries, 4) == Success(FILE_AT + Align16(last))
  {
    AlignedAlready(BOOTCODE_AT);
    AlignedAlready(16);
    AlignedAlready(64);
    HeadBound(c, v, row, entries, 0);
    HeadBound(c, v, row, entries, 1);
    HeadBound(c, v, row, entries, 2);
    BoundGrows(c, v, entries, 0, 0, BOOTCODE_AT);
    BoundGrows(c, v, entries, 1, BOOTCODE_AT, 16);
    BoundGrows(c, v, entries, 2, TABLE_AT, 64);
    BoundGrows(c, v, entries, 3, FILE_AT, last);
  }

  lemma BoundGrows(c: Codec, v: RomView, entries: seq<LayoutEntry>, i: nat, sofar: u32, size: u32)
    requires i < |entries| && Live(entries[i]) && entries[i].vromStart == sofar && sofar + Align16(size) <= UINT32_MAX
    requires EntryBound(c, v, entries[i]) == Success(size)
    requires SumBound(c, v, entries, i) == MaxBound(c, v, entries, i) == Success(sofar)
    ensures SumBound(c, v, entries, i + 1) == MaxBound(c, v, entries, i + 1) == Success(sofar + Align16(size))
  {
  }

  // With a file of 2^31 bytes the dense bound of the padded ROM is 0.
  const LARGE: nat := 0x8000_0000
  const LARGE_ROW: Dma := Dma(FILE_AT, FILE_AT + LARGE, FILE_AT, 0)

  lemma PaddedBoundIsNothing(pad: Pad) returns (v: RomView, entries: seq<LayoutEntry>)
    requires pad != NoPad
    ensures Opens(v.image, TABLE_AT) && Decompressed(LITERAL_CODEC, v, TABLE_AT) && entries == DecompressPlan(v.table)
    ensures WriteBoundOf(LITERAL_CODEC, v, entries, Options(Dense, pad)) == Success(0)
    ensures WriteBoundOf(LITERAL_CODEC, v, entries, Options(Dense, NoPad)) == Success(FILE_AT + LARGE)
  {
    LiteralCodecKeepsContract();
    var file := Zeros(LARGE);
    v := BlankOpens(LARGE_ROW, file);
    StoredQualifies(LITERAL_CODEC, v, LARGE_ROW, file);
    entries := DecompressPlan(v.table);
    AlignedAlready(LARGE);
    BoundOfRows(LITERAL_CODEC, v, LARGE_ROW, entries, LARGE);
  }

  // A compressed file whose header tells more than its VROM range: 17 bytes in a range of one.
  const LONG_ROW: Dma := Dma(FILE_AT, FILE_AT + 1, FILE_AT, FILE_AT + 36)

  lemma HeaderBeyondRange(pack: Pack) returns (v: RomView, p: Plan)
    ensures Opens(v.image, TABLE_AT) && Signed(v, TABLE_AT) && FileOf(LITERAL_CODEC, v, 3) == Some(Zeros(17))
    ensures p.Valid() && PlanOf(p, LITERAL_CODEC, v, DecompressPlan(v.table), pack) && |p.entries| > TABLE_INDEX
    ensures WriteBoundOf(LITERAL_CODEC, v, p.entries, Options(pack, NoPad)) == Success(FILE_AT + 16)
    ensures !Roomy(p, NoPad, FILE_AT + 16)
  {
    LiteralCodecKeepsContract();
    var d := Encode(Zeros(17));
    v := BlankOpens(LONG_ROW, d);
    LongFileReads(LITERAL_CODEC, v, d);
    LongBound(LITERAL_CODEC, v);
    p := LongPlan(LITERAL_CODEC, v, pack);
  }

  lemma LongFileReads(c: Codec, v: RomView, d: bytes)
    requires Contract(c) && v.table == Rows(LONG_ROW) && d == c.encode(Zeros(17)) && |d| == 36
    requires |v.image| == FILE_AT + 36 && v.image[FILE_AT..] == d
    ensures StatOf(c, v, 3) == Success(Stat(Packed, FILE_AT, 36, 17)) && FileOf(c, v, 3) == Some(Zeros(17))
  {
    DecodeEncode(c, Zeros(17));
    HeaderTells(c, d);
    assert v.image[FILE_AT..FILE_AT + 36] == d;
    SubSlice(v.image, FILE_AT, FILE_AT + 36, 0, HEADER_SIZE);
  }

  lemma LongBound(c: Codec, v: RomView)
    requires v.table == Rows(LONG_ROW)
    ensures var entries := DecompressPlan(v.table);
      SumBound(c, v, entries, 4) == MaxBound(c, v, entries, 4) == Success(FILE_AT + 16)
  {
    assert Align16(1) == 16;
    BoundOfRows(c, v, LONG_ROW, DecompressPlan(v.table), 1);
  }

  lemma LongPlan(c: Codec, v: RomView, pack: Pack) returns (p: Plan)
    requires Signed(v, TABLE_AT) && v.table == Rows(LONG_ROW) && |v.image| == FILE_AT + 36
    requires StatOf(c, v, 3) == Success(Stat(Packed, FILE_AT, 36, 17)) && FileOf(c, v, 3) == Some(Zeros(17))
    ensures p.Valid() && PlanOf(p, c, v, DecompressPlan(v.table), pack) && |p.entries| > TABLE_INDEX
    ensures !Roomy(p, NoPad, FILE_AT + 16)
  {
    var entries := DecompressPlan(v.table);
    assert entries[3] == LayoutEntry(FILE_AT, FILE_AT + 1, Decompress, 3);
    RowsReachable(c, v, LONG_ROW, entries);
    p := PlanFor(c, v, entries, pack);
    FourthShapes(p, c, v, LONG_ROW, entries, Zeros(17));
    ShapedRoomy(p, FILE_AT + 16);
  }

  lemma RowsReachable(c: Codec, v: RomView, row: Dma, entries: seq<LayoutEntry>)
    requires Signed(v, TABLE_AT) && v.table == Rows(row) && Planned(v, entries) && Reachable(c, v, entries[3])
    ensures AllReachable(c, v, entries)
  {
    SignedHead(v, TABLE_AT);
    forall i | 0 <= i < 3
      ensures Reachable(c, v, entries[i])
    {
      HeadReachable(c, v, row, i, entries[i]);
    }
  }

  lemma HeadReachable(c: Codec, v: RomView, row: Dma, i: nat, e: LayoutEntry)
    requires v.table == Rows(row) && |v.image| >= FILE_AT && i < 3 && e.index == i
    ensures Reachable(c, v, e)
  {
  }

  // A plan with something to write for the fourth file.
  lemma FourthShapes(p: Plan, c: Codec, v: RomView, row: Dma, entries: seq<LayoutEntry>, d: bytes)
    requires Signed(v, TABLE_AT) && v.table == Rows(row) && Planned(v, entries) && row.vromStart == FILE_AT
    requires AllReachable(c, v, entries) && p == PlanFor(c, v, entries, p.pack)
    requires Live(entries[3]) && JobOf(c, v, entries[3]) == Put(d) && d != []
    ensures Shaped(p) && p.Length(3) == |d| && PlanOf(p, c, v, entries, p.pack)
  {
    PlanIsUnique(p, c, v, entries, p.pack);
    PlannedHead(c, v, TABLE_AT, entries, p.pack);
  }

  // A stored file so long that rounding up its bound when compressed gives 0.
  const HUGE: nat := 0xE38E_38C8
  const HUGE_ROW: Dma := Dma(FILE_AT, FILE_AT + HUGE, FILE_AT, 0)

  lemma BoundRoundsToNothing(pack: Pack) returns (v: RomView, p: Plan)
    ensures Opens(v.image, TABLE_AT) && Decompressed(LITERAL_CODEC, v, TABLE_AT)
    ensures p.Valid() && PlanOf(p, LITERAL_CODEC, v, CompressPlan(v.table), pack) && |p.entries| > TABLE_INDEX
    ensures WriteBoundOf(LITERAL_CODEC, v, p.entries, Options(pack, NoPad)) == Success(FILE_AT)
    ensures !Roomy(p, NoPad, FILE_AT)
  {
    LiteralCodecKeepsContract();
    v := BlankOpens(HUGE_ROW, Zeros(HUGE));
    StoredQualifies(LITERAL_CODEC, v, HUGE_ROW, Zeros(HUGE));
    HugeBound(v, CompressPlan(v.table)[3]);
    BoundOfRows(LITERAL_CODEC, v, HUGE_ROW, CompressPlan(v.table), 0xFFFF_FFF1);
    p := HugePlan(LITERAL_CODEC, v, pack);
  }

  lemma HugeBound(v: RomView, e: LayoutEntry)
    requires v.table == Rows(HUGE_ROW) && e == LayoutEntry(FILE_AT, FILE_AT + HUGE, Compress, 3)
    ensures EntryBound(LITERAL_CODEC, v, e) == Success(0xFFFF_FFF1) && Align16(0xFFFF_FFF1) == 0
  {
  }

  lemma HugePlan(c: Codec, v: RomView, pack: Pack) returns (p: Plan)
    requires Decompressed(c, v, TABLE_AT) && v.table == Rows(HUGE_ROW) && FileOf(c, v, 3) == Some(Zeros(HUGE))
    requires |c.encode(Zeros(HUGE))| > 0
    ensures p.Valid() && PlanOf(p, c, v, CompressPlan(v.table), pack) && |p.entries| > TABLE_INDEX
    ensures !Roomy(p, NoPad, FILE_AT)
  {
    PlannedReachable(c, v, TABLE_AT, CompressPlan(v.table));
    p := PlanFor(c, v, CompressPlan(v.table), pack);
    HugeJob(c, v);
    FourthShapes(p, c, v, HUGE_ROW, CompressPlan(v.table), c.encode(Zeros(HUGE)));
    ShapedRoomy(p, FILE_AT);
  }

  lemma HugeJob(c: Codec, v: RomView)
    requires Decompressed(c, v, TABLE_AT) && v.table == Rows(HUGE_ROW) && FileOf(c, v, 3) == Some(Zeros(HUGE))
    ensures var e := CompressPlan(v.table)[3];
      Live(e) && Reachable(c, v, e) && JobOf(c, v, e) == Put(c.encode(Zeros(HUGE)))
  {
    CompressJob(c, v, 3);
  }
}
