/**
 What a caller of the library gets: the theorems about finished images, said of whatever write_rom
 (Write.WriteRom, Write.WriteBuffer) leaves in the output.
 */
module Rebuild {
  import opened Bytes
  import opened Wrappers
  import opened Io
  import opened Dma
  import opened Yaz0
  import opened Rom
  import opened Layout
  import opened Plan
  import opened Placement
  import opened Write
  import opened Cic
  import opened Open
  import opened Reopen
  import opened Preserve
  import opened Decoy
  import opened RoundTrip
  import opened Bound

  /* Any layout */

  // A write into less than 4 GiB that succeeds, with what it leaves and returns.
  ghost predicate Written(p: Plan, pad: Pad, before: bytes, after: bytes, romSize: nat) {
    && p.Valid() && |p.entries| > TABLE_INDEX && |before| <= SAFE_LENGTH
    && RomWritten(p, pad, before, after, Ok, romSize)
  }

  // The value stored at 0x10 is the check code of the image it is stored in, and the image has the
  // known boot code.
  lemma StoredCodeIsRight(p: Plan, pad: Pad, before: bytes, after: bytes, romSize: nat)
    requires Written(p, pad, before, after, romSize)
    ensures Fitting(p, pad, |before|) && CODE_AT + CODE_SIZE <= |before| == |after|
    ensures IsCic6105(after, p.Row(0)) && CheckCodeOf(after, p.Row(0)).Success?
    ensures CheckCodeOf(Tabled(p, pad, before), p.Row(0)) == CheckCodeOf(after, p.Row(0))
    ensures after == Finished(p, pad, before, CheckCodeOf(after, p.Row(0)).value)
    ensures after[CODE_AT..CODE_AT + CODE_SIZE] == BigEndian64(CheckCodeOf(after, p.Row(0)).value)
    ensures StoresClosed(after)
  {
    ShortIsUnwrapped(p, |before|);
    CheckCodeIsFixed(p, pad, before, CheckCodeOf(Tabled(p, pad, before), p.Row(0)).value);
    CodeReads(after, p.Row(0));
  }

  // The two words at 0x10, high word first, are those of the code in closed form.
  ghost predicate StoresClosed(img: bytes) { |img| >= 0x18 && IsCheckCode(img, ReadU64(img[0x10..0x18])) }

  lemma CodeReads(img: bytes, makerom: Dma)
    requires CheckCodeOf(img, makerom).Success? && |img| >= 0x18
    requires img[CODE_AT..CODE_AT + CODE_SIZE] == BigEndian64(CheckCodeOf(img, makerom).value)
    ensures StoresClosed(img)
  {
    ReadTwoWords(img[0x10..0x18], CheckCodeOf(img, makerom).value);
    CheckCodeIsClosed(img, makerom);
  }

  // A ROM whose head was copied has its table at entry 2's VROM start exactly when BOOTCODE is not
  // empty and, in a dense ROM, MAKEROM is a multiple of 16 long. Then it opens with the entries that
  // were written, exactly when there is no signature before; that can be seen of what is copied.
  lemma WrittenOpens(p: Plan, pad: Pad, before: bytes, after: bytes, romSize: nat)
    requires Written(p, pad, before, after, romSize) && HeadCopied(p)
    ensures SignatureAt(after, p.entries[2].vromStart) <==> HeadSurvives(p)
    ensures HeadSurvives(p) ==> TableAt(after, p.entries[2].vromStart) == p.Table()
    ensures HeadSurvives(p) ==> (Opens(after, p.entries[2].vromStart) <==> NoSignatureBelow(after, p.entries[2].vromStart))
    ensures HeadSurvives(p) && Apart(p) && TableAlone(p) ==>
      p.jobs[0].Put? && p.jobs[1].Put?
      && OpensAsSeen(p.jobs[0].data + p.jobs[1].data, after, p.entries[2].vromStart)
  {
    StoredCodeIsRight(p, pad, before, after, romSize);
    var code, o := CheckCodeOf(after, p.Row(0)).value, p.entries[2].vromStart;
    CheckedMakerom(p, pad, before, code);
    TableIsFoundAgain(p, pad, before, code);
    if HeadSurvives(p) {
      FirstRow(after, o, p);
      if Apart(p) && TableAlone(p) {
        HeadFinished(p, pad, before, code);
        SeenBefore(p.jobs[0].data + p.jobs[1].data, after, o);
      }
    }
  }

  lemma FirstRow(img: bytes, o: nat, p: Plan)
    requires SignatureAt(img, o) && p.Valid() && TableAt(img, o) == p.Table() && |p.entries| > 0
    ensures EntryAt(img, o) == p.Row(0)
  {
    FoundTableFits(img, o);
    FoundEntry(img, o, 0);
  }

  /* When writing succeeds */

  // The boot code of a source that has the known one is in the image the check code is made of.
  lemma BootcodeIsCopied(p: Plan, c: Codec, v: RomView, pad: Pad, before: bytes)
    requires HeadCopied(p) && Fitting(p, pad, |before|) && Apart(p) && TableAlone(p)
    requires p.entries[0].vromEnd <= |v.image| && p.jobs[0] == Put(v.image[..p.entries[0].vromEnd])
    requires IsCic6105(v.image, p.Row(0))
    ensures IsCic6105(Tabled(p, pad, before), p.Row(0))
  {
    MakeromTabled(p, pad, before);
    KnownIsLong(v.image, p.Row(0), p.Length(0));
    SameBootcode(Tabled(p, pad, before), v.image, p.Row(0), p.Length(0));
  }

  lemma KnownIsLong(img: bytes, makerom: Dma, n: u32)
    requires IsCic6105(img, makerom) && makerom == Dma(0, n, 0, 0)
    ensures n >= IPL3_END
  {
    WrapFits(n);
  }

  lemma MakeromTabled(p: Plan, pad: Pad, before: bytes)
    requires HeadCopied(p) && Fitting(p, pad, |before|) && Apart(p) && TableAlone(p) && p.jobs[0].Put?
    ensures p.Length(0) <= |before| && Tabled(p, pad, before)[..p.Length(0)] == p.jobs[0].data
    ensures p.Row(0) == Dma(0, p.entries[0].vromEnd, 0, 0) && p.Length(0) == p.entries[0].vromEnd
  {
    RowOfMakerom(p);
    FileWithinSize(p, 0);
    FilePlaced(p, before, 0, |p.entries|);
    TabledKeeps(p, pad, before, 0, p.Length(0));
  }

  lemma SameBootcode(img: bytes, source: bytes, makerom: Dma, n: nat)
    requires IPL3_END <= n <= |img| && n <= |source| && img[..n] == source[..n]
    requires IsCic6105(source, makerom)
    ensures IsCic6105(img, makerom)
  {
    assert img[IPL3_START..IPL3_END] == img[..n][IPL3_START..IPL3_END];
    assert source[IPL3_START..IPL3_END] == source[..n][IPL3_START..IPL3_END];
  }

  // The plans of the two planners for ROMs that can be read.
  ghost predicate Rebuilding(p: Plan, c: Codec, v: RomView, o: nat) {
    DecompressedFrom(p, c, v, o) || (CompressedFrom(p, c, v, o) && v.table[0].vromEnd % 16 == 0)
  }

  lemma RebuildingIsOrderly(p: Plan, c: Codec, v: RomView, o: nat)
    requires Rebuilding(p, c, v, o) && Unwrapped(p)
    ensures HeadCopied(p) && NoneBad(p) && Apart(p) && TableAlone(p) && p.Start(0) == 0
    ensures |v.table| >= 3 && p.Row(0) == v.table[0]
    ensures p.entries[0].vromEnd <= |v.image| && p.jobs[0] == Put(v.image[..p.entries[0].vromEnd])
  {
    SignedHead(v, o);
    NothingIsBad(p, c, v, o);
    if DecompressedFrom(p, c, v, o) {
      DecompressedApart(p, c, v, o);
      DecompressedJob(p, c, v, o, 0);
    } else {
      CompressedApart(p, c, v, o);
      CompressedJob(p, c, v, o, 0);
    }
    RowOfMakerom(p);
    MakeromIsFirst(c, v, o);
  }

  // BOOTCODE is copied from behind MAKEROM, up to the table.
  lemma BootcodeIsNext(p: Plan, c: Codec, v: RomView, o: nat)
    requires Rebuilding(p, c, v, o) && |v.table| >= 3 && Occupied(v.table[1])
    ensures |p.entries| == |p.jobs| == |v.table| && v.table[0].vromEnd <= o <= |v.image|
    ensures p.entries[2].vromStart == o && p.jobs[1] == Put(v.image[v.table[0].vromEnd..o])
    ensures p.entries[0].vromEnd == v.table[0].vromEnd && p.entries[1].vromStart < p.entries[1].vromEnd
  {
    BootcodeIsSecond(c, v, o);
    SignedHead(v, o);
    if DecompressedFrom(p, c, v, o) {
      DecompressedJob(p, c, v, o, 1);
    } else {
      CompressedJob(p, c, v, o, 1);
    }
  }

  lemma BootcodeIsSecond(c: Codec, v: RomView, o: nat)
    requires Signed(v, o) && Readable(c, v) && |v.table| > 1 && Occupied(v.table[1])
    ensures v.table[0].vromEnd <= o <= |v.image| && v.table[1].vromEnd == o
    ensures StatOf(c, v, 1).Success? && Inside(v.image, StatOf(c, v, 1).value)
    ensures FileOf(c, v, 1) == Some(v.image[v.table[0].vromEnd..o])
    ensures StoredBytes(c, v, 1) == v.image[v.table[0].vromEnd..o]
  {
    SignedHead(v, o);
    assert ReadableAt(c, v, 1);
  }

  // A rebuilt ROM with a BOOTCODE has its table where the source has it, and opens with it exactly
  // when the source has no decoy before it in a ROM of the new length, and the check code makes none.
  lemma RebuiltOpens(p: Plan, c: Codec, v: RomView, o: nat, pad: Pad, before: bytes, after: bytes, romSize: nat)
    requires Rebuilding(p, c, v, o) && Written(p, pad, before, after, romSize)
    requires |v.table| > 1 && v.table[1].vromStart != v.table[1].vromEnd
    ensures SignatureAt(after, o) && TableAt(after, o) == p.Table()
    ensures OpensAsSeen(v.image, after, o) && IPL3_END <= o
  {
    StoredCodeIsRight(p, pad, before, after, romSize);
    HeadHolds(p, c, v, o);
    WrittenOpens(p, pad, before, after, romSize);
    CheckedMakerom(p, pad, before, CheckCodeOf(after, p.Row(0)).value);
    SameHeadSeen(v.image, v.table[0].vromEnd, o, after);
  }

  lemma HeadHolds(p: Plan, c: Codec, v: RomView, o: nat)
    requires Rebuilding(p, c, v, o) && Unwrapped(p) && |v.table| > 1 && v.table[1].vromStart != v.table[1].vromEnd
    ensures HeadCopied(p) && HeadSurvives(p) && Apart(p) && TableAlone(p) && p.Start(0) == 0
    ensures |v.table| >= 3 && v.table[0].vromEnd <= o <= |v.image| && Span(p.entries[0]) <= o && p.entries[2].vromStart == o
    ensures p.jobs[0] == Put(v.image[..v.table[0].vromEnd]) && p.jobs[1] == Put(v.image[v.table[0].vromEnd..o])
  {
    HeadIsStored(v, o);
    RebuildingIsOrderly(p, c, v, o);
    BootcodeIsNext(p, c, v, o);
  }

  lemma SameHeadSeen(img: bytes, n: nat, o: nat, after: bytes)
    requires n <= o <= |img| && 0x28 <= o
    requires OpensAsSeen(img[..n] + img[n..o], after, o)
    ensures OpensAsSeen(img, after, o)
  {
    assert img[..n] + img[n..o] == img[..o];
    SeenTwice(img, img[..o], after, o);
  }

  lemma MakeromIsFirst(c: Codec, v: RomView, o: nat)
    requires Signed(v, o) && |v.table| > 0 && FileOf(c, v, 0).Some?
    ensures v.table[0] == Dma(0, v.table[0].vromEnd, 0, 0) && v.table[0].vromEnd <= |v.image|
    ensures StatOf(c, v, 0).Success? && Inside(v.image, StatOf(c, v, 0).value)
    ensures FileOf(c, v, 0) == Some(v.image[..v.table[0].vromEnd])
    ensures StoredBytes(c, v, 0) == v.image[..v.table[0].vromEnd]
  {
    SignedHead(v, o);
  }

  // What writing a ROM that can be read reports.
  ghost function Report(p: Plan, pad: Pad, length: nat): Code
    requires p.Valid() && |p.entries| > TABLE_INDEX
  {
    if !Roomy(p, pad, length) then OutOfRange else if length < 0x10_1000 then Truncated else Ok
  }

  // Decompressing or compressing an open ROM that can be read succeeds exactly when everything
  // fits and the buffer holds the range the check code is made of; else it says which does not.
  lemma SucceedsExactly(p: Plan, c: Codec, v: RomView, o: nat, pad: Pad, before: bytes, after: bytes, result: Code, romSize: nat)
    requires Rebuilding(p, c, v, o) && |v.table| > 0 && IsCic6105(v.image, v.table[0]) && |before| <= SAFE_LENGTH
    requires |p.entries| > TABLE_INDEX && RomWritten(p, pad, before, after, result, romSize)
    ensures result == Report(p, pad, |before|)
  {
    NothingIsBad(p, c, v, o);
    if Roomy(p, pad, |before|) {
      BootcodeIsThere(p, c, v, o, pad, before);
      CheckCodeErrors(Tabled(p, pad, before), p.Row(0));
    } else if !p.Fits(|before|, |p.entries|) {
      FilesReport(p, pad, before, result);
    }
  }

  lemma BootcodeIsThere(p: Plan, c: Codec, v: RomView, o: nat, pad: Pad, before: bytes)
    requires Rebuilding(p, c, v, o) && |v.table| > 0 && IsCic6105(v.image, v.table[0]) && |before| <= SAFE_LENGTH
    requires |p.entries| > TABLE_INDEX && Roomy(p, pad, |before|)
    ensures IsCic6105(Tabled(p, pad, before), p.Row(0))
  {
    ShortIsUnwrapped(p, |before|);
    RebuildingIsOrderly(p, c, v, o);
    BootcodeIsCopied(p, c, v, pad, before);
  }

  lemma FilesReport(p: Plan, pad: Pad, before: bytes, result: Code)
    requires p.Valid() && |p.entries| > TABLE_INDEX && NoneBad(p) && !p.Fits(|before|, |p.entries|)
    requires FailsWith(p, pad, before, result)
    ensures result == OutOfRange
  {
    var i :| 0 <= i < |p.entries| && StopsAt(p, |before|, i, result);
    assert !BadAt(p, i);
  }

  lemma NothingIsBad(p: Plan, c: Codec, v: RomView, o: nat)
    requires Rebuilding(p, c, v, o)
    ensures NoneBad(p)
  {
    forall i | 0 <= i < |p.jobs|
      ensures !BadAt(p, i)
    {
      if DecompressedFrom(p, c, v, o) {
        DecompressedJob(p, c, v, o, i);
      } else {
        CompressedJob(p, c, v, o, i);
      }
    }
  }

  /* Decompressing */

  // What is decompressed sparsely reads the same through the table that was written.
  lemma DecompressedRom(p: Plan, c: Codec, v: RomView, o: nat, pad: Pad, before: bytes, after: bytes, romSize: nat)
    requires DecompressedFrom(p, c, v, o) && Written(p, pad, before, after, romSize)
    ensures CheckCodeOf(after, p.Row(0)).Success?
    ensures SameFiles(c, v, RomView(after, p.Table()), CheckCodeOf(after, p.Row(0)).value)
  {
    StoredCodeIsRight(p, pad, before, after, romSize);
    DecompressKeepsFiles(p, c, v, o, pad, before, CheckCodeOf(after, p.Row(0)).value);
  }

  /* Compressing */

  // A buffer that no compressed extent can end behind: its length is a multiple of 16, or no less
  // than a bound that has been promised.
  ghost predicate Ample(p: Plan, c: Codec, v: RomView, pad: Pad, length: nat)
    requires p.Valid()
  {
    || length % 16 == 0
    || (Bounded(p, c, v)
        && match WriteBoundOf(c, v, p.entries, Options(Dense, pad))
           case Success(bound) => 0 < bound <= length
           case Failure(_) => false)
  }

  lemma AmpleHoldsAll(p: Plan, c: Codec, v: RomView, o: nat, pad: Pad, length: nat)
    requires CompressedFrom(p, c, v, o) && Fitting(p, pad, length) && Ample(p, c, v, pad, length)
    ensures forall i :: 0 <= i < |p.entries| ==> EndsInside(p, length, i)
  {
    if length % 16 == 0 {
      EvenBufferHoldsAll(p, length);
    } else {
      PlanIsUnique(p, c, v, p.entries, Dense);
      PlannedHead(c, v, o, p.entries, Dense);
      DenseBoundIsSound(p, c, v, pad, WriteBoundOf(c, v, p.entries, Options(Dense, pad)).value);
      SizeInside(p, length);
    }
  }

  // What is compressed densely keeps every file as Kept says: stored files read the same exactly
  // where their extents do not end behind the buffer, which none does in an ample one.
  lemma CompressedRom(p: Plan, c: Codec, v: RomView, o: nat, pad: Pad, before: bytes, after: bytes, romSize: nat)
    requires CompressedFrom(p, c, v, o) && v.table[0].vromEnd % 16 == 0
    requires Written(p, pad, before, after, romSize)
    ensures CheckCodeOf(after, p.Row(0)).Success?
    ensures var w, code := RomView(after, p.Table()), CheckCodeOf(after, p.Row(0)).value;
      && Kept(p, c, v, w, |before|) && SameHead(c, v, w, code)
      && (Ample(p, c, v, pad, |before|) ==> forall i :: 0 <= i < |p.entries| ==> EndsInside(p, |before|, i))
      && (Ample(p, c, v, pad, |before|) && AllStored(v.table) ==> SameFiles(c, v, w, code))
  {
    StoredCodeIsRight(p, pad, before, after, romSize);
    var w, code := RomView(after, p.Table()), CheckCodeOf(after, p.Row(0)).value;
    CompressKeepsFiles(p, c, v, o, pad, before, code);
    if Ample(p, c, v, pad, |before|) {
      AmpleHoldsAll(p, c, v, o, pad, |before|);
      if AllStored(v.table) {
        StoredFilesKept(p, c, v, o, w, |before|, code);
      }
    }
  }

  /* The round trip */

  // The same table, entry for entry, and the same files but for the check code in the first.
  ghost predicate SameRom(c: Codec, v: RomView, w: RomView) {
    && w.table == v.table && |v.table| >= 3
    && (forall i :: 0 < i < |v.table| && KindOf(v.table[i]) != DeletedEntry ==> FileOf(c, w, i) == FileOf(c, v, i))
    && CheckCodeOf(w.image, w.table[0]).Success?
    && FileOf(c, v, 0).Some? && CODE_AT + CODE_SIZE <= |FileOf(c, v, 0).value|
    && FileOf(c, w, 0) == Some(Splice(FileOf(c, v, 0).value, CODE_AT, BigEndian64(CheckCodeOf(w.image, w.table[0]).value)))
  }

  // A decompressed ROM that is compressed densely, into an ample buffer, has its table where it was,
  // opens as can be seen of the source, and has a plan for being decompressed.
  lemma ThereAndOpen(c: Codec, v: RomView, o: nat, p: Plan, pad: Pad, before: bytes, between: bytes, size: nat)
    requires Decompressed(c, v, o) && v.table[0].vromEnd % 16 == 0
    requires CompressedFrom(p, c, v, o) && Written(p, pad, before, between, size) && Ample(p, c, v, pad, |before|)
    ensures SignatureAt(between, o) && TableAt(between, o) == p.Table()
    ensures OpensAsSeen(v.image, between, o) && IPL3_END <= o
    ensures var w := RomView(between, TableAt(between, o));
      AllReachable(c, w, DecompressPlan(w.table))
      && DecompressedFrom(PlanFor(c, w, DecompressPlan(w.table), Sparse), c, w, o)
  {
    SparseIsStored(v, o);
    RebuiltOpens(p, c, v, o, pad, before, between, size);
    StoredCodeIsRight(p, pad, before, between, size);
    AmpleHoldsAll(p, c, v, o, pad, |before|);
    var code, w := CheckCodeOf(between, p.Row(0)).value, RomView(between, TableAt(between, o));
    CompressedIsReadable(p, c, v, o, pad, before, code);
    PlannedReachable(c, w, o, DecompressPlan(w.table));
  }

  lemma StillHasBootcode(p: Plan, c: Codec, v: RomView, o: nat)
    requires Decompressed(c, v, o) && CompressedFrom(p, c, v, o)
    ensures |p.Table()| > 1 && p.Table()[1].vromStart != p.Table()[1].vromEnd
  {
    SparseIsStored(v, o);
    HeadIsStored(v, o);
    CompressedRows(p, c, v, o, 1);
  }

  // Decompressed again it is the same ROM, its table is found where it was, and it opens as can be
  // seen of the first source.
  lemma ThereAndBack(c: Codec, v: RomView, o: nat,
        p: Plan, pad: Pad, before: bytes, between: bytes, size: nat,
        q: Plan, pad': Pad, before': bytes, after: bytes, size': nat)
    requires Decompressed(c, v, o) && v.table[0].vromEnd % 16 == 0
    requires CompressedFrom(p, c, v, o) && Written(p, pad, before, between, size) && Ample(p, c, v, pad, |before|)
    requires SignatureAt(between, o) && DecompressedFrom(q, c, RomView(between, TableAt(between, o)), o)
    requires q.pack == Sparse && Written(q, pad', before', after, size')
    ensures SignatureAt(after, o) && TableAt(after, o) == v.table
    ensures SameRom(c, v, RomView(after, TableAt(after, o)))
    ensures OpensAsSeen(v.image, after, o)
  {
    ThereAndOpen(c, v, o, p, pad, before, between, size);
    StoredCodeIsRight(p, pad, before, between, size);
    StoredCodeIsRight(q, pad', before', after, size');
    AmpleHoldsAll(p, c, v, o, pad, |before|);
    var w := RomView(between, TableAt(between, o));
    CompressThenDecompress(c, v, o, p, pad, before, CheckCodeOf(between, p.Row(0)).value,
      q, pad', before', CheckCodeOf(after, q.Row(0)).value);
    StillHasBootcode(p, c, v, o);
    RebuiltOpens(q, c, w, o, pad', before', after, size');
    SeenTwice(v.image, between, after, o);
  }
}
