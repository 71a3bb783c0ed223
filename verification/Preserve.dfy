/**
 Rebuilding a ROM keeps its files: what is read back from a finished image, through its own table,
 is what the source ROM gave.
 */
module Preserve {
  import opened Bytes
  import opened Wrappers
  import opened Dma
  import opened Yaz0
  import opened Rom
  import opened Layout
  import opened Plan
  import opened Placement
  import opened Write
  import opened Cic
  import opened Reopen

  /* Source ROMs */

  // Every file that is not deleted can be read, and is as long as its VROM range.
  ghost predicate Readable(c: Codec, v: RomView) {
    forall i {:trigger ReadableAt(c, v, i)} ::
      0 <= i < |v.table| && KindOf(v.table[i]) != DeletedEntry ==> ReadableAt(c, v, i)
  }

  ghost predicate ReadableAt(c: Codec, v: RomView, i: nat)
    requires i < |v.table|
  {
    var e := v.table[i];
    e.vromStart <= e.vromEnd && FileOf(c, v, i).Some? && |FileOf(c, v, i).value| == e.vromEnd - e.vromStart
  }

  // The VROM ranges of files that are neither deleted nor empty do not overlap.
  ghost predicate RangesApart(t: seq<Dma>) {
    forall i, j {:trigger RangeApart(t[i], t[j])} ::
      0 <= i < j < |t| && Occupied(t[i]) && Occupied(t[j]) ==> RangeApart(t[i], t[j])
  }

  predicate Occupied(e: Dma) { KindOf(e) != DeletedEntry && e.vromStart != e.vromEnd }

  predicate RangeApart(d: Dma, e: Dma) { d.vromEnd <= e.vromStart || e.vromEnd <= d.vromStart }

  ghost predicate AllStored(t: seq<Dma>) {
    forall i :: 0 <= i < |t| ==> KindOf(t[i]) != CompressedEntry
  }

  /* Reading through written rows */

  lemma StoredRowReads(c: Codec, img: bytes, t: seq<Dma>, i: nat, d: bytes)
    requires i < |t| && t[i].romEnd == 0 && t[i].vromStart <= t[i].vromEnd
    requires |d| == t[i].vromEnd - t[i].vromStart && t[i].romStart + |d| <= |img|
    requires img[t[i].romStart..t[i].romStart + |d|] == d
    ensures FileOf(c, RomView(img, t), i) == Some(d)
  {
  }

  // A compressed file may be followed by anything up to the end of its extent.
  lemma PackedRowReads(c: Codec, img: bytes, t: seq<Dma>, i: nat, d: bytes)
    requires Contract(c) && i < |t| && t[i].vromStart <= t[i].vromEnd
    requires t[i].romEnd != 0 && t[i].romEnd != UINT32_MAX
    requires t[i].romStart + |d| <= t[i].romEnd <= |img|
    requires img[t[i].romStart..t[i].romStart + |d|] == d && c.decode(d).Some?
    ensures FileOf(c, RomView(img, t), i) == c.decode(d)
  {
    var from, to := t[i].romStart, t[i].romEnd;
    HeaderTells(c, d);
    SubSlice(img, from, to, 0, |d|);
    SubSlice(img, from, from + |d|, 0, HEADER_SIZE);
    TailDecides(c, d, img[from..to]);
  }

  /* What each plan writes for a readable source */

  lemma PlannedReachable(c: Codec, v: RomView, o: nat, entries: seq<LayoutEntry>)
    requires Signed(v, o) && Readable(c, v) && Planned(v, entries)
    ensures AllReachable(c, v, entries)
  {
    SignedHead(v, o);
    forall i | 0 <= i < |entries| && Live(entries[i])
      ensures Reachable(c, v, entries[i])
    {
      assert ReadableAt(c, v, i);
    }
  }

  // stat tells the size of the file that is read.
  lemma StatTellsSize(c: Codec, v: RomView, i: nat)
    requires Contract(c) && FileOf(c, v, i).Some?
    ensures StatOf(c, v, i).Success? && StatOf(c, v, i).value.fileSize == |FileOf(c, v, i).value|
  {
    StatFacts(c, v, i);
    var st := StatOf(c, v, i).value;
    if st.how == Packed {
      HeaderTells(c, Storage(v.image, st));
    }
  }

  // The decompress plan writes every file out as it reads.
  lemma DecompressJob(c: Codec, v: RomView, i: nat)
    requires Contract(c) && Readable(c, v) && i < |v.table| && Occupied(v.table[i])
    ensures ReadableAt(c, v, i)
    ensures var e := DecompressPlan(v.table)[i];
      Live(e) && Reachable(c, v, e) && JobOf(c, v, e) == Put(FileOf(c, v, i).value)
  {
    assert ReadableAt(c, v, i);
    StatTellsSize(c, v, i);
  }

  // The compress plan writes a stored file out as it is, if it is one of the first three, or
  // compressed, and a compressed one as it is stored.
  lemma CompressJob(c: Codec, v: RomView, i: nat)
    requires Contract(c) && Readable(c, v) && i < |v.table| && Occupied(v.table[i])
    requires i < 3 ==> KindOf(v.table[i]) == StoredEntry
    ensures ReadableAt(c, v, i) && StatOf(c, v, i).Success? && Inside(v.image, StatOf(c, v, i).value)
    ensures var e := CompressPlan(v.table)[i];
      Live(e) && Reachable(c, v, e) && JobOf(c, v, e) == Put(CompressedBytes(c, v, i))
  {
    assert ReadableAt(c, v, i);
    StatFacts(c, v, i);
  }

  // The bytes a file is stored as, and those that dense compression makes of them.
  function StoredBytes(c: Codec, v: RomView, i: nat): bytes
    requires StatOf(c, v, i).Success? && Inside(v.image, StatOf(c, v, i).value)
  {
    Storage(v.image, StatOf(c, v, i).value)
  }

  function CompressedBytes(c: Codec, v: RomView, i: nat): bytes
    requires i < |v.table| && StatOf(c, v, i).Success? && Inside(v.image, StatOf(c, v, i).value)
  {
    if i >= 3 && KindOf(v.table[i]) == StoredEntry then c.encode(StoredBytes(c, v, i)) else StoredBytes(c, v, i)
  }

  /* What is preserved */

  // Deleted files stay deleted, every other file but the first and the third reads the same,
  // the first differs at most in its check code, and the third is the new table.
  ghost predicate SameFiles(c: Codec, v: RomView, w: RomView, code: u64) {
    && |w.table| == |v.table| >= 3
    && (forall i {:trigger SameFile(c, v, w, i)} :: 0 <= i < |v.table| ==> SameFile(c, v, w, i))
    && SameHead(c, v, w, code)
  }

  ghost predicate SameHead(c: Codec, v: RomView, w: RomView, code: u64) {
    && FileOf(c, v, 0).Some? && CODE_AT + CODE_SIZE <= |FileOf(c, v, 0).value|
    && FileOf(c, w, 0) == Some(Splice(FileOf(c, v, 0).value, CODE_AT, BigEndian64(code)))
    && FileOf(c, w, 2) == Some(PrintTable(w.table))
  }

  ghost predicate SameFile(c: Codec, v: RomView, w: RomView, i: nat)
    requires i < |v.table| && i < |w.table|
  {
    && SameRange(v.table[i], w.table[i])
    && (KindOf(v.table[i]) != DeletedEntry && i != 0 && i != 2 ==> FileOf(c, w, i) == FileOf(c, v, i))
  }

  // The same file by its entry: deleted or not, and with the same VROM range unless it is empty.
  predicate SameRange(d: Dma, e: Dma) {
    && (KindOf(d) == DeletedEntry <==> KindOf(e) == DeletedEntry)
    && (KindOf(d) == DeletedEntry || d.vromStart != d.vromEnd ==> e.vromStart == d.vromStart && e.vromEnd == d.vromEnd)
  }

  /* A finished image */

  // A head that was copied, files that lie apart from each other and from the table, and room for
  // a check code: what a successful write of either plan gives.
  ghost predicate Sound(p: Plan, pad: Pad, buffer: bytes) {
    && HeadCopied(p) && Fitting(p, pad, |buffer|) && Apart(p) && TableAlone(p)
    && p.Start(0) == 0 && Span(p.entries[0]) >= IPL3_END && |buffer| >= CODE_END
  }

  ghost predicate TableAlone(p: Plan)
    requires p.Valid() && |p.entries| > TABLE_INDEX
  {
    forall i :: 0 <= i < |p.entries| && i != TABLE_INDEX && p.jobs[i].Put? ==>
      p.Start(i) + p.Length(i) <= TablePosition(p) || TablePosition(p) + ENTRY_SIZE * |p.entries| <= p.Start(i)
  }

  lemma RowOfMakerom(p: Plan)
    requires HeadCopied(p) && p.Start(0) == 0
    ensures p.jobs[0].Put? && p.Length(0) == Span(p.entries[0]) == p.entries[0].vromEnd
    ensures p.Row(0) == Dma(0, p.entries[0].vromEnd, 0, 0)
  {
  }

  // The check code is only computed for a MAKEROM that holds it.
  lemma CheckedMakerom(p: Plan, pad: Pad, buffer: bytes, code: u64)
    requires HeadCopied(p) && p.Start(0) == 0 && Roomy(p, pad, |buffer|)
    requires CheckCodeOf(Tabled(p, pad, buffer), p.Row(0)) == Success(code)
    ensures Span(p.entries[0]) >= IPL3_END && |buffer| >= CODE_END
  {
    RowOfMakerom(p);
    CheckCodeNeeds(Tabled(p, pad, buffer), p.Row(0));
    WrapFits(p.entries[0].vromEnd);
  }

  // Every other file is in the finished image, byte for byte.
  lemma OtherFileFinished(p: Plan, pad: Pad, buffer: bytes, code: u64, i: nat)
    requires Sound(p, pad, buffer)
    requires 0 < i < |p.entries| && i != TABLE_INDEX && p.jobs[i].Put? && p.Length(i) > 0
    ensures CODE_AT + CODE_SIZE <= |buffer| && p.Start(i) + p.Length(i) <= |buffer|
    ensures Finished(p, pad, buffer, code)[p.Start(i)..p.Start(i) + p.Length(i)] == p.jobs[i].data
  {
    RowOfMakerom(p);
    assert ApartAt(p, 0, i);
    FileFinished(p, pad, buffer, code, i);
  }

  // MAKEROM is there but for its check code.
  lemma MakeromFinished(p: Plan, pad: Pad, buffer: bytes, code: u64)
    requires Sound(p, pad, buffer)
    ensures p.jobs[0].Put? && CODE_AT + CODE_SIZE <= p.Length(0) <= |buffer|
    ensures Finished(p, pad, buffer, code)[..p.Length(0)] == Splice(p.jobs[0].data, CODE_AT, BigEndian64(code))
  {
    RowOfMakerom(p);
    FileWithinSize(p, 0);
    FilePlaced(p, buffer, 0, |p.entries|);
    TabledKeeps(p, pad, buffer, 0, p.Length(0));
    SpliceWithin(Tabled(p, pad, buffer), CODE_AT, BigEndian64(code), p.Length(0));
  }

  lemma SpliceWithin(b: bytes, off: nat, d: bytes, hi: nat)
    requires off + |d| <= hi <= |b|
    ensures Splice(b, off, d)[..hi] == Splice(b[..hi], off, d)
  {
  }

  // The check code of the finished image is the one stored in it, and it is still a CIC-6105 ROM.
  lemma CheckCodeIsFixed(p: Plan, pad: Pad, buffer: bytes, code: u64)
    requires p.Valid() && |p.entries| > TABLE_INDEX && Roomy(p, pad, |buffer|)
    requires CheckCodeOf(Tabled(p, pad, buffer), p.Row(0)) == Success(code)
    ensures CODE_AT + CODE_SIZE <= |buffer|
    ensures var img := Finished(p, pad, buffer, code);
      && CheckCodeOf(img, p.Row(0)) == Success(code) && IsCic6105(img, p.Row(0))
      && img[CODE_AT..CODE_AT + CODE_SIZE] == BigEndian64(code)
  {
    CheckCodeDependsOn(Tabled(p, pad, buffer), Finished(p, pad, buffer, code), p.Row(0));
  }

  /* Decompressing */

  // Sparsely, where no two VROM ranges overlap, or densely, where MAKEROM is a multiple of 16 long.
  ghost predicate Packable(t: seq<Dma>, pack: Pack) {
    if pack == Sparse then RangesApart(t) else |t| > 0 && t[0].vromEnd % 16 == 0
  }

  ghost predicate DecompressedFrom(p: Plan, c: Codec, v: RomView, o: nat) {
    && Contract(c) && Signed(v, o) && Readable(c, v) && Packable(v.table, p.pack)
    && AllReachable(c, v, DecompressPlan(v.table)) && p == PlanFor(c, v, DecompressPlan(v.table), p.pack)
  }

  lemma DecompressedJob(p: Plan, c: Codec, v: RomView, o: nat, i: nat)
    requires DecompressedFrom(p, c, v, o) && i < |v.table|
    ensures |p.entries| == |p.jobs| == |v.table|
    ensures p.jobs[i].Put? <==> Occupied(v.table[i])
    ensures Occupied(v.table[i]) ==>
      p.jobs[i] == Put(FileOf(c, v, i).value) && p.Length(i) == v.table[i].vromEnd - v.table[i].vromStart
      && (p.pack == Sparse ==> p.Start(i) == v.table[i].vromStart)
  {
    if Occupied(v.table[i]) {
      DecompressJob(c, v, i);
      assert ReadableAt(c, v, i);
    }
  }

  lemma DecompressedApart(p: Plan, c: Codec, v: RomView, o: nat)
    requires DecompressedFrom(p, c, v, o) && Unwrapped(p)
    ensures HeadCopied(p) && Apart(p) && TableAlone(p) && p.Start(0) == 0
    ensures p.Start(2) == p.entries[2].vromStart
  {
    PlannedHead(c, v, o, DecompressPlan(v.table), p.pack);
    if p.pack == Sparse {
      SparseApart(p, c, v, o);
    } else {
      SignedHead(v, o);
      DenseApart(p);
    }
  }

  lemma SparseApart(p: Plan, c: Codec, v: RomView, o: nat)
    requires DecompressedFrom(p, c, v, o) && p.pack == Sparse && HeadCopied(p)
    ensures Apart(p) && TableAlone(p)
  {
    forall i | 0 <= i < |p.entries|
      ensures p.jobs[i].Put? <==> Occupied(v.table[i])
      ensures p.jobs[i].Put? ==>
        p.Length(i) == v.table[i].vromEnd - v.table[i].vromStart && p.Start(i) == v.table[i].vromStart
    {
      DecompressedJob(p, c, v, o, i);
    }
    forall i, j | 0 <= i < j < |p.entries| && p.jobs[i].Put? && p.jobs[j].Put?
      ensures ApartAt(p, i, j)
    {
      assert RangeApart(v.table[i], v.table[j]);
    }
    forall i | 0 <= i < |p.entries| && i != TABLE_INDEX && p.jobs[i].Put?
      ensures p.Start(i) + p.Length(i) <= TablePosition(p) || TablePosition(p) + ENTRY_SIZE * |p.entries| <= p.Start(i)
    {
      if i < TABLE_INDEX {
        assert RangeApart(v.table[i], v.table[TABLE_INDEX]);
      } else {
        assert RangeApart(v.table[TABLE_INDEX], v.table[i]);
      }
    }
  }

  // With MAKEROM a multiple of 16 long, the table of a dense ROM lies on its own file.
  lemma DenseApart(p: Plan)
    requires HeadCopied(p) && Unwrapped(p) && p.pack == Dense && Span(p.entries[0]) % 16 == 0
    ensures Apart(p) && TableAlone(p) && p.Start(0) == 0 && p.Start(2) == p.entries[2].vromStart
  {
    DenseTableInPlace(p);
    DenseIsApart(p);
    DenseTableAlone(p);
  }

  // The view of a finished image through its own table.
  ghost function View(p: Plan, pad: Pad, buffer: bytes, code: u64): RomView
    requires p.Valid() && |p.entries| > TABLE_INDEX && Roomy(p, pad, |buffer|) && CODE_AT + CODE_SIZE <= |buffer|
  {
    RomView(Finished(p, pad, buffer, code), p.Table())
  }

  // The first and the third file read as they were written, when their rows place them where they are.
  lemma HeadReads(p: Plan, pad: Pad, buffer: bytes, code: u64, c: Codec)
    requires Sound(p, pad, buffer) && p.Start(2) == p.entries[2].vromStart
    ensures p.jobs[0].Put? && CODE_AT + CODE_SIZE <= p.Length(0) <= |buffer|
    ensures var w := View(p, pad, buffer, code);
      && FileOf(c, w, 0) == Some(Splice(p.jobs[0].data, CODE_AT, BigEndian64(code)))
      && FileOf(c, w, 2) == Some(PrintTable(w.table))
  {
    MakeromFinished(p, pad, buffer, code);
    RowOfMakerom(p);
    TableFinished(p, pad, buffer, code);
    var img := Finished(p, pad, buffer, code);
    StoredRowReads(c, img, p.Table(), 0, Splice(p.jobs[0].data, CODE_AT, BigEndian64(code)));
    StoredRowReads(c, img, p.Table(), 2, PrintTable(p.Table()));
  }

  lemma EmptyRowReads(c: Codec, img: bytes, t: seq<Dma>, i: nat)
    requires i < |t| && t[i] == Dma(0, 0, 0, 0)
    ensures FileOf(c, RomView(img, t), i) == Some([])
  {
  }

  // Rows of a sparse ROM with everything stored.
  function SparseRow(e: Dma): Dma {
    if KindOf(e) == DeletedEntry then Dma(e.vromStart, e.vromEnd, UINT32_MAX, UINT32_MAX)
    else if e.vromStart == e.vromEnd then Dma(0, 0, 0, 0)
    else Dma(e.vromStart, e.vromEnd, e.vromStart, 0)
  }

  lemma DecompressedRow(p: Plan, c: Codec, v: RomView, o: nat, i: nat)
    requires DecompressedFrom(p, c, v, o) && i < |v.table|
    ensures |p.entries| == |v.table|
    ensures p.Row(i) == if Occupied(v.table[i]) then SparseRow(v.table[i]).(romStart := p.Start(i)) else SparseRow(v.table[i])
    ensures p.pack == Sparse ==> p.Row(i) == SparseRow(v.table[i])
  {
  }

  lemma DecompressedRange(p: Plan, c: Codec, v: RomView, o: nat, i: nat)
    requires DecompressedFrom(p, c, v, o) && i < |v.table|
    ensures |p.entries| == |v.table| && SameRange(v.table[i], p.Row(i))
  {
    DecompressedRow(p, c, v, o, i);
  }

  lemma DecompressedFile(p: Plan, c: Codec, v: RomView, o: nat, pad: Pad, buffer: bytes, code: u64, i: nat)
    requires DecompressedFrom(p, c, v, o) && Sound(p, pad, buffer) && i < |v.table|
    requires CODE_AT + CODE_SIZE <= |buffer|
    ensures SameFile(c, v, View(p, pad, buffer, code), i)
  {
    DecompressedRange(p, c, v, o, i);
    if Occupied(v.table[i]) {
      if i != 0 && i != TABLE_INDEX {
        DecompressedFileReads(p, c, v, o, pad, buffer, code, i);
      }
    } else if KindOf(v.table[i]) != DeletedEntry {
      DecompressedEmpty(p, c, v, o, pad, buffer, code, i);
    }
  }

  lemma DecompressedEmpty(p: Plan, c: Codec, v: RomView, o: nat, pad: Pad, buffer: bytes, code: u64, i: nat)
    requires DecompressedFrom(p, c, v, o) && Sound(p, pad, buffer) && CODE_AT + CODE_SIZE <= |buffer|
    requires i < |v.table| && KindOf(v.table[i]) != DeletedEntry && !Occupied(v.table[i])
    ensures FileOf(c, View(p, pad, buffer, code), i) == FileOf(c, v, i)
  {
    DecompressedRow(p, c, v, o, i);
    EmptyFileReads(c, v, i);
    EmptyRowReads(c, Finished(p, pad, buffer, code), p.Table(), i);
  }

  lemma EmptyFileReads(c: Codec, v: RomView, i: nat)
    requires Readable(c, v) && i < |v.table|
    requires KindOf(v.table[i]) != DeletedEntry && v.table[i].vromStart == v.table[i].vromEnd
    ensures FileOf(c, v, i) == Some([])
  {
    assert ReadableAt(c, v, i);
  }

  lemma DecompressedFileReads(p: Plan, c: Codec, v: RomView, o: nat, pad: Pad, buffer: bytes, code: u64, i: nat)
    requires DecompressedFrom(p, c, v, o) && Sound(p, pad, buffer)
    requires 0 < i < |v.table| && i != TABLE_INDEX && Occupied(v.table[i])
    ensures CODE_AT + CODE_SIZE <= |buffer|
    ensures FileOf(c, View(p, pad, buffer, code), i) == FileOf(c, v, i)
  {
    DecompressedJob(p, c, v, o, i);
    DecompressedRow(p, c, v, o, i);
    assert ReadableAt(c, v, i);
    StoredFileReads(p, pad, buffer, code, c, i, FileOf(c, v, i).value);
  }

  // A file that is written as it reads, with a row that says so, reads the same again.
  lemma StoredFileReads(p: Plan, pad: Pad, buffer: bytes, code: u64, c: Codec, i: nat, x: bytes)
    requires Sound(p, pad, buffer) && 0 < i < |p.entries| && i != TABLE_INDEX
    requires p.jobs[i] == Put(x) && x != [] && p.entries[i].vromStart + |x| == p.entries[i].vromEnd
    requires p.Row(i) == Dma(p.entries[i].vromStart, p.entries[i].vromEnd, p.Start(i), 0)
    ensures CODE_AT + CODE_SIZE <= |buffer|
    ensures FileOf(c, View(p, pad, buffer, code), i) == Some(x)
  {
    OtherFileFinished(p, pad, buffer, code, i);
    StoredRowReads(c, Finished(p, pad, buffer, code), p.Table(), i, x);
  }

  // Decompressing keeps every file.
  lemma DecompressKeepsFiles(p: Plan, c: Codec, v: RomView, o: nat, pad: Pad, buffer: bytes, code: u64)
    requires DecompressedFrom(p, c, v, o) && Fitting(p, pad, |buffer|)
    requires CheckCodeOf(Tabled(p, pad, buffer), p.Row(0)) == Success(code)
    ensures CODE_AT + CODE_SIZE <= |buffer|
    ensures SameFiles(c, v, View(p, pad, buffer, code), code)
  {
    DecompressedApart(p, c, v, o);
    CheckedMakerom(p, pad, buffer, code);
    HeadReads(p, pad, buffer, code, c);
    DecompressedJob(p, c, v, o, 0);
    SignedHead(v, o);
    forall i | 0 <= i < |v.table|
      ensures SameFile(c, v, View(p, pad, buffer, code), i)
    {
      DecompressedFile(p, c, v, o, pad, buffer, code, i);
    }
  }

  /* Compressing, dense */

  ghost predicate CompressedFrom(p: Plan, c: Codec, v: RomView, o: nat) {
    && Contract(c) && Signed(v, o) && Readable(c, v)
    && AllReachable(c, v, CompressPlan(v.table)) && p == PlanFor(c, v, CompressPlan(v.table), Dense)
  }

  // What the compress plan does with a file.
  ghost predicate CompressedAs(p: Plan, c: Codec, v: RomView, i: nat) {
    && |p.entries| == |p.jobs| == |v.table| && i < |v.table|
    && p.entries[i] == LayoutEntry(v.table[i].vromStart, v.table[i].vromEnd, CompressOperation(v.table[i], i), i)
    && (i < 3 ==> KindOf(v.table[i]) == StoredEntry)
    && (if !Occupied(v.table[i]) then p.jobs[i] == Skip
        else
          && ReadableAt(c, v, i) && StatOf(c, v, i).Success? && Inside(v.image, StatOf(c, v, i).value)
          && p.jobs[i] == Put(CompressedBytes(c, v, i)))
  }

  lemma CompressedJob(p: Plan, c: Codec, v: RomView, o: nat, i: nat)
    requires CompressedFrom(p, c, v, o) && i < |v.table|
    ensures CompressedAs(p, c, v, i)
  {
    HeadIsStored(v, o);
    if Occupied(v.table[i]) {
      CompressJob(c, v, i);
    }
  }

  lemma CompressedRow(p: Plan, c: Codec, v: RomView, i: nat)
    requires p.Valid() && CompressedAs(p, c, v, i)
    ensures var e := v.table[i];
      if KindOf(e) == DeletedEntry then p.Row(i) == Dma(e.vromStart, e.vromEnd, UINT32_MAX, UINT32_MAX)
      else if !Occupied(e) then p.Row(i) == Dma(0, 0, 0, 0)
      else
        Live(p.entries[i])
        && p.Row(i) == Dma(e.vromStart, e.vromEnd, p.Start(i),
             if p.entries[i].operation == Compress then Wrap(p.Start(i) + p.Aligned(i)) else 0)
  {
  }

  lemma HeadIsStored(v: RomView, o: nat)
    requires Signed(v, o)
    ensures |v.table| >= 3 && forall i :: 0 <= i < 3 ==> KindOf(v.table[i]) == StoredEntry
  {
    SignedHead(v, o);
  }

  lemma CompressedApart(p: Plan, c: Codec, v: RomView, o: nat)
    requires CompressedFrom(p, c, v, o) && Unwrapped(p) && v.table[0].vromEnd % 16 == 0
    ensures HeadCopied(p) && Apart(p) && TableAlone(p) && p.Start(0) == 0
    ensures p.Start(2) == p.entries[2].vromStart
  {
    PlannedHead(c, v, o, CompressPlan(v.table), Dense);
    SignedHead(v, o);
    DenseApart(p);
  }

  lemma DenseTableAlone(p: Plan)
    requires HeadCopied(p) && p.Start(2) == p.entries[2].vromStart && Apart(p)
    ensures TableAlone(p)
  {
    forall i | 0 <= i < |p.entries| && i != TABLE_INDEX && p.jobs[i].Put?
      ensures p.Start(i) + p.Length(i) <= TablePosition(p) || TablePosition(p) + ENTRY_SIZE * |p.entries| <= p.Start(i)
    {
      if i < TABLE_INDEX {
        assert ApartAt(p, i, TABLE_INDEX);
      } else {
        assert ApartAt(p, TABLE_INDEX, i);
      }
    }
  }

  // A file that is written compressed, with a row that says so, reads as it was.
  lemma PackedFileReads(p: Plan, pad: Pad, buffer: bytes, code: u64, c: Codec, i: nat, x: bytes)
    requires Contract(c) && Sound(p, pad, buffer) && p.pack == Dense && 0 < i < |p.entries| && i != TABLE_INDEX
    requires |x| < TWO_32 && p.jobs[i] == Put(c.encode(x)) && Live(p.entries[i])
    requires p.entries[i].vromStart <= p.entries[i].vromEnd
    requires p.Row(i) == Dma(p.entries[i].vromStart, p.entries[i].vromEnd, p.Start(i), Wrap(p.Start(i) + p.Aligned(i)))
    ensures CODE_AT + CODE_SIZE <= |buffer|
    ensures KindOf(p.Row(i)) == CompressedEntry
    ensures FileOf(c, View(p, pad, buffer, code), i) == if p.Start(i) + p.Aligned(i) <= |buffer| then Some(x) else None
  {
    DecodeEncode(c, x);
    HeaderTells(c, c.encode(x));
    OtherFileFinished(p, pad, buffer, code, i);
    PackedRowEnds(p, i);
    if p.Start(i) + p.Aligned(i) <= |buffer| {
      PackedRowReads(c, Finished(p, pad, buffer, code), p.Table(), i, c.encode(x));
    } else {
      OutsideReadsNothing(c, Finished(p, pad, buffer, code), p.Table(), i);
    }
  }

  lemma OutsideReadsNothing(c: Codec, img: bytes, t: seq<Dma>, i: nat)
    requires i < |t| && KindOf(t[i]) == CompressedEntry && t[i].romEnd > |img|
    ensures FileOf(c, RomView(img, t), i) == None
  {
  }

  // The end of a compressed file's extent is never one of the two values that mean something else.
  lemma PackedRowEnds(p: Plan, i: nat)
    requires Unwrapped(p) && p.pack == Dense && i < |p.entries| && p.jobs[i].Put? && p.Length(i) > 0 && Live(p.entries[i])
    ensures p.Start(i) + p.Length(i) <= p.Start(i) + p.Aligned(i) == Wrap(p.Start(i) + p.Aligned(i)) <= p.Size()
    ensures 0 < Wrap(p.Start(i) + p.Aligned(i)) < UINT32_MAX
  {
    CursorIsExact(p, i);
    FileWithinSize(p, i);
    DenseTiles(p, i);
    TotalIsAligned(p, i);
    MultiplesAdd(Total(p, i), p.Aligned(i));
    WrapFits(p.Start(i) + p.Aligned(i));
  }

  // The extent of a compressed file is a multiple of 16 long, and may end behind the buffer.
  ghost predicate EndsInside(p: Plan, length: nat, i: nat)
    requires p.Valid() && i < |p.entries|
  {
    p.jobs[i].Put? && p.entries[i].operation == Compress ==> p.Start(i) + p.Aligned(i) <= length
  }

  // What becomes of each file: whether it is deleted or not, and where it is in VROM, stays the
  // same; a stored file reads the same, or, where its extent ends behind the buffer, not at all; a
  // compressed one reads as its copy.
  ghost predicate Kept(p: Plan, c: Codec, v: RomView, w: RomView, length: nat) {
    && p.Valid() && |p.entries| == |w.table| == |v.table| >= 3
    && forall i {:trigger KeptAt(p, c, v, w, length, i)} :: 0 <= i < |v.table| ==> KeptAt(p, c, v, w, length, i)
  }

  ghost predicate KeptAt(p: Plan, c: Codec, v: RomView, w: RomView, length: nat, i: nat)
    requires p.Valid() && i < |p.entries| == |w.table| == |v.table|
  {
    && SameRange(v.table[i], w.table[i])
    && (KindOf(v.table[i]) != DeletedEntry && i != 0 && i != 2 ==>
         if CopiedPacked(v.table[i]) then CopyReads(c, v, w, i, p.Start(i), length)
         else FileOf(c, w, i) == if EndsInside(p, length, i) then FileOf(c, v, i) else None)
  }

  predicate CopiedPacked(e: Dma) { KindOf(e) == CompressedEntry && Occupied(e) }

  // A compressed file that is copied is stored, as its row says. With a VROM range no longer than
  // the copied bytes it reads as the first of them; else it begins with them, if it can be read.
  ghost predicate CopyReads(c: Codec, v: RomView, w: RomView, i: nat, start: nat, length: nat)
    requires i < |w.table| == |v.table|
  {
    && FileOf(c, v, i).Some? && StatOf(c, v, i).Success? && Inside(v.image, StatOf(c, v, i).value)
    && KindOf(w.table[i]) == StoredEntry
    && var x, d := FileOf(c, v, i).value, StoredBytes(c, v, i);
      if |x| <= |d| then FileOf(c, w, i) == Some(d[..|x|])
      else
        && (FileOf(c, w, i).Some? <==> start + |x| <= length)
        && (FileOf(c, w, i).Some? ==> |FileOf(c, w, i).value| == |x| && d <= FileOf(c, w, i).value)
  }

  // So it reads the same exactly when it is the beginning of its own compressed form, or, with a
  // VROM range longer than that, only when its own compressed form is its beginning. It is
  // then what it decompresses to itself.
  lemma CopiesThatRead(c: Codec, v: RomView, w: RomView, i: nat, start: nat, length: nat)
    requires Contract(c) && i < |w.table| == |v.table| && KindOf(v.table[i]) == CompressedEntry
    requires CopyReads(c, v, w, i, start, length)
    ensures var x, d := FileOf(c, v, i).value, StoredBytes(c, v, i);
      && (|x| <= |d| ==> (FileOf(c, w, i) == FileOf(c, v, i) <==> x <= d))
      && (|x| > |d| && FileOf(c, w, i) == FileOf(c, v, i) ==> d <= x && c.decode(x) == Some(x))
  {
    var x, d := FileOf(c, v, i).value, StoredBytes(c, v, i);
    if |x| <= |d| {
      assert x <= d <==> x == d[..|x|];
    } else if FileOf(c, w, i) == FileOf(c, v, i) {
      TailDecides(c, d, x);
    }
  }

  lemma StoredRowBegins(c: Codec, img: bytes, t: seq<Dma>, i: nat, d: bytes)
    requires i < |t| && t[i].romEnd == 0 && t[i].vromStart <= t[i].vromEnd && t[i].romStart + |d| <= |img|
    requires img[t[i].romStart..t[i].romStart + |d|] == d
    ensures var n := t[i].vromEnd - t[i].vromStart;
      && (FileOf(c, RomView(img, t), i).Some? <==> t[i].romStart + n <= |img|)
      && (n <= |d| ==> FileOf(c, RomView(img, t), i) == Some(d[..n]))
      && (n > |d| && t[i].romStart + n <= |img| ==> d <= FileOf(c, RomView(img, t), i).value)
  {
    var n := t[i].vromEnd - t[i].vromStart;
    if t[i].romStart + n <= |img| {
      var x := img[t[i].romStart..t[i].romStart + n];
      assert if n <= |d| then x == d[..n] else x[..|d|] == d;
    }
  }

  // A copied compressed file
  lemma CopiedFileReads(p: Plan, c: Codec, v: RomView, pad: Pad, buffer: bytes, code: u64, i: nat)
    requires Sound(p, pad, buffer) && CompressedAs(p, c, v, i) && CopiedPacked(v.table[i])
    ensures CODE_AT + CODE_SIZE <= |buffer|
    ensures CopyReads(c, v, View(p, pad, buffer, code), i, p.Start(i), |buffer|)
  {
    CopiedRow(p, c, v, i);
    OtherFileFinished(p, pad, buffer, code, i);
    CopiedRowReads(c, v, View(p, pad, buffer, code), i, p.Start(i));
  }

  lemma CopiedRow(p: Plan, c: Codec, v: RomView, i: nat)
    requires p.Valid() && CompressedAs(p, c, v, i) && CopiedPacked(v.table[i])
    ensures p.Row(i) == Dma(v.table[i].vromStart, v.table[i].vromEnd, p.Start(i), 0)
    ensures 2 < i && p.jobs[i] == Put(StoredBytes(c, v, i)) && p.Length(i) == |StoredBytes(c, v, i)| > 0
  {
    StatFacts(c, v, i);
    CompressedRow(p, c, v, i);
  }

  lemma CopiedRowReads(c: Codec, v: RomView, w: RomView, i: nat, start: u32)
    requires i < |w.table| == |v.table| && KindOf(v.table[i]) != DeletedEntry && ReadableAt(c, v, i)
    requires StatOf(c, v, i).Success? && Inside(v.image, StatOf(c, v, i).value)
    requires w.table[i] == Dma(v.table[i].vromStart, v.table[i].vromEnd, start, 0)
    requires start + |StoredBytes(c, v, i)| <= |w.image|
    requires w.image[start..start + |StoredBytes(c, v, i)|] == StoredBytes(c, v, i)
    ensures CopyReads(c, v, w, i, start, |w.image|)
  {
    StoredRowBegins(c, w.image, w.table, i, StoredBytes(c, v, i));
  }

  // Where its VROM range is longer than what is copied, it reads as the copied bytes and what is
  // written behind them, and so the same exactly when it consists of those.
  ghost predicate CopyReadsOn(c: Codec, w: RomView, i: nat, from: nat, tabled: bytes, d: bytes, x: bytes) {
    && |tabled| == |w.image|
    && (FileOf(c, w, i).Some? <==> from + |x| <= |tabled|)
    && (from + |d| <= from + |x| <= |tabled| ==>
         (FileOf(c, w, i) == Some(x) <==> x == d + tabled[from + |d|..from + |x|]))
  }

  lemma LongCopyReads(p: Plan, c: Codec, v: RomView, pad: Pad, buffer: bytes, code: u64, i: nat, x: bytes, d: bytes)
    requires Sound(p, pad, buffer) && CompressedAs(p, c, v, i) && CopiedPacked(v.table[i])
    requires FileOf(c, v, i) == Some(x) && StoredBytes(c, v, i) == d && |x| > |d|
    ensures CODE_AT + CODE_SIZE <= |buffer|
    ensures CopyReadsOn(c, View(p, pad, buffer, code), i, p.Start(i), Tabled(p, pad, buffer), d, x)
  {
    CopiedFinished(p, c, v, pad, buffer, code, i);
    LongRowReads(c, View(p, pad, buffer, code), i, p.Start(i), Tabled(p, pad, buffer), d, x);
  }

  lemma CopiedFinished(p: Plan, c: Codec, v: RomView, pad: Pad, buffer: bytes, code: u64, i: nat)
    requires Sound(p, pad, buffer) && CompressedAs(p, c, v, i) && CopiedPacked(v.table[i])
    ensures p.Table()[i] == Dma(v.table[i].vromStart, v.table[i].vromEnd, p.Start(i), 0)
    ensures FileOf(c, v, i).Some? && v.table[i].vromStart + |FileOf(c, v, i).value| == v.table[i].vromEnd
    ensures CODE_AT + CODE_SIZE <= |buffer| && p.Start(i) + |StoredBytes(c, v, i)| <= |buffer|
    ensures Finished(p, pad, buffer, code)[p.Start(i)..p.Start(i) + |StoredBytes(c, v, i)|] == StoredBytes(c, v, i)
    ensures SameFrom(Finished(p, pad, buffer, code), Tabled(p, pad, buffer), p.Start(i))
  {
    CopiedRow(p, c, v, i);
    OtherFileFinished(p, pad, buffer, code, i);
    BehindMakerom(p, pad, buffer, code, i);
  }

  lemma BehindMakerom(p: Plan, pad: Pad, buffer: bytes, code: u64, i: nat)
    requires Sound(p, pad, buffer) && 0 < i < |p.entries| && p.jobs[i].Put? && p.Length(i) > 0
    ensures CODE_AT + CODE_SIZE <= |buffer|
    ensures SameFrom(Finished(p, pad, buffer, code), Tabled(p, pad, buffer), p.Start(i))
  {
    RowOfMakerom(p);
    assert ApartAt(p, 0, i);
  }

  ghost predicate SameFrom(a: bytes, b: bytes, from: nat) {
    |a| == |b| && forall k :: from <= k < |a| ==> a[k] == b[k]
  }

  lemma LongRowReads(c: Codec, w: RomView, i: nat, from: nat, tabled: bytes, d: bytes, x: bytes)
    requires i < |w.table| && w.table[i].romEnd == 0 && w.table[i].vromStart + |x| == w.table[i].vromEnd
    requires w.table[i].romStart == from && from + |d| <= |w.image| && |d| < |x|
    requires w.image[from..from + |d|] == d && SameFrom(w.image, tabled, from)
    ensures CopyReadsOn(c, w, i, from, tabled, d, x)
  {
    var mid, to := from + |d|, from + |x|;
    if to <= |tabled| {
      assert w.image[from..to] == w.image[from..mid] + w.image[mid..to];
      assert w.image[mid..to] == tabled[mid..to];
    }
  }

  // A stored file
  lemma CompressedFileReads(p: Plan, c: Codec, v: RomView, pad: Pad, buffer: bytes, code: u64, i: nat)
    requires Contract(c) && p.pack == Dense && Sound(p, pad, buffer) && CompressedAs(p, c, v, i)
    requires 0 < i != TABLE_INDEX && Occupied(v.table[i]) && KindOf(v.table[i]) == StoredEntry
    ensures CODE_AT + CODE_SIZE <= |buffer|
    ensures FileOf(c, View(p, pad, buffer, code), i) == if EndsInside(p, |buffer|, i) then FileOf(c, v, i) else None
  {
    CompressedRow(p, c, v, i);
    if i > 2 {
      PackedFileReads(p, pad, buffer, code, c, i, FileOf(c, v, i).value);
    } else {
      StoredFileReads(p, pad, buffer, code, c, i, FileOf(c, v, i).value);
    }
  }

  lemma CompressedRange(p: Plan, c: Codec, v: RomView, i: nat)
    requires Contract(c) && Unwrapped(p) && p.pack == Dense && CompressedAs(p, c, v, i)
    ensures SameRange(v.table[i], p.Row(i))
  {
    CompressedRow(p, c, v, i);
    if p.entries[i].operation == Compress && Occupied(v.table[i]) {
      DecodeEncode(c, FileOf(c, v, i).value);
      HeaderTells(c, c.encode(FileOf(c, v, i).value));
      PackedRowEnds(p, i);
    }
  }

  lemma CompressedFile(p: Plan, c: Codec, v: RomView, pad: Pad, buffer: bytes, code: u64, i: nat)
    requires Contract(c) && p.pack == Dense && Readable(c, v) && Sound(p, pad, buffer) && CompressedAs(p, c, v, i)
    requires CODE_AT + CODE_SIZE <= |buffer|
    ensures KeptAt(p, c, v, View(p, pad, buffer, code), |buffer|, i)
  {
    CompressedRange(p, c, v, i);
    if CopiedPacked(v.table[i]) {
      CopiedFileReads(p, c, v, pad, buffer, code, i);
    } else if Occupied(v.table[i]) {
      if i != 0 && i != TABLE_INDEX {
        CompressedFileReads(p, c, v, pad, buffer, code, i);
      }
    } else if KindOf(v.table[i]) != DeletedEntry {
      CompressedEmpty(p, c, v, pad, buffer, code, i);
    }
  }

  lemma CompressedEmpty(p: Plan, c: Codec, v: RomView, pad: Pad, buffer: bytes, code: u64, i: nat)
    requires Sound(p, pad, buffer) && CODE_AT + CODE_SIZE <= |buffer| && Readable(c, v) && CompressedAs(p, c, v, i)
    requires KindOf(v.table[i]) != DeletedEntry && !Occupied(v.table[i])
    ensures FileOf(c, View(p, pad, buffer, code), i) == FileOf(c, v, i)
  {
    CompressedRow(p, c, v, i);
    EmptyFileReads(c, v, i);
    EmptyRowReads(c, Finished(p, pad, buffer, code), p.Table(), i);
  }

  lemma CompressedIsSound(p: Plan, c: Codec, v: RomView, o: nat, pad: Pad, buffer: bytes, code: u64)
    requires CompressedFrom(p, c, v, o) && Fitting(p, pad, |buffer|) && v.table[0].vromEnd % 16 == 0
    requires CheckCodeOf(Tabled(p, pad, buffer), p.Row(0)) == Success(code)
    ensures Sound(p, pad, buffer) && p.Start(2) == p.entries[2].vromStart
    ensures |p.entries| == |v.table| >= 3 && Occupied(v.table[0])
  {
    CompressedApart(p, c, v, o);
    CheckedMakerom(p, pad, buffer, code);
    SignedHead(v, o);
  }

  // What dense compression makes of every file, whatever the padding.
  lemma CompressKeepsFiles(p: Plan, c: Codec, v: RomView, o: nat, pad: Pad, buffer: bytes, code: u64)
    requires CompressedFrom(p, c, v, o) && Fitting(p, pad, |buffer|) && v.table[0].vromEnd % 16 == 0
    requires CheckCodeOf(Tabled(p, pad, buffer), p.Row(0)) == Success(code)
    ensures CODE_AT + CODE_SIZE <= |buffer|
    ensures Kept(p, c, v, View(p, pad, buffer, code), |buffer|)
    ensures SameHead(c, v, View(p, pad, buffer, code), code)
  {
    CompressedIsSound(p, c, v, o, pad, buffer, code);
    HeadReads(p, pad, buffer, code, c);
    CompressedJob(p, c, v, o, 0);
    forall i | 0 <= i < |v.table|
      ensures KeptAt(p, c, v, View(p, pad, buffer, code), |buffer|, i)
    {
      CompressedJob(p, c, v, o, i);
      CompressedFile(p, c, v, pad, buffer, code, i);
    }
  }

  // With every file stored, all of them are kept exactly when no extent ends behind the buffer.
  lemma StoredFilesKept(p: Plan, c: Codec, v: RomView, o: nat, w: RomView, length: nat, code: u64)
    requires CompressedFrom(p, c, v, o) && AllStored(v.table) && Kept(p, c, v, w, length) && SameHead(c, v, w, code)
    ensures SameFiles(c, v, w, code) <==> forall i :: 0 <= i < |p.entries| ==> EndsInside(p, length, i)
  {
    forall i | 0 <= i < |v.table|
      ensures SameFile(c, v, w, i) <==> EndsInside(p, length, i)
    {
      CompressedJob(p, c, v, o, i);
      StoredFileKept(p, c, v, w, length, i);
    }
  }

  lemma StoredFileKept(p: Plan, c: Codec, v: RomView, w: RomView, length: nat, i: nat)
    requires p.Valid() && Readable(c, v) && CompressedAs(p, c, v, i) && |w.table| == |v.table|
    requires KindOf(v.table[i]) != CompressedEntry && KeptAt(p, c, v, w, length, i)
    ensures SameFile(c, v, w, i) <==> EndsInside(p, length, i)
  {
    if KindOf(v.table[i]) != DeletedEntry {
      assert ReadableAt(c, v, i);
    }
  }

  // No extent does when the buffer's length is a multiple of 16,
  lemma EvenBufferHoldsAll(p: Plan, length: nat)
    requires Unwrapped(p) && p.pack == Dense && p.Fits(length, |p.entries|) && length % 16 == 0
    ensures forall i :: 0 <= i < |p.entries| ==> EndsInside(p, length, i)
  {
    forall i | 0 <= i < |p.entries|
      ensures EndsInside(p, length, i)
    {
      if p.jobs[i].Put? {
        assert p.FitsAt(length, i);
        CursorIsExact(p, i);
        DenseTiles(p, i);
        TotalIsAligned(p, i);
        RoundsWithin(p.Start(i), p.Length(i), p.Aligned(i), length);
      }
    }
  }

  lemma RoundsWithin(start: nat, size: nat, aligned: nat, length: nat)
    requires start % 16 == 0 && aligned % 16 == 0 && length % 16 == 0
    requires size <= aligned < size + 16 && start + size <= length
    ensures start + aligned <= length
  {
    var a, b, c := start / 16, aligned / 16, length / 16;
    assert start == 16 * a && aligned == 16 * b && length == 16 * c;
  }

  // or when the size that is reported for the ROM is no more than the buffer's.
  lemma SizeInside(p: Plan, length: nat)
    requires Unwrapped(p) && p.Size() <= length
    ensures forall i :: 0 <= i < |p.entries| ==> EndsInside(p, length, i)
  {
    forall i | 0 <= i < |p.entries|
      ensures EndsInside(p, length, i)
    {
      if p.jobs[i].Put? {
        FileWithinSize(p, i);
      }
    }
  }
}
