/**
 Compressing a decompressed ROM and decompressing it again gives it back.
 */
module RoundTrip {
  import opened Bytes
  import opened Wrappers
  import opened Dma
  import opened Yaz0
  import opened Rom
  import opened Layout
  import opened Plan
  import opened Placement
  import opened Write
  import opened Cic
  import opened Reopen
  import opened Preserve

  // A table as sparse writing leaves it, with every file stored.
  ghost predicate SparseTable(t: seq<Dma>) {
    forall i :: 0 <= i < |t| ==> t[i] == SparseRow(t[i])
  }

  // A decompressed ROM: open, every file readable, ranges apart.
  ghost predicate Decompressed(c: Codec, v: RomView, o: nat) {
    Contract(c) && Signed(v, o) && Readable(c, v) && RangesApart(v.table) && SparseTable(v.table)
  }

  lemma SparseIsStored(v: RomView, o: nat)
    requires Signed(v, o) && SparseTable(v.table)
    ensures AllStored(v.table) && v.table[1].vromStart != v.table[1].vromEnd
  {
    SignedHead(v, o);
    assert v.table[1] == SparseRow(v.table[1]);
  }

  /* The compressed ROM is a ROM that can be decompressed */

  // One file of a ROM with the same files is again as long as its range.
  lemma StillReadable(c: Codec, v: RomView, w: RomView, code: u64, i: nat)
    requires Readable(c, v) && SameFiles(c, v, w, code) && i < |v.table|
    requires KindOf(w.table[i]) != DeletedEntry
    requires v.table[i].vromStart == v.table[i].vromEnd ==> w.table[i].vromStart == w.table[i].vromEnd
    requires i == 0 || i == 2 ==> Occupied(v.table[i])
    requires v.table[2].vromEnd - v.table[2].vromStart == ENTRY_SIZE * |v.table|
    ensures ReadableAt(c, w, i)
  {
    assert SameFile(c, v, w, i);
    assert ReadableAt(c, v, i);
  }

  lemma StillApart(c: Codec, v: RomView, w: RomView, code: u64)
    requires RangesApart(v.table) && SameFiles(c, v, w, code)
    requires forall i :: 0 <= i < |v.table| && Occupied(w.table[i]) ==> Occupied(v.table[i])
    ensures RangesApart(w.table)
  {
    forall i, j | 0 <= i < j < |w.table| && Occupied(w.table[i]) && Occupied(w.table[j])
      ensures RangeApart(w.table[i], w.table[j])
    {
      assert SameFile(c, v, w, i) && SameFile(c, v, w, j);
      assert RangeApart(v.table[i], v.table[j]);
    }
  }

  // What a successful compression of a decompressed ROM has to go by.
  ghost predicate CompressedOk(p: Plan, c: Codec, v: RomView, o: nat, pad: Pad, buffer: bytes, code: u64) {
    && CompressedFrom(p, c, v, o) && Fitting(p, pad, |buffer|)
    && v.table[0].vromEnd % 16 == 0 && (forall i :: 0 <= i < |p.entries| ==> EndsInside(p, |buffer|, i))
    && CheckCodeOf(Tabled(p, pad, buffer), p.Row(0)) == Success(code)
    && CODE_AT + CODE_SIZE <= |buffer|
  }

  // The rows of the compressed ROM name the same ranges; empty files stay empty.
  lemma CompressedRows(p: Plan, c: Codec, v: RomView, o: nat, i: nat)
    requires CompressedFrom(p, c, v, o) && SparseTable(v.table) && i < |v.table|
    ensures |p.entries| == |v.table|
    ensures KindOf(v.table[i]) == DeletedEntry ==> p.Row(i) == v.table[i]
    ensures KindOf(v.table[i]) != DeletedEntry ==>
      p.Row(i).vromStart == v.table[i].vromStart && p.Row(i).vromEnd == v.table[i].vromEnd
  {
    CompressedJob(p, c, v, o, i);
    CompressedRow(p, c, v, i);
    assert v.table[i] == SparseRow(v.table[i]);
  }

  lemma CompressedHead(p: Plan, c: Codec, v: RomView, o: nat)
    requires CompressedFrom(p, c, v, o) && SparseTable(v.table) && v.table[0].vromEnd % 16 == 0
    ensures HeadCopied(p) && HeadSurvives(p) && p.entries[2].vromStart == o
  {
    SparseIsStored(v, o);
    SignedHead(v, o);
    PlannedHead(c, v, o, CompressPlan(v.table), Dense);
  }

  lemma CompressedIsSigned(p: Plan, c: Codec, v: RomView, o: nat, pad: Pad, buffer: bytes, code: u64)
    requires CompressedOk(p, c, v, o, pad, buffer, code) && SparseTable(v.table)
    ensures Signed(View(p, pad, buffer, code), o)
  {
    CompressedHead(p, c, v, o);
    CompressedApart(p, c, v, o);
    CheckedMakerom(p, pad, buffer, code);
    FoundAgain(p, pad, buffer, code);
  }

  lemma FoundAgain(p: Plan, pad: Pad, buffer: bytes, code: u64)
    requires HeadCopied(p) && HeadSurvives(p) && Fitting(p, pad, |buffer|) && Span(p.entries[0]) >= IPL3_END
    ensures CODE_AT + CODE_SIZE <= |buffer| && Signed(View(p, pad, buffer, code), p.entries[2].vromStart)
  {
    TableIsFoundAgain(p, pad, buffer, code);
  }

  lemma CompressedIsReadable(p: Plan, c: Codec, v: RomView, o: nat, pad: Pad, buffer: bytes, code: u64)
    requires CompressedOk(p, c, v, o, pad, buffer, code) && SparseTable(v.table) && RangesApart(v.table)
    ensures SameFiles(c, v, View(p, pad, buffer, code), code)
    ensures Readable(c, View(p, pad, buffer, code)) && RangesApart(View(p, pad, buffer, code).table)
  {
    CompressKeepsFiles(p, c, v, o, pad, buffer, code);
    SparseIsStored(v, o);
    StoredFilesKept(p, c, v, o, View(p, pad, buffer, code), |buffer|, code);
    CompressedIsTidy(p, c, v, o, View(p, pad, buffer, code), code);
  }

  lemma CompressedIsTidy(p: Plan, c: Codec, v: RomView, o: nat, w: RomView, code: u64)
    requires CompressedFrom(p, c, v, o) && SparseTable(v.table) && RangesApart(v.table)
    requires w.table == p.Table() && SameFiles(c, v, w, code)
    ensures Readable(c, w) && RangesApart(w.table)
  {
    SignedHead(v, o);
    forall i | 0 <= i < |v.table|
      ensures w.table[i] == p.Row(i)
      ensures KindOf(w.table[i]) == DeletedEntry <==> KindOf(v.table[i]) == DeletedEntry
      ensures KindOf(w.table[i]) != DeletedEntry ==>
        w.table[i].vromStart == v.table[i].vromStart && w.table[i].vromEnd == v.table[i].vromEnd
    {
      assert SameFile(c, v, w, i);
      CompressedRows(p, c, v, o, i);
    }
    forall i | 0 <= i < |v.table| && KindOf(w.table[i]) != DeletedEntry
      ensures ReadableAt(c, w, i)
    {
      StillReadable(c, v, w, code, i);
    }
    StillApart(c, v, w, code);
  }

  /* The round trip */

  // The third file of an open ROM is its table.
  lemma TableIsThirdFile(c: Codec, v: RomView, o: nat)
    requires Signed(v, o)
    ensures FileOf(c, v, 2) == Some(PrintTable(v.table))
  {
    SignedHead(v, o);
    FoundTablePrints(v.image, o);
    StoredRowReads(c, v.image, v.table, 2, PrintTable(v.table));
  }

  // Any decompressed ROM whose MAKEROM is a multiple of 16 long comes back from a dense compression,
  // padded or not, followed by a sparse decompression: the same table, entry for entry, and the same
  // files, byte for byte, but for the check code in the first.
  lemma CompressThenDecompress(c: Codec, v: RomView, o: nat,
        p: Plan, pad: Pad, buffer: bytes, code: u64,
        q: Plan, pad': Pad, buffer': bytes, code': u64)
    requires Decompressed(c, v, o)
    requires CompressedOk(p, c, v, o, pad, buffer, code)
    requires var w := View(p, pad, buffer, code);
      AllReachable(c, w, DecompressPlan(w.table)) && q == PlanFor(c, w, DecompressPlan(w.table), Sparse)
    requires Fitting(q, pad', |buffer'|)
    requires CheckCodeOf(Tabled(q, pad', buffer'), q.Row(0)) == Success(code')
    ensures CODE_AT + CODE_SIZE <= |buffer'|
    ensures View(q, pad', buffer', code').table == v.table
    ensures forall i :: 0 < i < |v.table| && KindOf(v.table[i]) != DeletedEntry ==>
      FileOf(c, View(q, pad', buffer', code'), i) == FileOf(c, v, i)
    ensures FileOf(c, v, 0).Some? && CODE_AT + CODE_SIZE <= |FileOf(c, v, 0).value|
    ensures FileOf(c, View(q, pad', buffer', code'), 0)
         == Some(Splice(FileOf(c, v, 0).value, CODE_AT, BigEndian64(code')))
  {
    var w := View(p, pad, buffer, code);
    CompressedIsSigned(p, c, v, o, pad, buffer, code);
    CompressedIsReadable(p, c, v, o, pad, buffer, code);
    assert DecompressedFrom(q, c, w, o);
    DecompressKeepsFiles(q, c, w, o, pad', buffer', code');
    var u := View(q, pad', buffer', code');
    TableComesBack(c, v, o, p, w, q);
    TableIsThirdFile(c, v, o);
    forall i | 0 < i < |v.table| && KindOf(v.table[i]) != DeletedEntry
      ensures FileOf(c, u, i) == FileOf(c, v, i)
    {
      assert SameFile(c, v, w, i) && SameFile(c, w, u, i);
    }
    SpliceTwice(FileOf(c, v, 0).value, CODE_AT, BigEndian64(code), BigEndian64(code'));
  }

  lemma TableComesBack(c: Codec, v: RomView, o: nat, p: Plan, w: RomView, q: Plan)
    requires CompressedFrom(p, c, v, o) && SparseTable(v.table) && w.table == p.Table()
    requires DecompressedFrom(q, c, w, o) && q.pack == Sparse && |w.table| == |v.table|
    requires forall i :: 0 <= i < |v.table| ==> SameFile(c, v, w, i)
    ensures q.Table() == v.table
  {
    forall i | 0 <= i < |v.table|
      ensures |q.Table()| == |v.table| && q.Table()[i] == v.table[i]
    {
      assert SameFile(c, v, w, i);
      RowComesBack(c, v, o, p, w, q, i);
    }
  }

  lemma RowComesBack(c: Codec, v: RomView, o: nat, p: Plan, w: RomView, q: Plan, i: nat)
    requires CompressedFrom(p, c, v, o) && SparseTable(v.table) && w.table == p.Table()
    requires DecompressedFrom(q, c, w, o) && q.pack == Sparse && i < |v.table| == |w.table|
    requires KindOf(w.table[i]) == DeletedEntry <==> KindOf(v.table[i]) == DeletedEntry
    ensures |q.entries| == |v.table| && q.Row(i) == v.table[i]
  {
    CompressedRows(p, c, v, o, i);
    DecompressedRow(q, c, w, o, i);
    assert w.table[i] == p.Row(i) && v.table[i] == SparseRow(v.table[i]);
  }

  lemma SpliceTwice(b: bytes, off: nat, d: bytes, e: bytes)
    requires off + |d| <= |b| && |d| == |e|
    ensures Splice(Splice(b, off, d), off, e) == Splice(b, off, e)
  {
  }
}
