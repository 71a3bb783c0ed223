/**
 Opening what has been written: the table of a finished image is found where it was put, exactly
 when the head of the layout allows it.
 */
module Reopen {
  import opened Bytes
  import opened Dma
  import opened Yaz0
  import opened Rom
  import opened Layout
  import opened Plan
  import opened Placement
  import opened Write

  /* Tables in images */

  lemma PrintedEntry(img: bytes, o: nat, t: seq<Dma>, k: nat)
    requires k < |t| && o + ENTRY_SIZE * |t| <= |img| && img[o..o + ENTRY_SIZE * |t|] == PrintTable(t)
    ensures EntryAt(img, o + ENTRY_SIZE * k) == t[k]
  {
    PrintedPart(t, k);
    SubSlice(img, o, o + ENTRY_SIZE * |t|, ENTRY_SIZE * k, ENTRY_SIZE * (k + 1));
    ParsePrint(t[k]);
  }

  lemma PrintedLoaded(img: bytes, o: nat, t: seq<Dma>)
    requires o + ENTRY_SIZE * |t| <= |img| && img[o..o + ENTRY_SIZE * |t|] == PrintTable(t)
    ensures Loaded(img, o, t)
  {
    forall k | 0 <= k < |t|
      ensures t[k] == EntryAt(img, o + ENTRY_SIZE * k)
    {
      PrintedEntry(img, o, t, k);
    }
  }

  // A table in the image is a found table when its first three entries carry the signature.
  lemma LoadedSignature(img: bytes, o: nat, t: seq<Dma>)
    requires |t| >= 3 && o % ENTRY_SIZE == 0 && Loaded(img, o, t)
    ensures SignatureAt(img, o) <==> CanBeMakerom(t[0]) && IsDmadata(t[0], t[1], t[2], o, |img|)
    ensures SignatureAt(img, o) && t[2].vromEnd - t[2].vromStart == ENTRY_SIZE * |t| ==> TableAt(img, o) == t
  {
    assert t[0] == EntryAt(img, o + ENTRY_SIZE * 0);
    assert t[1] == EntryAt(img, o + ENTRY_SIZE * 1);
    assert t[2] == EntryAt(img, o + ENTRY_SIZE * 2);
    if SignatureAt(img, o) && t[2].vromEnd - t[2].vromStart == ENTRY_SIZE * |t| {
      LoadedTable(img, o, t);
    }
  }

  /* The head of an open ROM */

  // An open ROM has the table that its bytes hold where the signature is.
  ghost predicate Signed(v: RomView, o: nat) {
    SignatureAt(v.image, o) && v.table == TableAt(v.image, o)
  }

  // MAKEROM, BOOTCODE and DMADATA are stored one after the other; the third is the table.
  ghost predicate Head(t: seq<Dma>, length: nat) {
    && |t| >= 3
    && CanBeMakerom(t[0]) && t[2].vromStart % ENTRY_SIZE == 0
    && IsDmadata(t[0], t[1], t[2], t[2].vromStart, length)
    && t[2].vromEnd - t[2].vromStart == ENTRY_SIZE * |t|
  }

  lemma SignedHead(v: RomView, o: nat)
    requires Signed(v, o)
    ensures Head(v.table, |v.image|) && v.table[2].vromStart == o
  {
    FoundTableFits(v.image, o);
    FoundHead(v.image, o);
  }

  lemma FoundHead(img: bytes, o: nat)
    requires SignatureAt(img, o)
    ensures var t := TableAt(img, o);
      |t| == InfoAt(img, o).count >= 3
      && t[0] == EntryAt(img, o) && t[1] == EntryAt(img, o + 16) && t[2] == EntryAt(img, o + 32)
  {
    FoundTableFits(img, o);
    FoundEntry(img, o, 0);
    FoundEntry(img, o, 1);
    FoundEntry(img, o, 2);
  }

  /* The head of a layout */

  // The span of an entry, which is what a stored file takes up.
  function Span(e: LayoutEntry): int { e.vromEnd - e.vromStart }

  ghost predicate CopiesWhole(p: Plan, i: nat)
    requires p.Valid() && i < |p.entries|
  {
    && p.entries[i].operation == Copy && p.entries[i].vromStart <= p.entries[i].vromEnd
    && (if Span(p.entries[i]) == 0 then p.jobs[i] == Skip else p.jobs[i].Put? && p.Length(i) == Span(p.entries[i]))
  }

  ghost predicate HeadCopied(p: Plan) {
    && p.Valid() && |p.entries| >= 3
    && CopiesWhole(p, 0) && CopiesWhole(p, 1) && CopiesWhole(p, 2)
    && p.entries[0].vromStart == 0 && Span(p.entries[0]) > 0
    && p.entries[1].vromStart == p.entries[0].vromEnd
    && p.entries[2].vromStart == p.entries[1].vromEnd && p.entries[2].vromStart % ENTRY_SIZE == 0
    && Span(p.entries[2]) == ENTRY_SIZE * |p.entries|
  }

  // A layout made from a table by one of the planners.
  ghost predicate Planned(v: RomView, entries: seq<LayoutEntry>) {
    entries == CompressPlan(v.table) || entries == DecompressPlan(v.table)
  }

  lemma PlannedHead(c: Codec, v: RomView, o: nat, entries: seq<LayoutEntry>, pack: Pack)
    requires Signed(v, o) && Planned(v, entries) && AllReachable(c, v, entries)
    ensures HeadCopied(PlanFor(c, v, entries, pack))
  {
    SignedHead(v, o);
    var p := PlanFor(c, v, entries, pack);
    forall i: nat | i < 3
      ensures CopiesWhole(p, i)
    {
      assert p.jobs[i] == JobOf(c, v, entries[i]);
    }
  }

  // The cursor behind a file that is copied whole, or behind an empty one.
  lemma CopiedCursor(p: Plan, i: nat)
    requires Unwrapped(p) && i < |p.entries| && CopiesWhole(p, i)
    ensures p.Position(i + 1) == (if Span(p.entries[i]) > 0 then p.Start(i) else p.Position(i)) + p.Aligned(i)
    ensures Span(p.entries[i]) <= p.Aligned(i) && p.Aligned(i) % 16 == 0
    ensures p.Aligned(i) == Span(p.entries[i]) <==> Span(p.entries[i]) % 16 == 0
  {
    if Span(p.entries[i]) > 0 {
      CursorIsExact(p, i);
    }
  }

  // Where dense packing puts the first three files.
  lemma DenseHead(p: Plan)
    requires HeadCopied(p) && Unwrapped(p) && p.pack == Dense
    ensures p.Start(0) == 0 && p.Start(1) == p.Aligned(0)
    ensures p.Start(2) == p.Aligned(0) + p.Aligned(1)
    ensures Span(p.entries[0]) <= p.Aligned(0) && Span(p.entries[1]) <= p.Aligned(1)
    ensures p.Aligned(0) == Span(p.entries[0]) <==> Span(p.entries[0]) % 16 == 0
    ensures p.Aligned(1) == Span(p.entries[1]) <==> Span(p.entries[1]) % 16 == 0
  {
    CopiedCursor(p, 0);
    CopiedCursor(p, 1);
    DenseCursors(p);
  }

  // With MAKEROM a multiple of 16 long, the third file starts where its VROM range does.
  lemma DenseTableInPlace(p: Plan)
    requires HeadCopied(p) && Unwrapped(p) && p.pack == Dense && Span(p.entries[0]) % 16 == 0
    ensures p.Start(0) == 0 && p.Start(2) == p.entries[2].vromStart
  {
    DenseHead(p);
    MultiplesAdd(Span(p.entries[0]), Span(p.entries[1]));
  }

  lemma DenseCursors(p: Plan)
    requires p.Valid() && |p.entries| >= 3 && p.pack == Dense
    ensures p.Start(0) == 0 && p.Start(1) == p.Position(1) && p.Start(2) == p.Position(2)
  {
  }

  // What has to hold of the head for the written table to be found again.
  ghost predicate HeadSurvives(p: Plan)
    requires HeadCopied(p)
  {
    Span(p.entries[1]) > 0 && (p.pack == Dense ==> Span(p.entries[0]) % 16 == 0)
  }

  lemma SignatureOfRows(p: Plan, length: nat)
    requires HeadCopied(p) && Unwrapped(p) && p.entries[2].vromEnd <= length
    ensures (CanBeMakerom(p.Row(0)) && IsDmadata(p.Row(0), p.Row(1), p.Row(2), p.entries[2].vromStart, length))
       <==> HeadSurvives(p)
  {
    HeadRows(p);
    if p.pack == Dense {
      DenseHead(p);
      if HeadSurvives(p) {
        DenseTableInPlace(p);
      }
    }
  }

  lemma HeadRows(p: Plan)
    requires HeadCopied(p)
    ensures p.Row(0) == Dma(0, p.entries[0].vromEnd, p.Start(0), 0)
    ensures p.Row(1) == if Span(p.entries[1]) == 0 then Dma(0, 0, 0, 0)
                        else Dma(p.entries[1].vromStart, p.entries[1].vromEnd, p.Start(1), 0)
    ensures p.Row(2) == Dma(p.entries[2].vromStart, p.entries[2].vromEnd, p.Start(2), 0)
  {
  }

  // The written table is found again, at entry 2's VROM start and entry for entry, exactly when
  // BOOTCODE is not empty and, in a dense ROM, the size of MAKEROM is a multiple of 16.
  lemma TableIsFoundAgain(p: Plan, pad: Pad, buffer: bytes, code: u64)
    requires HeadCopied(p) && Fitting(p, pad, |buffer|) && Span(p.entries[0]) >= CODE_AT + CODE_SIZE
    ensures CODE_AT + CODE_SIZE <= |buffer|
    ensures SignatureAt(Finished(p, pad, buffer, code), p.entries[2].vromStart) <==> HeadSurvives(p)
    ensures HeadSurvives(p) ==> TableAt(Finished(p, pad, buffer, code), p.entries[2].vromStart) == p.Table()
  {
    assert p.Fits(|buffer|, |p.entries|) && p.jobs[0].Put?;
    assert p.Start(0) + p.Length(0) <= |buffer|;
    var img := Finished(p, pad, buffer, code);
    TableFinished(p, pad, buffer, code);
    PrintedLoaded(img, p.entries[2].vromStart, p.Table());
    LoadedSignature(img, p.entries[2].vromStart, p.Table());
    SignatureOfRows(p, |buffer|);
  }
}
