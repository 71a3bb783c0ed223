/**
 What placement keeps: no position wraps, files lie apart, and each file's bytes are still in the
 image when everything else has been written over it.
 */
module Placement {
  import opened Bytes
  import opened Dma
  import opened Layout
  import opened Plan

  // No size and no position runs over 32 bits when it is rounded up to a multiple of 16.
  ghost predicate Unwrapped(p: Plan) {
    p.Valid() && forall i {:trigger UnwrappedAt(p, i)} :: 0 <= i < |p.entries| && Live(p.entries[i]) ==> UnwrappedAt(p, i)
  }

  ghost predicate UnwrappedAt(p: Plan, i: nat)
    requires p.Valid() && i < |p.entries|
  {
    p.Length(i) <= SAFE_LENGTH && p.Start(i) + p.Aligned(i) < TWO_32
  }

  // The longest output in which no position can run over.
  const SAFE_LENGTH: nat := 0xFFFF_FFF0

  lemma ShortIsUnwrapped(p: Plan, length: nat)
    requires p.Valid() && p.Fits(length, |p.entries|) && length <= SAFE_LENGTH
    ensures Unwrapped(p)
  {
    forall i | 0 <= i < |p.entries| && Live(p.entries[i])
      ensures UnwrappedAt(p, i)
    {
      assert p.FitsAt(length, i);
      Align16Rounds(Wrap(p.Length(i)));
    }
  }

  // What one file takes up, and where the cursor is behind it.
  lemma CursorIsExact(p: Plan, i: nat)
    requires Unwrapped(p) && i < |p.entries| && Live(p.entries[i])
    ensures p.Length(i) <= p.Aligned(i) < p.Length(i) + 16 && p.Aligned(i) % 16 == 0
    ensures p.Position(i + 1) == p.Start(i) + p.Aligned(i)
  {
    assert UnwrappedAt(p, i);
    WrapFits(p.Length(i));
    Align16Rounds(p.Length(i));
    WrapFits(p.Start(i) + p.Aligned(i));
  }

  lemma {:induction false} RomSizeCovers(p: Plan, i: nat, n: nat)
    requires p.Valid() && i < n <= |p.entries|
    ensures p.RomSize(i) <= p.RomSize(n)
    ensures Live(p.entries[i]) ==> p.Position(i + 1) <= p.RomSize(n)
  {
    if i + 1 == n {
    } else {
      RomSizeCovers(p, i, n - 1);
    }
  }

  // Every file ends within the reported size.
  lemma FileWithinSize(p: Plan, i: nat)
    requires Unwrapped(p) && i < |p.entries| && p.jobs[i].Put?
    ensures p.Start(i) + p.Length(i) <= p.Start(i) + p.Aligned(i) <= p.Size()
  {
    CursorIsExact(p, i);
    RomSizeCovers(p, i, |p.entries|);
  }

  // And some file ends there, unless there is none.
  lemma {:induction false} SizeIsAttained(p: Plan, n: nat)
    requires Unwrapped(p) && n <= |p.entries|
    ensures p.RomSize(n) == 0 || exists i :: 0 <= i < n && Live(p.entries[i]) && p.Start(i) + p.Aligned(i) == p.RomSize(n)
  {
    if n == 0 {
    } else {
      SizeIsAttained(p, n - 1);
      if Live(p.entries[n - 1]) {
        CursorIsExact(p, n - 1);
      }
    }
  }

  /* Files lie apart */

  ghost predicate ApartAt(p: Plan, i: nat, j: nat)
    requires p.Valid() && i < |p.entries| && j < |p.entries|
  {
    p.Start(i) + p.Length(i) <= p.Start(j) || p.Start(j) + p.Length(j) <= p.Start(i)
  }

  ghost predicate Apart(p: Plan)
    requires p.Valid()
  {
    forall i, j {:trigger ApartAt(p, i, j)} ::
      0 <= i < j < |p.entries| && p.jobs[i].Put? && p.jobs[j].Put? ==> ApartAt(p, i, j)
  }

  // Dense packing: the sum of the aligned sizes before an entry.
  function Total(p: Plan, n: nat): nat
    requires p.Valid() && n <= |p.entries|
  {
    if n == 0 then 0 else Total(p, n - 1) + if Live(p.entries[n - 1]) then p.Aligned(n - 1) else 0
  }

  // Dense files tile the image: each starts at the sum of the aligned sizes before it, and that
  // sum is the size of the ROM.
  lemma {:induction false} DenseTiles(p: Plan, n: nat)
    requires Unwrapped(p) && p.pack == Dense && n <= |p.entries|
    ensures p.Position(n) == p.RomSize(n) == Total(p, n)
    ensures n < |p.entries| ==> p.Start(n) == Total(p, n)
  {
    if n == 0 {
    } else {
      DenseTiles(p, n - 1);
      if Live(p.entries[n - 1]) {
        CursorIsExact(p, n - 1);
      }
    }
  }

  lemma {:induction false} TotalIsAligned(p: Plan, n: nat)
    requires Unwrapped(p) && n <= |p.entries|
    ensures Total(p, n) % 16 == 0
  {
    if n == 0 {
    } else {
      TotalIsAligned(p, n - 1);
      if Live(p.entries[n - 1]) {
        CursorIsExact(p, n - 1);
        MultiplesAdd(Total(p, n - 1), p.Aligned(n - 1));
      }
    }
  }

  lemma MultiplesAdd(a: nat, b: nat)
    requires a % 16 == 0
    ensures (a + b) % 16 == 0 <==> b % 16 == 0
  {
  }

  lemma {:induction false} TotalGrows(p: Plan, i: nat, j: nat)
    requires p.Valid() && i < j <= |p.entries| && Live(p.entries[i])
    ensures Total(p, i) + p.Aligned(i) <= Total(p, j)
  {
    if i + 1 == j {
    } else {
      TotalGrows(p, i, j - 1);
    }
  }

  lemma DenseIsApart(p: Plan)
    requires Unwrapped(p) && p.pack == Dense
    ensures Apart(p)
  {
    forall i, j | 0 <= i < j < |p.entries| && p.jobs[i].Put? && p.jobs[j].Put?
      ensures ApartAt(p, i, j)
    {
      DenseTiles(p, i);
      DenseTiles(p, j);
      TotalGrows(p, i, j);
      CursorIsExact(p, i);
    }
  }

  /* Nothing written later touches a file */

  lemma {:induction false} FilePlaced(p: Plan, buffer: bytes, i: nat, n: nat)
    requires p.Valid() && i < n <= |p.entries| && p.Fits(|buffer|, n) && Apart(p) && p.jobs[i].Put?
    ensures p.FitsAt(|buffer|, i)
    ensures p.Image(buffer, n)[p.Start(i)..p.Start(i) + p.Length(i)] == p.jobs[i].data
  {
    if i + 1 == n {
    } else {
      FilePlaced(p, buffer, i, n - 1);
      if p.jobs[n - 1].Put? {
        assert ApartAt(p, i, n - 1) && p.FitsAt(|buffer|, n - 1);
        SpliceElsewhere(p.Image(buffer, n - 1), p.Start(n - 1), p.jobs[n - 1].data,
          p.Start(i), p.Start(i) + p.Length(i));
      }
    }
  }

  // The table's own range, as it is written.
  function TablePosition(p: Plan): u32
    requires p.Valid() && |p.entries| > TABLE_INDEX
  {
    p.Row(TABLE_INDEX).vromStart
  }

  ghost predicate Fitting(p: Plan, pad: Pad, length: nat) {
    Unwrapped(p) && |p.entries| > TABLE_INDEX && Roomy(p, pad, length)
  }

  // Padding and the table leave a range alone that lies in the files' part of the image, off the table.
  lemma TabledKeeps(p: Plan, pad: Pad, buffer: bytes, lo: nat, hi: nat)
    requires Fitting(p, pad, |buffer|) && lo <= hi <= |buffer| && hi <= p.Size()
    requires hi <= TablePosition(p) || TablePosition(p) + ENTRY_SIZE * |p.entries| <= lo
    ensures Tabled(p, pad, buffer)[lo..hi] == p.Image(buffer, |p.entries|)[lo..hi]
  {
    var img := p.Image(buffer, |p.entries|);
    var padding := Padding(p.Size(), pad);
    var padded := if padding == [] then img else Splice(img, p.Size(), padding);
    if padding != [] {
      SpliceElsewhere(img, p.Size(), padding, lo, hi);
    }
    SpliceElsewhere(padded, TablePosition(p), PrintTable(p.Table()), lo, hi);
  }

  // A file that neither the table nor the check code lies on is in the finished image.
  lemma FileFinished(p: Plan, pad: Pad, buffer: bytes, code: u64, i: nat)
    requires Fitting(p, pad, |buffer|) && CODE_AT + CODE_SIZE <= |buffer|
    requires i < |p.entries| && p.jobs[i].Put? && Apart(p)
    requires p.Start(i) + p.Length(i) <= TablePosition(p) || TablePosition(p) + ENTRY_SIZE * |p.entries| <= p.Start(i)
    requires CODE_AT + CODE_SIZE <= p.Start(i)
    ensures p.FitsAt(|buffer|, i)
    ensures Finished(p, pad, buffer, code)[p.Start(i)..p.Start(i) + p.Length(i)] == p.jobs[i].data
  {
    FileTabled(p, pad, buffer, i);
    SpliceElsewhere(Tabled(p, pad, buffer), CODE_AT, BigEndian64(code), p.Start(i), p.Start(i) + p.Length(i));
  }

  lemma FileTabled(p: Plan, pad: Pad, buffer: bytes, i: nat)
    requires Fitting(p, pad, |buffer|) && i < |p.entries| && p.jobs[i].Put? && Apart(p)
    requires p.Start(i) + p.Length(i) <= TablePosition(p) || TablePosition(p) + ENTRY_SIZE * |p.entries| <= p.Start(i)
    ensures p.FitsAt(|buffer|, i)
    ensures Tabled(p, pad, buffer)[p.Start(i)..p.Start(i) + p.Length(i)] == p.jobs[i].data
  {
    FileWithinSize(p, i);
    FilePlaced(p, buffer, i, |p.entries|);
    TabledKeeps(p, pad, buffer, p.Start(i), p.Start(i) + p.Length(i));
  }

  // The table is in the finished image where it was written.
  lemma TableFinished(p: Plan, pad: Pad, buffer: bytes, code: u64)
    requires Fitting(p, pad, |buffer|) && CODE_AT + CODE_SIZE <= |buffer|
    requires CODE_AT + CODE_SIZE <= TablePosition(p)
    ensures Finished(p, pad, buffer, code)[TablePosition(p)..TablePosition(p) + ENTRY_SIZE * |p.entries|] == PrintTable(p.Table())
  {
    SpliceElsewhere(Tabled(p, pad, buffer), CODE_AT, BigEndian64(code), TablePosition(p), TablePosition(p) + ENTRY_SIZE * |p.entries|);
  }
}
