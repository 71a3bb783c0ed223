/**
 What a written image looks like from the outside: how dense files tile it, what kind of entry each
 one gets, and what is behind the last of them.
 */
module Tiling {
  import opened Bytes
  import opened Dma
  import opened Rom
  import opened Layout
  import opened Plan
  import opened Placement
  import opened Reopen
  import opened Bound

  /* Dense files */

  ghost predicate Holds(p: Plan, i: nat, x: nat)
    requires p.Valid() && i < |p.entries|
  {
    Live(p.entries[i]) && p.Start(i) <= x < p.Start(i) + p.Aligned(i)
  }

  lemma {:induction false} SomeFileHolds(p: Plan, n: nat, x: nat) returns (i: nat)
    requires Unwrapped(p) && p.pack == Dense && n <= |p.entries| && x < Total(p, n)
    ensures i < n && Holds(p, i, x)
  {
    DenseTiles(p, n - 1);
    if x < Total(p, n - 1) {
      i := SomeFileHolds(p, n - 1, x);
    } else {
      i := n - 1;
    }
  }

  lemma HoldsOnce(p: Plan, i: nat, j: nat, x: nat)
    requires Unwrapped(p) && p.pack == Dense && i < j < |p.entries| && Holds(p, i, x)
    ensures !Holds(p, j, x)
  {
    DenseTiles(p, i);
    DenseTiles(p, j);
    TotalGrows(p, i, j);
  }

  // Every byte below the size of a dense ROM belongs to exactly one file, whose extent begins and
  // ends at multiples of 16 and behind the files before it in the table.
  lemma DenseFilesTile(p: Plan, x: nat) returns (i: nat)
    requires Unwrapped(p) && p.pack == Dense && x < p.Size()
    ensures i < |p.entries| && Holds(p, i, x)
    ensures forall j :: 0 <= j < |p.entries| && Holds(p, j, x) ==> j == i
    ensures p.Start(i) % 16 == 0 && p.Aligned(i) % 16 == 0 && p.Start(i) + p.Aligned(i) <= p.Size()
    ensures p.Start(i) == Total(p, i) && p.Size() == Total(p, |p.entries|)
  {
    DenseTiles(p, |p.entries|);
    i := SomeFileHolds(p, |p.entries|, x);
    forall j | 0 <= j < |p.entries| && Holds(p, j, x)
      ensures j == i
    {
      if j < i {
        HoldsOnce(p, j, i, x);
      } else if i < j {
        HoldsOnce(p, i, j, x);
      }
    }
    DenseTiles(p, i);
    TotalIsAligned(p, i);
    CursorIsExact(p, i);
    RomSizeCovers(p, i, |p.entries|);
  }

  // The entry that is written for a file is of the kind its operation asks for. A compressed file
  // is not taken for a deleted one, nor, unless nothing at all comes before its end, for a stored one.
  lemma DenseRowKind(p: Plan, i: nat)
    requires Unwrapped(p) && p.pack == Dense && i < |p.entries|
    ensures KindOf(p.Row(i)) ==
      if p.entries[i].operation == Delete then DeletedEntry
      else if Live(p.entries[i]) && p.entries[i].operation == Compress && Total(p, i + 1) > 0 then CompressedEntry
      else StoredEntry
  {
    DenseTiles(p, i);
    DenseTiles(p, i + 1);
    TotalIsAligned(p, i + 1);
  }

  /* Padding */

  // A padded image of no more than 2^31 bytes is a power of two long, the least that holds it.
  lemma PaddedLength(size: u32, pad: Pad, k: nat)
    requires 1 <= size <= 0x8000_0000 && pad != NoPad
    ensures size + |Padding(size, pad)| == CeilPow2(size)
    ensures exists j: nat :: size + |Padding(size, pad)| == Pow2(j)
    ensures size <= Pow2(k) ==> size + |Padding(size, pad)| <= Pow2(k)
  {
    CeilPow2IsLeast(size, k);
  }

  // Behind the files there is nothing but padding: zeros, or the low byte of each offset.
  lemma PaddingFinished(p: Plan, pad: Pad, buffer: bytes, code: u64, k: nat)
    requires HeadCopied(p) && Fitting(p, pad, |buffer|) && Span(p.entries[0]) >= CODE_AT + CODE_SIZE
    requires p.Size() <= k < p.Size() + |Padding(p.Size(), pad)|
    ensures k < |buffer| && CODE_AT + CODE_SIZE <= |buffer|
    ensures Finished(p, pad, buffer, code)[k] == if pad == RampPad then k % 256 else 0
  {
    FileWithinSize(p, 0);
    FileWithinSize(p, 2);
    if p.pack == Dense {
      DenseTableWithin(p);
    }
    assert CODE_AT + CODE_SIZE <= p.Size();
    PaddingTabled(p, pad, buffer, k);
    PaddingByte(p.Size(), pad, k);
  }

  lemma PaddingTabled(p: Plan, pad: Pad, buffer: bytes, k: nat)
    requires Fitting(p, pad, |buffer|) && TablePosition(p) + ENTRY_SIZE * |p.entries| <= p.Size()
    requires p.Size() <= k < p.Size() + |Padding(p.Size(), pad)|
    ensures k < |buffer| && Tabled(p, pad, buffer)[k] == Padding(p.Size(), pad)[k - p.Size()]
  {
    var img, padding := p.Image(buffer, |p.entries|), Padding(p.Size(), pad);
    var padded := Splice(img, p.Size(), padding);
    assert padded[p.Size()..p.Size() + |padding|][k - p.Size()] == padded[k];
  }

  lemma PaddingByte(size: u32, pad: Pad, k: nat)
    requires size <= k < size + |Padding(size, pad)|
    ensures Padding(size, pad)[k - size] == if pad == RampPad then k % 256 else 0
  {
  }
}
