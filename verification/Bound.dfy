/**
 The promised output size (lib/layout_bound.c) against what is written.
 */
module Bound {
  import opened Bytes
  import opened Wrappers
  import opened Io
  import opened Dma
  import opened Yaz0
  import opened Rom
  import opened Layout
  import opened Plan
  import opened Placement
  import opened Write
  import opened Cic
  import opened Reopen
  import opened Preserve

  /* Bounds of entries and layouts */

  function EntryBound(c: Codec, v: RomView, e: LayoutEntry): Result<u32, Code> {
    match e.operation
    case Copy => StoredBound(c, v, e)
    case Compress =>
      (match StoredBound(c, v, e)
      case Failure(code) => Failure(code)
      case Success(size) => if c.bound(size) >= UINT32_MAX then Failure(OutOfRange) else Success(c.bound(size)))
    case Decompress => Success(Wrap(e.vromEnd - e.vromStart))
    case Delete => Success(0)
  }

  function StoredBound(c: Codec, v: RomView, e: LayoutEntry): Result<u32, Code> {
    match StatOf(c, v, e.index)
    case Failure(code) => Failure(code)
    case Success(st) => Success(st.size)
  }

  // The next entry's aligned size on top of `from`, or an error where 32 bits do not hold it.
  function Grown(from: u32, size: u32): Result<u32, Code> {
    if from > UINT32_MAX - Align16(size) then Failure(OutOfRange) else Success(from + Align16(size))
  }

  // Dense packing: the sum of the aligned bounds of the first n entries.
  function SumBound(c: Codec, v: RomView, entries: seq<LayoutEntry>, n: nat): Result<u32, Code>
    requires n <= |entries|
  {
    if n == 0 then Success(0)
    else
      match SumBound(c, v, entries, n - 1)
      case Failure(code) => Failure(code)
      case Success(b) =>
        if !Live(entries[n - 1]) then Success(b)
        else
          match EntryBound(c, v, entries[n - 1])
          case Failure(code) => Failure(code)
          case Success(size) => Grown(b, size)
  }

  // Sparse packing: the furthest end of the first n entries.
  function MaxBound(c: Codec, v: RomView, entries: seq<LayoutEntry>, n: nat): Result<u32, Code>
    requires n <= |entries|
  {
    if n == 0 then Success(0)
    else
      match MaxBound(c, v, entries, n - 1)
      case Failure(code) => Failure(code)
      case Success(b) =>
        if !Live(entries[n - 1]) then Success(b)
        else
          match EntryBound(c, v, entries[n - 1])
          case Failure(code) => Failure(code)
          case Success(size) =>
            match Grown(entries[n - 1].vromStart, size)
            case Failure(code) => Failure(code)
            case Success(end) => Success(if end > b then end else b)
  }

  function WriteBoundOf(c: Codec, v: RomView, entries: seq<LayoutEntry>, options: Options): Result<u32, Code> {
    if options.pack == Sparse then MaxBound(c, v, entries, |entries|)
    else
      match SumBound(c, v, entries, |entries|)
      case Failure(code) => Failure(code)
      case Success(b) => Success(if options.pad == NoPad then b else CeilPow2(b))
  }

  // How a computation reports a result through the error object.
  ghost predicate Reports(r: Result<u32, Code>, value: u32, result: Code) {
    match r
    case Success(x) => result == Ok && value == x
    case Failure(code) => result == code && value == 0
  }

  // zelda64_layout_entry_bound
  method LayoutEntryBound(c: Codec, rom: OpenRom, e: LayoutEntry, error: Error) returns (bound: u32)
    requires error.result == Ok
    modifies error
    ensures Reports(EntryBound(c, rom.View(), e), bound, error.result)
  {
    bound := 0;
    match e.operation {
      case Copy =>
        bound := CopyBound(c, rom, e, error);
      case Compress =>
        var size := CopyBound(c, rom, e, error);
        if error.result != Ok {
          return 0;
        }
        if c.bound(size) >= UINT32_MAX {
          error.Set(OutOfRange);
          return 0;
        }
        bound := c.bound(size);
      case Decompress =>
        bound := Wrap(e.vromEnd - e.vromStart);
      case Delete =>
    }
  }

  method CopyBound(c: Codec, rom: OpenRom, e: LayoutEntry, error: Error) returns (bound: u32)
    requires error.result == Ok
    modifies error
    ensures Reports(StoredBound(c, rom.View(), e), bound, error.result)
  {
    var st := rom.StatFile(c, e.index, error);
    bound := if error.result == Ok then st.size else 0;
  }

  // zelda64_layout_max
  method LayoutMax(c: Codec, rom: OpenRom, entries: seq<LayoutEntry>, error: Error) returns (biggest: u32)
    requires error.result == Ok
    modifies error
    ensures Reports(MaxBound(c, rom.View(), entries, |entries|), biggest, error.result)
  {
    ghost var v := rom.View();
    biggest := 0;
    var i := 0;
    while i < |entries|
      invariant i <= |entries| && error.result == Ok
      invariant MaxBound(c, v, entries, i) == Success(biggest)
    {
      if Live(entries[i]) {
        var size := LayoutEntryBound(c, rom, entries[i], error);
        if error.result != Ok {
          MaxFails(c, v, entries, i + 1, |entries|);
          return 0;
        }
        var aligned := Align16(size);
        if entries[i].vromStart > UINT32_MAX - aligned {
          error.Set(OutOfRange);
          MaxFails(c, v, entries, i + 1, |entries|);
          return 0;
        }
        var end := entries[i].vromStart + aligned;
        if end > biggest {
          biggest := end;
        }
      }
      i := i + 1;
    }
  }

  lemma {:induction false} MaxFails(c: Codec, v: RomView, entries: seq<LayoutEntry>, i: nat, n: nat)
    requires i <= n <= |entries| && MaxBound(c, v, entries, i).Failure?
    ensures MaxBound(c, v, entries, n) == MaxBound(c, v, entries, i)
  {
    if i == n {
    } else {
      MaxFails(c, v, entries, i, n - 1);
    }
  }

  lemma {:induction false} SumFails(c: Codec, v: RomView, entries: seq<LayoutEntry>, i: nat, n: nat)
    requires i <= n <= |entries| && SumBound(c, v, entries, i).Failure?
    ensures SumBound(c, v, entries, n) == SumBound(c, v, entries, i)
  {
    if i == n {
    } else {
      SumFails(c, v, entries, i, n - 1);
    }
  }

  // zelda64_write_bound
  method WriteBound(c: Codec, rom: OpenRom, entries: seq<LayoutEntry>, options: Options, error: Error) returns (bound: u32)
    modifies error
    ensures Reports(WriteBoundOf(c, rom.View(), entries, options), bound, error.result)
  {
    error.Clear();
    if options.pack == Sparse {
      bound := LayoutMax(c, rom, entries, error);
      return;
    }
    bound := DenseBound(c, rom, entries, error);
    if error.result == Ok && options.pad != NoPad {
      bound := CeilPow2BySmearing(bound);
    }
  }

  method DenseBound(c: Codec, rom: OpenRom, entries: seq<LayoutEntry>, error: Error) returns (bound: u32)
    requires error.result == Ok
    modifies error
    ensures Reports(SumBound(c, rom.View(), entries, |entries|), bound, error.result)
  {
    ghost var v := rom.View();
    bound := 0;
    var i := 0;
    while i < |entries|
      invariant i <= |entries| && error.result == Ok
      invariant SumBound(c, v, entries, i) == Success(bound)
    {
      if Live(entries[i]) {
        var size := LayoutEntryBound(c, rom, entries[i], error);
        if error.result != Ok {
          SumFails(c, v, entries, i + 1, |entries|);
          return 0;
        }
        var aligned := Align16(size);
        if bound > UINT32_MAX - aligned {
          error.Set(OutOfRange);
          SumFails(c, v, entries, i + 1, |entries|);
          return 0;
        }
        bound := bound + aligned;
      }
      i := i + 1;
    }
  }

  /* The bound covers what is written */

  // What the promise is made for: every entry's bound can be worked out and rounded up without
  // running over, and what is to be decompressed is no longer than its VROM range.
  ghost predicate Bounded(p: Plan, c: Codec, v: RomView)
    requires p.Valid()
  {
    forall i {:trigger BoundedAt(p, c, v, i)} :: 0 <= i < |p.entries| && Live(p.entries[i]) ==> BoundedAt(p, c, v, i)
  }

  ghost predicate BoundedAt(p: Plan, c: Codec, v: RomView, i: nat)
    requires p.Valid() && i < |p.entries|
  {
    var e := p.entries[i];
    && (EntryBound(c, v, e).Success? ==> EntryBound(c, v, e).value <= SAFE_LENGTH)
    && (e.operation == Decompress ==> p.Length(i) <= Wrap(e.vromEnd - e.vromStart))
  }

  // A plan that a layout may amount to, with a head that is copied.
  ghost predicate Promised(p: Plan, c: Codec, v: RomView) {
    && Contract(c) && p.Valid() && PlanOf(p, c, v, p.entries, p.pack) && Bounded(p, c, v) && HeadCopied(p)
  }

  // One file is no longer than its bound.
  lemma LengthIsBounded(p: Plan, c: Codec, v: RomView, i: nat)
    requires Promised(p, c, v) && i < |p.entries| && Live(p.entries[i])
    requires EntryBound(c, v, p.entries[i]).Success?
    ensures p.Length(i) <= EntryBound(c, v, p.entries[i]).value <= SAFE_LENGTH
  {
    assert BoundedAt(p, c, v, i) && JobFits(c, v, p.entries[i], p.jobs[i]);
    if p.entries[i].operation != Decompress && p.jobs[i].Put? {
      JobIsBounded(c, v, p.entries[i], p.jobs[i]);
    }
  }

  // So the promise is made exactly where every file is within its own bound and that can be rounded
  // up. All are within it but for those to be decompressed, whose header may tell more than their
  // VROM range.
  lemma BoundedExactly(p: Plan, c: Codec, v: RomView, i: nat)
    requires Contract(c) && p.Valid() && PlanOf(p, c, v, p.entries, p.pack) && i < |p.entries| && Live(p.entries[i])
    requires EntryBound(c, v, p.entries[i]).Success?
    ensures BoundedAt(p, c, v, i) <==> p.Length(i) <= EntryBound(c, v, p.entries[i]).value <= SAFE_LENGTH
    ensures p.entries[i].operation != Decompress ==> p.Length(i) <= EntryBound(c, v, p.entries[i]).value
    ensures p.entries[i].operation == Decompress && p.jobs[i].Put? ==>
      var st := StatOf(c, v, p.entries[i].index);
      st.Success? && (st.value.how == Packed ==> p.Length(i) == st.value.fileSize)
  {
    assert JobFits(c, v, p.entries[i], p.jobs[i]);
    if p.jobs[i].Put? {
      if p.entries[i].operation != Decompress {
        JobIsBounded(c, v, p.entries[i], p.jobs[i]);
      } else {
        HeaderSize(c, v, p.entries[i].index, p.jobs[i]);
      }
    }
  }

  // What a compressed file decompresses to is as long as its header tells, even where its extent
  // leaves the ROM.
  lemma HeaderSize(c: Codec, v: RomView, index: nat, job: Job)
    requires Contract(c) && JobAllowed(c, v, Decompress, index, job) && job.Put?
    ensures StatOf(c, v, index).Success?
    ensures StatOf(c, v, index).value.how == Packed ==> |job.data| == StatOf(c, v, index).value.fileSize
  {
    var st := StatOf(c, v, index).value;
    var d :| Fetched(v.image, st, d) && job == JobFor(c, Decompress, st, d);
    StatFacts(c, v, index);
    HeaderTells(c, d);
    if st.how == Packed {
      assert d[..HEADER_SIZE] == Part(v.image, st)[..HEADER_SIZE];
    }
  }

  lemma JobIsBounded(c: Codec, v: RomView, e: LayoutEntry, job: Job)
    requires Contract(c) && JobFits(c, v, e, job) && Live(e) && e.operation != Decompress
    requires EntryBound(c, v, e).Success? && job.Put?
    ensures |job.data| <= EntryBound(c, v, e).value
  {
    var st := StatOf(c, v, e.index).value;
    var d :| Fetched(v.image, st, d) && job == JobFor(c, e.operation, st, d);
    EncodeBound(c, d);
  }

  lemma AlignedIsBounded(p: Plan, c: Codec, v: RomView, i: nat)
    requires Promised(p, c, v) && i < |p.entries| && Live(p.entries[i])
    requires EntryBound(c, v, p.entries[i]).Success?
    ensures p.Length(i) <= SAFE_LENGTH && p.Aligned(i) <= Align16(EntryBound(c, v, p.entries[i]).value)
  {
    LengthIsBounded(p, c, v, i);
    AlignGrows(p.Length(i), EntryBound(c, v, p.entries[i]).value);
  }

  lemma AlignGrows(m: nat, n: u32)
    requires m <= n <= SAFE_LENGTH
    ensures Align16(Wrap(m)) <= Align16(n)
  {
  }

  /* Dense packing */

  // No cursor before entry n runs over, and the size so far is within the sum so far.
  ghost predicate Covered(p: Plan, n: nat, sum: nat)
    requires p.Valid() && n <= |p.entries|
  {
    && p.RomSize(n) <= sum && (p.pack == Dense ==> p.Position(n) <= sum)
    && forall i {:trigger UnwrappedAt(p, i)} :: 0 <= i < n && Live(p.entries[i]) ==> UnwrappedAt(p, i)
  }

  lemma {:induction false} SumCovers(p: Plan, c: Codec, v: RomView, n: nat)
    requires Promised(p, c, v) && p.pack == Dense && n <= |p.entries| && SumBound(c, v, p.entries, n).Success?
    ensures Covered(p, n, SumBound(c, v, p.entries, n).value)
  {
    if n > 0 {
      SumCovers(p, c, v, n - 1);
      if Live(p.entries[n - 1]) {
        AlignedIsBounded(p, c, v, n - 1);
        CoversOne(p, n, SumBound(c, v, p.entries, n - 1).value, SumBound(c, v, p.entries, n).value);
      } else {
        SkipsOne(p, n, SumBound(c, v, p.entries, n).value);
      }
    }
  }

  lemma CoversOne(p: Plan, n: nat, before: nat, after: u32)
    requires p.Valid() && 0 < n <= |p.entries| && Live(p.entries[n - 1]) && Covered(p, n - 1, before)
    requires before <= after && p.Length(n - 1) <= SAFE_LENGTH
    requires if p.pack == Dense then before + p.Aligned(n - 1) <= after
             else p.entries[n - 1].vromStart + p.Aligned(n - 1) <= after
    ensures Covered(p, n, after)
  {
    assert p.Start(n - 1) + p.Aligned(n - 1) <= after;
    WrapFits(p.Start(n - 1) + p.Aligned(n - 1));
    assert UnwrappedAt(p, n - 1);
  }

  lemma SkipsOne(p: Plan, n: nat, sum: nat)
    requires p.Valid() && 0 < n <= |p.entries| && !Live(p.entries[n - 1]) && Covered(p, n - 1, sum)
    ensures Covered(p, n, sum)
  {
  }

  // Whenever a bound is promised for a dense ROM, no position of the written one runs over, and
  // a buffer of that length is long enough exactly when the bound is not 0. It is 0 only where
  // padding has been asked for on top of more than 2^31 bytes.
  lemma DenseBoundIsSound(p: Plan, c: Codec, v: RomView, pad: Pad, bound: u32)
    requires Promised(p, c, v) && p.pack == Dense
    requires WriteBoundOf(c, v, p.entries, Options(Dense, pad)) == Success(bound)
    ensures Unwrapped(p)
    ensures Roomy(p, pad, bound) <==> bound > 0
    ensures bound == 0 ==> pad != NoPad && SumBound(c, v, p.entries, |p.entries|).value > 0x8000_0000
    ensures bound > 0 ==> p.Size() + |Padding(p.Size(), pad)| <= bound
  {
    var sum := SumBound(c, v, p.entries, |p.entries|).value;
    SumCovers(p, c, v, |p.entries|);
    FileWithinSize(p, 0);
    DenseTableWithin(p);
    if pad != NoPad && sum <= 0x8000_0000 {
      CeilPow2IsLeast(sum, 0);
      PaddedSize(p.Size(), sum);
    }
    if bound > 0 {
      FilesFitSize(p, bound);
    }
  }

  // What is padded to is within what the bound is rounded up to.
  lemma PaddedSize(size: u32, sum: u32)
    requires 1 <= size <= sum <= 0x8000_0000
    ensures size <= CeilPow2(size) <= CeilPow2(sum)
  {
    CeilPow2IsLeast(size, 0);
    CeilPow2Monotone(size, sum);
  }

  lemma FilesFitSize(p: Plan, length: nat)
    requires Unwrapped(p) && p.Size() <= length
    ensures p.Fits(length, |p.entries|)
  {
    forall i | 0 <= i < |p.entries|
      ensures p.FitsAt(length, i)
    {
      if p.jobs[i].Put? {
        FileWithinSize(p, i);
      }
    }
  }

  // The table is written no further than the third file reaches.
  lemma DenseTableWithin(p: Plan)
    requires HeadCopied(p) && Unwrapped(p) && p.pack == Dense
    ensures p.entries[2].vromEnd <= p.Size() && p.entries[2].vromEnd == TablePosition(p) + ENTRY_SIZE * |p.entries|
  {
    DenseHead(p);
    FileWithinSize(p, 2);
  }

  /* Sparse packing */

  lemma {:induction false} MaxCovers(p: Plan, c: Codec, v: RomView, n: nat)
    requires Promised(p, c, v) && p.pack == Sparse && n <= |p.entries| && MaxBound(c, v, p.entries, n).Success?
    ensures Covered(p, n, MaxBound(c, v, p.entries, n).value)
  {
    if n > 0 {
      MaxCovers(p, c, v, n - 1);
      if Live(p.entries[n - 1]) {
        AlignedIsBounded(p, c, v, n - 1);
        CoversOne(p, n, MaxBound(c, v, p.entries, n - 1).value, MaxBound(c, v, p.entries, n).value);
      } else {
        SkipsOne(p, n, MaxBound(c, v, p.entries, n).value);
      }
    }
  }

  // Sizes up to this one are padded to no more than it: it is a power of two, or beyond them.
  predicate PadSafe(bound: u32, pad: Pad) {
    pad == NoPad || bound > 0x8000_0000 || CeilPow2(bound) == bound
  }

  lemma PaddedWithin(size: u32, bound: u32, pad: Pad)
    requires 1 <= size <= bound
    ensures PadSafe(bound, pad) ==> size + |Padding(size, pad)| <= bound
    ensures size == bound && !PadSafe(bound, pad) ==> size + |Padding(size, pad)| > bound
  {
    if pad != NoPad && size <= 0x8000_0000 {
      Pow2Of32();
      CeilPow2IsLeast(size, 31);
      if bound <= 0x8000_0000 {
        CeilPow2Monotone(size, bound);
      }
    }
  }

  // Whenever a bound is promised for a sparse ROM, no position of the written one runs over. The
  // bound leaves the padding out: a buffer of that length is long enough if there is none, or the
  // bound is a power of two or more than 2^31. Where the bound is not too large it has to be so.
  lemma SparseBoundIsSound(p: Plan, c: Codec, v: RomView, pad: Pad, bound: u32)
    requires Promised(p, c, v) && p.pack == Sparse
    requires WriteBoundOf(c, v, p.entries, Options(Sparse, pad)) == Success(bound)
    ensures Unwrapped(p) && 0 < p.Size() <= bound
    ensures Roomy(p, pad, bound) <==> p.Size() + |Padding(p.Size(), pad)| <= bound
    ensures PadSafe(bound, pad) ==> Roomy(p, pad, bound)
    ensures p.Size() == bound ==> (Roomy(p, pad, bound) <==> PadSafe(bound, pad))
  {
    MaxCovers(p, c, v, |p.entries|);
    FileWithinSize(p, 2);
    FilesFitSize(p, bound);
    PaddedWithin(p.Size(), bound, pad);
  }

  // Where the two bounds are sound, a write into a buffer of that length does not run out of room.
  lemma BoundIsEnough(p: Plan, c: Codec, v: RomView, pad: Pad, bound: u32,
        before: bytes, after: bytes, result: Code, romSize: nat)
    requires Promised(p, c, v) && NoneBad(p)
    requires WriteBoundOf(c, v, p.entries, Options(p.pack, pad)) == Success(bound)
    requires if p.pack == Dense then bound > 0 else PadSafe(bound, pad)
    requires |before| >= bound && RomWritten(p, pad, before, after, result, romSize)
    ensures result != OutOfRange
    ensures result == Ok ==> romSize <= bound
  {
    if p.pack == Dense {
      DenseBoundIsSound(p, c, v, pad, bound);
    } else {
      SparseBoundIsSound(p, c, v, pad, bound);
    }
    RoomInMore(p, pad, bound, |before|);
    CheckCodeErrors(Tabled(p, pad, before), p.Row(0));
  }

  lemma RoomInMore(p: Plan, pad: Pad, length: nat, more: nat)
    requires p.Valid() && |p.entries| > TABLE_INDEX && Roomy(p, pad, length) && length <= more
    ensures Roomy(p, pad, more)
  {
    forall i | 0 <= i < |p.entries|
      ensures p.FitsAt(more, i)
    {
      assert p.FitsAt(length, i);
    }
  }

  /* Padding a sparse ROM */

  // For a decompressed ROM the bound is the exact size without padding, so that a buffer of this
  // length takes the padded ROM only when there is nothing to pad.
  lemma DecompressBoundIsExact(p: Plan, c: Codec, v: RomView, o: nat, pad: Pad, bound: u32)
    requires DecompressedFrom(p, c, v, o) && p.pack == Sparse && Bounded(p, c, v)
    requires WriteBoundOf(c, v, p.entries, Options(Sparse, pad)) == Success(bound)
    ensures bound == p.Size() && |p.entries| > TABLE_INDEX
    ensures Roomy(p, pad, bound) <==> PadSafe(bound, pad)
  {
    PlanIsUnique(p, c, v, p.entries, Sparse);
    PlannedHead(c, v, o, p.entries, Sparse);
    SparseBoundIsSound(p, c, v, pad, bound);
    forall i | 0 <= i < |p.entries| && Live(p.entries[i])
      ensures ExactAt(p, c, v, i)
    {
      ExactLength(p, c, v, o, i);
    }
    ExactBounds(p, c, v, |p.entries|);
  }

  // What is decompressed, or copied from a stored file, is as long as its VROM range.
  lemma ExactBound(c: Codec, v: RomView, i: nat, e: LayoutEntry)
    requires Contract(c) && Readable(c, v) && i < |v.table| && Occupied(v.table[i])
    requires e == LayoutEntry(v.table[i].vromStart, v.table[i].vromEnd, DecompressOperation(v.table[i]), i)
    ensures e.vromStart <= e.vromEnd && EntryBound(c, v, e) == Success(e.vromEnd - e.vromStart)
  {
    assert ReadableAt(c, v, i);
    WrapFits(v.table[i].vromEnd - v.table[i].vromStart);
  }

  ghost predicate ExactAt(p: Plan, c: Codec, v: RomView, i: nat)
    requires p.Valid() && i < |p.entries|
  {
    p.Length(i) < TWO_32 && EntryBound(c, v, p.entries[i]) == Success(p.Length(i))
  }

  lemma ExactLength(p: Plan, c: Codec, v: RomView, o: nat, i: nat)
    requires DecompressedFrom(p, c, v, o) && i < |p.entries| && Live(p.entries[i])
    ensures ExactAt(p, c, v, i)
  {
    var e := LiveIsOccupied(p, c, v, o, i);
    ExactBound(c, v, i, e);
    ExactHere(p, c, v, i, e);
  }

  lemma ExactHere(p: Plan, c: Codec, v: RomView, i: nat, e: LayoutEntry)
    requires p.Valid() && i < |p.entries| && p.entries[i] == e && p.Length(i) == e.vromEnd - e.vromStart
    requires EntryBound(c, v, e) == Success(e.vromEnd - e.vromStart)
    ensures ExactAt(p, c, v, i)
  {
  }

  lemma LiveIsOccupied(p: Plan, c: Codec, v: RomView, o: nat, i: nat) returns (e: LayoutEntry)
    requires DecompressedFrom(p, c, v, o) && i < |p.entries| && Live(p.entries[i])
    ensures i < |v.table| && Occupied(v.table[i]) && p.entries[i] == e
    ensures e == LayoutEntry(v.table[i].vromStart, v.table[i].vromEnd, DecompressOperation(v.table[i]), i)
    ensures p.Length(i) == e.vromEnd - e.vromStart
  {
    e := p.entries[i];
    DecompressedJob(p, c, v, o, i);
  }

  // Where every file is exactly as long as its bound, the bound is the size.
  lemma {:induction false} ExactBounds(p: Plan, c: Codec, v: RomView, n: nat)
    requires Unwrapped(p) && n <= |p.entries|
    requires forall i {:trigger ExactAt(p, c, v, i)} :: 0 <= i < n && Live(p.entries[i]) ==> ExactAt(p, c, v, i)
    ensures (if p.pack == Sparse then MaxBound(c, v, p.entries, n) else SumBound(c, v, p.entries, n)) == Success(p.RomSize(n))
  {
    if n == 0 {
    } else {
      ExactBounds(p, c, v, n - 1);
      if Live(p.entries[n - 1]) {
        assert ExactAt(p, c, v, n - 1);
        OneExact(p, c, v, n - 1);
      }
    }
  }

  lemma OneExact(p: Plan, c: Codec, v: RomView, i: nat)
    requires Unwrapped(p) && i < |p.entries| && Live(p.entries[i]) && ExactAt(p, c, v, i)
    ensures var e, end := p.entries[i], p.Start(i) + p.Aligned(i);
      && Grown(p.Start(i), EntryBound(c, v, e).value) == Success(end)
      && p.RomSize(i + 1) == (if end > p.RomSize(i) then end else p.RomSize(i))
      && (p.pack == Dense ==> p.Start(i) == p.RomSize(i) <= p.RomSize(i + 1) == end)
  {
    CursorIsExact(p, i);
    assert UnwrappedAt(p, i);
    WrapFits(p.Length(i));
    if p.pack == Dense {
      DenseTiles(p, i);
      DenseTiles(p, i + 1);
    }
  }

  // So no bound is larger than it has to be: it is attained, before it is rounded up for padding.
  lemma BoundIsAttained(p: Plan, c: Codec, v: RomView, pad: Pad)
    requires Unwrapped(p)
    requires forall i {:trigger ExactAt(p, c, v, i)} :: 0 <= i < |p.entries| && Live(p.entries[i]) ==> ExactAt(p, c, v, i)
    ensures WriteBoundOf(c, v, p.entries, Options(p.pack, pad))
         == Success(if p.pack == Sparse || pad == NoPad then p.Size() else CeilPow2(p.Size()))
  {
    ExactBounds(p, c, v, |p.entries|);
  }

  // The dense bound of a decompressed ROM is its size, or what that is padded to.
  lemma DenseDecompressBoundIsExact(p: Plan, c: Codec, v: RomView, o: nat, pad: Pad)
    requires DecompressedFrom(p, c, v, o) && p.pack == Dense && Unwrapped(p)
    ensures WriteBoundOf(c, v, p.entries, Options(Dense, pad)) == Success(if pad == NoPad then p.Size() else CeilPow2(p.Size()))
  {
    forall i | 0 <= i < |p.entries| && Live(p.entries[i])
      ensures ExactAt(p, c, v, i)
    {
      ExactLength(p, c, v, o, i);
    }
    BoundIsAttained(p, c, v, pad);
  }

  /* What a bound is made of */

  // The entries that are written at all.
  function LiveOnly(entries: seq<LayoutEntry>): (live: seq<LayoutEntry>)
    ensures forall e :: e in live ==> e.operation != Delete && e.vromStart != e.vromEnd && e in entries
    ensures forall e :: e in entries && e.operation != Delete && e.vromStart != e.vromEnd ==> e in live
  {
    if entries == [] then []
    else LiveOnly(entries[..|entries| - 1]) + if Live(entries[|entries| - 1]) then [entries[|entries| - 1]] else []
  }

  lemma {:induction false} SumOfPrefix(c: Codec, v: RomView, entries: seq<LayoutEntry>, more: seq<LayoutEntry>, n: nat)
    requires n <= |entries|
    ensures SumBound(c, v, entries + more, n) == SumBound(c, v, entries, n)
    ensures MaxBound(c, v, entries + more, n) == MaxBound(c, v, entries, n)
  {
    if n == 0 {
    } else {
      SumOfPrefix(c, v, entries, more, n - 1);
    }
  }

  // Neither a deleted nor an empty entry makes a difference to a bound or its error.
  lemma {:induction false} OnlyLiveCount(c: Codec, v: RomView, entries: seq<LayoutEntry>)
    ensures SumBound(c, v, entries, |entries|) == SumBound(c, v, LiveOnly(entries), |LiveOnly(entries)|)
    ensures MaxBound(c, v, entries, |entries|) == MaxBound(c, v, LiveOnly(entries), |LiveOnly(entries)|)
  {
    if entries == [] {
    } else {
      var first, last := entries[..|entries| - 1], entries[|entries| - 1];
      OnlyLiveCount(c, v, first);
      LastCounts(c, v, first, LiveOnly(first), last);
      assert entries == first + [last];
      assert LiveOnly(entries) == if Live(last) then LiveOnly(first) + [last] else LiveOnly(first);
    }
  }

  lemma LastCounts(c: Codec, v: RomView, some: seq<LayoutEntry>, live: seq<LayoutEntry>, e: LayoutEntry)
    requires SumBound(c, v, some, |some|) == SumBound(c, v, live, |live|)
    requires MaxBound(c, v, some, |some|) == MaxBound(c, v, live, |live|)
    ensures var next := if Live(e) then live + [e] else live;
      && SumBound(c, v, some + [e], |some| + 1) == SumBound(c, v, next, |next|)
      && MaxBound(c, v, some + [e], |some| + 1) == MaxBound(c, v, next, |next|)
  {
    SumOfPrefix(c, v, some, [e], |some|);
    SumOfPrefix(c, v, live, [e], |live|);
  }

  // What is copied or compressed is what the file takes up in the ROM: its VROM range if it is
  // stored, and its extent if it is compressed.
  lemma EntryBoundIsExtent(c: Codec, v: RomView, e: LayoutEntry)
    requires e.index < |v.table| && StatOf(c, v, e.index).Success?
    ensures var dma := v.table[e.index];
      var size := if dma.romEnd == 0 then dma.vromEnd - dma.vromStart else dma.romEnd - dma.romStart;
      && size >= 0
      && (e.operation == Copy ==> EntryBound(c, v, e) == Success(size))
      && (e.operation == Compress ==>
           EntryBound(c, v, e) == if c.bound(size) < 0xFFFF_FFFF then Success(c.bound(size)) else Failure(OutOfRange))
  {
  }

  // What is decompressed is bounded by its VROM range, in 32 bits.
  lemma EntryBoundIsRange(c: Codec, v: RomView, e: LayoutEntry)
    requires e.operation == Decompress
    ensures EntryBound(c, v, e).Success?
    ensures EntryBound(c, v, e).value ==
      if e.vromStart <= e.vromEnd then e.vromEnd - e.vromStart else 0x1_0000_0000 - (e.vromStart - e.vromEnd)
  {
  }

  // The total of the aligned bounds of the first n entries, whatever its size.
  function Summed(c: Codec, v: RomView, entries: seq<LayoutEntry>, n: nat): nat
    requires n <= |entries|
  {
    if n == 0 then 0
    else Summed(c, v, entries, n - 1) + if Counts(c, v, entries[n - 1]) then AlignedBound(c, v, entries[n - 1]) else 0
  }

  predicate Counts(c: Codec, v: RomView, e: LayoutEntry) { Live(e) && EntryBound(c, v, e).Success? }

  function AlignedBound(c: Codec, v: RomView, e: LayoutEntry): u32
    requires EntryBound(c, v, e).Success?
  {
    Align16(EntryBound(c, v, e).value)
  }

  // What stops a bound at entry i: its own error, or an end above 32 bits.
  ghost predicate Stops(c: Codec, v: RomView, e: LayoutEntry, end: nat, code: Code) {
    Live(e) && (EntryBound(c, v, e) == Failure(code) || (EntryBound(c, v, e).Success? && end > UINT32_MAX && code == OutOfRange))
  }

  // The dense bound is that total, or the error at the first entry that has none or is too much.
  lemma {:induction false} SumIsTotal(c: Codec, v: RomView, entries: seq<LayoutEntry>, n: nat)
    requires n <= |entries|
    ensures match SumBound(c, v, entries, n)
      case Success(b) => b == Summed(c, v, entries, n) && forall i :: 0 <= i < n && Live(entries[i]) ==> EntryBound(c, v, entries[i]).Success?
      case Failure(code) =>
        exists i :: 0 <= i < n && SumBound(c, v, entries, i).Success? && Stops(c, v, entries[i], Summed(c, v, entries, i + 1), code)
  {
    if n == 0 {
    } else {
      SumIsTotal(c, v, entries, n - 1);
      if SumBound(c, v, entries, n - 1).Success? && SumBound(c, v, entries, n).Failure? {
        assert Stops(c, v, entries[n - 1], Summed(c, v, entries, n), SumBound(c, v, entries, n).error);
      }
    }
  }

  function EndBound(c: Codec, v: RomView, e: LayoutEntry): nat
    requires EntryBound(c, v, e).Success?
  {
    e.vromStart + AlignedBound(c, v, e)
  }

  // The sparse bound is the furthest end, which some file has, or the error at the first entry that
  // has none or ends too far out.
  lemma {:induction false} MaxIsFurthest(c: Codec, v: RomView, entries: seq<LayoutEntry>, n: nat)
    requires n <= |entries|
    ensures match MaxBound(c, v, entries, n)
      case Success(b) =>
        && (forall i :: 0 <= i < n && Live(entries[i]) ==> EntryBound(c, v, entries[i]).Success? && EndBound(c, v, entries[i]) <= b)
        && (b == 0 || exists i :: 0 <= i < n && Counts(c, v, entries[i]) && EndBound(c, v, entries[i]) == b)
      case Failure(code) =>
        exists i :: 0 <= i < n && MaxBound(c, v, entries, i).Success?
          && Stops(c, v, entries[i], if EntryBound(c, v, entries[i]).Success? then EndBound(c, v, entries[i]) else 0, code)
  {
    if n == 0 {
    } else {
      MaxIsFurthest(c, v, entries, n - 1);
      if MaxBound(c, v, entries, n - 1).Success? && MaxBound(c, v, entries, n).Failure? {
        assert Live(entries[n - 1]);
      }
    }
  }
}
