/**
 Writing a ROM from a layout (lib/layout_write.c), proved against Plan.
 */
module Write {
  import opened Bytes
  import opened Wrappers
  import opened Io
  import opened Dma
  import opened Yaz0
  import opened Rom
  import opened Layout
  import opened Plan
  import opened Pump
  import opened Cic

  const WRITE_COUNT: nat := 128

  /* One file */

  // copy_entry, compress_entry and decompress_entry
  method WriteEntry(out: Buffer, position: u32, c: Codec, rom: OpenRom, e: LayoutEntry, error: Error)
    returns (bytesOut: nat, ghost job: Job)
    requires Contract(c) && error.result == Ok && out.data != rom.io.data && Live(e)
    modifies out.data, error
    ensures JobFits(c, rom.View(), e, job)
    ensures Done(old(out.Bytes()), out.Bytes(), position, job, error.result, bytesOut)
  {
    match e.operation {
      case Copy => bytesOut, job := CopyRomFile(out, position, c, rom, e.index, error);
      case Compress => bytesOut, job := CompressRomFile(out, position, c, rom, e.index, error);
      case Decompress => bytesOut, job := DecompressRomFile(out, position, c, rom, e.index, error);
    }
  }

  /* All files */

  // A plan that a layout may amount to: there is one for everything that may be read of extents
  // that reach out of the source ROM.
  ghost predicate PlanOf(p: Plan, c: Codec, v: RomView, entries: seq<LayoutEntry>, pack: Pack) {
    && p.pack == pack && p.entries == entries && |p.jobs| == |entries|
    && forall i {:trigger JobFits(c, v, entries[i], p.jobs[i])} :: 0 <= i < |entries| ==> JobFits(c, v, entries[i], p.jobs[i])
  }

  lemma PlanOfIsValid(p: Plan, c: Codec, v: RomView, entries: seq<LayoutEntry>, pack: Pack)
    requires PlanOf(p, c, v, entries, pack)
    ensures p.Valid()
  {
    forall i | 0 <= i < |entries| && !Live(entries[i])
      ensures p.jobs[i] == Skip
    {
      assert JobFits(c, v, entries[i], p.jobs[i]);
    }
  }

  // The one plan when all extents lie in the source ROM.
  ghost function PlanFor(c: Codec, v: RomView, entries: seq<LayoutEntry>, pack: Pack): (p: Plan)
    requires AllReachable(c, v, entries)
    ensures p.Valid()
  {
    Plan(pack, entries, Jobs(c, v, entries))
  }

  lemma PlanIsUnique(p: Plan, c: Codec, v: RomView, entries: seq<LayoutEntry>, pack: Pack)
    requires AllReachable(c, v, entries)
    ensures PlanOf(p, c, v, entries, pack) <==> p == PlanFor(c, v, entries, pack)
  {
    var jobs := Jobs(c, v, entries);
    forall i | 0 <= i < |entries|
      ensures JobFits(c, v, entries[i], jobs[i])
      ensures PlanOf(p, c, v, entries, pack) ==> p.jobs[i] == jobs[i]
    {
      OnlyJob(c, v, entries[i], jobs[i]);
      if PlanOf(p, c, v, entries, pack) {
        OnlyJob(c, v, entries[i], p.jobs[i]);
      }
    }
  }

  lemma OnlyJob(c: Codec, v: RomView, e: LayoutEntry, job: Job)
    requires Live(e) ==> Reachable(c, v, e)
    ensures JobFits(c, v, e, job) <==> job == JobOf(c, v, e)
  {
    if Live(e) {
      ReachableFits(c, v, e, job);
    }
  }

  ghost predicate NoneBad(p: Plan) {
    forall i {:trigger BadAt(p, i)} :: 0 <= i < |p.jobs| ==> !BadAt(p, i)
  }

  predicate BadAt(p: Plan, i: nat)
    requires i < |p.jobs|
  {
    p.jobs[i].Bad?
  }

  // The state of the writing loop before entry i.
  ghost predicate Placed(p: Plan, before: bytes, now: bytes, i: nat, position: nat, romSize: nat, table: seq<Dma>) {
    && p.Valid() && i <= |p.entries| && i <= |table|
    && FilesDone(p, before, now, i)
    && position == p.Position(i) && romSize == p.RomSize(i)
    && Tabulated(p, table, i)
  }

  ghost predicate FilesDone(p: Plan, before: bytes, now: bytes, i: nat)
    requires p.Valid() && i <= |p.entries|
  {
    && (forall k {:trigger BadAt(p, k)} :: 0 <= k < i ==> !BadAt(p, k))
    && p.Fits(|before|, i) && now == p.Image(before, i)
  }

  ghost predicate Tabulated(p: Plan, table: seq<Dma>, i: nat)
    requires p.Valid() && i <= |p.entries| && i <= |table|
  {
    forall k :: 0 <= k < i ==> table[k] == p.Row(k)
  }

  // The writing loop of write_rom
  method WriteFiles(out: Buffer, c: Codec, rom: OpenRom, entries: seq<LayoutEntry>, pack: Pack, error: Error)
    returns (dmadata: array<Dma>, romSize: u32, ghost p: Plan)
    requires Contract(c) && error.result == Ok && out.data != rom.io.data
    modifies out.data, error
    ensures fresh(dmadata) && dmadata.Length == |entries|
    ensures p.Valid() && PlanOf(p, c, rom.View(), entries, pack)
    ensures FilesWritten(p, old(out.Bytes()), out.Bytes(), error.result, dmadata[..], romSize)
  {
    ghost var before, v := out.Bytes(), rom.View();
    p := SomePlan(c, v, entries, pack);
    dmadata := new Dma[|entries|];
    var position: u32;
    position, romSize := 0, 0;
    var i := 0;
    while i < |entries|
      invariant i <= |entries| && error.result == Ok && PlanOf(p, c, v, entries, pack)
      invariant Placed(p, before, out.Bytes(), i, position, romSize, dmadata[..])
    {
      var row;
      row, position, romSize, p :=
        WriteRow(out, c, rom, entries[i], pack, position, romSize, error, p, entries, i, before, dmadata[..]);
      if error.result != Ok {
        StopsThere(p, |before|, i, error.result);
        return;
      }
      ghost var rows := dmadata[..];
      dmadata[i] := row;
      assert dmadata[..] == rows[i := row];
      i := i + 1;
    }
  }

  lemma SomePlan(c: Codec, v: RomView, entries: seq<LayoutEntry>, pack: Pack) returns (p: Plan)
    ensures PlanOf(p, c, v, entries, pack) && p.Valid()
  {
    p := Plan(pack, entries, seq(|entries|, i requires 0 <= i < |entries| => SomeJob(c, v, entries[i])));
    forall i | 0 <= i < |entries|
      ensures JobFits(c, v, entries[i], p.jobs[i])
    {
      SomeJobFits(c, v, entries[i]);
    }
  }

  ghost function SomeJob(c: Codec, v: RomView, e: LayoutEntry): Job {
    if !Live(e) then Skip
    else
      match StatOf(c, v, e.index)
      case Failure(code) => Bad(code)
      case Success(st) => JobFor(c, e.operation, st, Complete(v.image, st, []))
  }

  lemma SomeJobFits(c: Codec, v: RomView, e: LayoutEntry)
    ensures JobFits(c, v, e, SomeJob(c, v, e))
  {
    if StatOf(c, v, e.index).Success? {
      CompleteIsFetched(v.image, StatOf(c, v, e.index).value, []);
    }
  }

  // How the loop leaves the output.
  ghost predicate FilesWritten(p: Plan, before: bytes, after: bytes, result: Code, table: seq<Dma>, romSize: nat)
    requires p.Valid()
  {
    && (result == Ok <==> NoneBad(p) && p.Fits(|before|, |p.entries|))
    && (result != Ok ==> StoppedBy(p, |before|, result))
    && (result == Ok ==> table == p.Table() && romSize == p.Size() && after == p.Image(before, |p.entries|))
  }

  // The first file that cannot be had or does not fit gives the error.
  ghost predicate StoppedBy(p: Plan, length: nat, result: Code)
    requires p.Valid()
  {
    exists i {:trigger StopsAt(p, length, i, result)} :: 0 <= i < |p.entries| && StopsAt(p, length, i, result)
  }

  ghost predicate StopsAt(p: Plan, length: nat, i: nat, result: Code)
    requires p.Valid() && i < |p.entries|
  {
    && Stuck(p, length, i) && Reason(p, i, result)
    && forall k {:trigger Stuck(p, length, k)} :: 0 <= k < i ==> !Stuck(p, length, k)
  }

  ghost predicate Stuck(p: Plan, length: nat, i: nat)
    requires p.Valid() && i < |p.entries|
  {
    BadAt(p, i) || !p.FitsAt(length, i)
  }

  // A file that does not fit is out of range; what can not be had of another has its own error, but
  // for one that does not decompress, of which too much may come before that shows.
  ghost predicate Reason(p: Plan, i: nat, result: Code)
    requires p.Valid() && i < |p.entries|
  {
    match p.jobs[i]
    case Put(_) => result == OutOfRange
    case Bad(code) => result == code || (code == DecompressError && result == OutOfRange)
    case Skip => false
  }

  lemma FirstToStop(p: Plan, before: bytes, now: bytes, i: nat, result: Code)
    requires p.Valid() && i < |p.entries| && FilesDone(p, before, now, i)
    requires Stuck(p, |before|, i) && Reason(p, i, result)
    ensures StopsAt(p, |before|, i, result)
  {
    forall k | 0 <= k < i
      ensures !Stuck(p, |before|, k)
    {
      assert p.FitsAt(|before|, k) && !BadAt(p, k);
    }
  }

  lemma StopsThere(p: Plan, length: nat, i: nat, result: Code)
    requires p.Valid() && i < |p.entries| && StopsAt(p, length, i, result)
    ensures StoppedBy(p, length, result) && !(NoneBad(p) && p.Fits(length, |p.entries|))
  {
    assert BadAt(p, i) || !p.FitsAt(length, i);
  }

  // One round of the loop: the entry is written, and its row, the cursor and the size worked out.
  // What was read of it becomes part of the plan.
  method WriteRow(out: Buffer, c: Codec, rom: OpenRom, e: LayoutEntry, pack: Pack, position: u32, romSize: u32, error: Error,
      ghost p: Plan, ghost entries: seq<LayoutEntry>, ghost i: nat, ghost before: bytes, ghost table: seq<Dma>)
    returns (row: Dma, position': u32, romSize': u32, ghost p': Plan)
    requires Contract(c) && error.result == Ok && out.data != rom.io.data
    requires i < |entries| && entries[i] == e && i < |table| && PlanOf(p, c, rom.View(), entries, pack)
    requires Placed(p, before, out.Bytes(), i, position, romSize, table)
    modifies out.data, error
    ensures PlanOf(p', c, rom.View(), entries, pack) && p'.Valid()
    ensures if error.result == Ok then Placed(p', before, out.Bytes(), i + 1, position', romSize', table[i := row])
            else StopsAt(p', |before|, i, error.result)
  {
    position', romSize', p' := position, romSize, p;
    if e.operation == Delete {
      row := Dma(e.vromStart, e.vromEnd, UINT32_MAX, UINT32_MAX);
      SkippedRow(p, i, before, out.Bytes(), position, romSize, table);
    } else if e.vromStart == e.vromEnd {
      row := Dma(0, 0, 0, 0);
      SkippedRow(p, i, before, out.Bytes(), position, romSize, table);
    } else {
      row, position', romSize', p' :=
        WriteLiveRow(out, c, rom, e, pack, position, romSize, error, p, entries, i, before, table);
    }
  }

  method WriteLiveRow(out: Buffer, c: Codec, rom: OpenRom, e: LayoutEntry, pack: Pack, position: u32, romSize: u32,
      error: Error, ghost p: Plan, ghost entries: seq<LayoutEntry>, ghost i: nat, ghost before: bytes, ghost table: seq<Dma>)
    returns (row: Dma, position': u32, romSize': u32, ghost p': Plan)
    requires Contract(c) && error.result == Ok && out.data != rom.io.data && Live(e)
    requires i < |entries| && entries[i] == e && i < |table| && PlanOf(p, c, rom.View(), entries, pack)
    requires Placed(p, before, out.Bytes(), i, position, romSize, table)
    modifies out.data, error
    ensures PlanOf(p', c, rom.View(), entries, pack) && p'.Valid()
    ensures if error.result == Ok then Placed(p', before, out.Bytes(), i + 1, position', romSize', table[i := row])
            else StopsAt(p', |before|, i, error.result)
  {
    ghost var now := out.Bytes();
    var romStart := if pack == Sparse then e.vromStart else position;
    var bytesOut;
    ghost var job;
    bytesOut, job := WriteEntry(out, romStart, c, rom, e, error);
    row, position', romSize' := NextRow(e, romStart, romSize, bytesOut);
    p' := RowDone(p, c, rom.View(), entries, pack, i, job, before, now, out.Bytes(), position, romSize, table,
      error.result, bytesOut, row, position', romSize');
  }

  // The row of a file that has been written, and how far the output goes with it.
  method NextRow(e: LayoutEntry, romStart: u32, romSize: u32, bytesOut: nat)
    returns (row: Dma, position': u32, romSize': u32)
    ensures IsNext(e, romStart, romSize, bytesOut, row, position', romSize')
  {
    var size := Align16(Wrap(bytesOut));
    var romEnd := if e.operation == Compress then Wrap(romStart + size) else 0;
    row := Dma(e.vromStart, e.vromEnd, romStart, romEnd);
    position' := Wrap(romStart + size);
    romSize' := if position' > romSize then position' else romSize;
  }

  ghost predicate IsNext(e: LayoutEntry, romStart: u32, romSize: nat, n: nat, row: Dma, position': u32, romSize': nat) {
    && position' == Wrap(romStart + Align16(Wrap(n)))
    && romSize' == (if position' > romSize then position' else romSize)
    && row == Dma(e.vromStart, e.vromEnd, romStart, if e.operation == Compress then position' else 0)
  }

  // The plan goes on with what has been read of entry i, and the state with its row.
  lemma RowDone(p: Plan, c: Codec, v: RomView, entries: seq<LayoutEntry>, pack: Pack, i: nat, job: Job,
      before: bytes, now: bytes, after: bytes, position: nat, romSize: nat, table: seq<Dma>, result: Code, n: nat,
      row: Dma, position': u32, romSize': u32)
    returns (q: Plan)
    requires PlanOf(p, c, v, entries, pack) && i < |entries| && JobFits(c, v, entries[i], job) && Live(entries[i])
    requires Placed(p, before, now, i, position, romSize, table) && i < |table|
    requires Done(now, after, p.Start(i), job, result, n)
    requires IsNext(entries[i], p.Start(i), romSize, n, row, position', romSize')
    ensures PlanOf(q, c, v, entries, pack) && q.Valid()
    ensures if result == Ok then Placed(q, before, after, i + 1, position', romSize', table[i := row])
            else StopsAt(q, |before|, i, result)
  {
    q := NextPlan(p, c, v, entries, pack, i, job, before, now, position, romSize, table);
    LiveRow(q, i, before, now, after, position, romSize, table, result, n);
    NextCursor(q, i);
  }

  lemma NextCursor(p: Plan, i: nat)
    requires p.Valid() && i < |p.entries| && Live(p.entries[i])
    ensures IsNext(p.entries[i], p.Start(i), p.RomSize(i), p.Length(i), p.Row(i), p.Position(i + 1), p.RomSize(i + 1))
  {
  }

  // The plan with what has been read of entry i.
  lemma NextPlan(p: Plan, c: Codec, v: RomView, entries: seq<LayoutEntry>, pack: Pack, i: nat, job: Job,
      before: bytes, now: bytes, position: nat, romSize: nat, table: seq<Dma>)
    returns (q: Plan)
    requires PlanOf(p, c, v, entries, pack) && i < |entries| && JobFits(c, v, entries[i], job)
    requires Placed(p, before, now, i, position, romSize, table)
    ensures PlanOf(q, c, v, entries, pack) && q.Valid() && q.jobs[i] == job
    ensures Placed(q, before, now, i, position, romSize, table) && q.Start(i) == p.Start(i)
  {
    q := WithJob(p, c, v, entries, pack, i, job);
    PlacedWithJob(p, q, before, now, i, position, romSize, table);
    SamePlace(p, q, i);
  }

  lemma WithJob(p: Plan, c: Codec, v: RomView, entries: seq<LayoutEntry>, pack: Pack, i: nat, job: Job) returns (q: Plan)
    requires PlanOf(p, c, v, entries, pack) && i < |entries| && JobFits(c, v, entries[i], job)
    ensures PlanOf(q, c, v, entries, pack) && q.Valid() && q.jobs[i] == job && Agree(p, q, i)
  {
    q := p.(jobs := p.jobs[i := job]);
    forall k | 0 <= k < |entries|
      ensures JobFits(c, v, entries[k], q.jobs[k])
    {
      assert JobFits(c, v, entries[k], p.jobs[k]);
    }
    PlanOfIsValid(q, c, v, entries, pack);
  }

  /* The first files do not depend on the others */

  ghost predicate Agree(p: Plan, q: Plan, n: nat) {
    && p.pack == q.pack && p.entries == q.entries && |p.jobs| == |q.jobs| && n <= |p.jobs|
    && forall k :: 0 <= k < n ==> p.jobs[k] == q.jobs[k]
  }

  lemma {:induction false} SamePlace(p: Plan, q: Plan, n: nat)
    requires p.Valid() && q.Valid() && Agree(p, q, n)
    ensures p.Position(n) == q.Position(n) && p.RomSize(n) == q.RomSize(n)
    ensures n < |p.entries| ==> p.Start(n) == q.Start(n)
  {
    if n == 0 {
    } else {
      SamePlace(p, q, n - 1);
    }
  }

  lemma {:induction false} SameImage(p: Plan, q: Plan, buffer: bytes, n: nat)
    requires p.Valid() && q.Valid() && Agree(p, q, n) && p.Fits(|buffer|, n)
    ensures q.Fits(|buffer|, n) && p.Image(buffer, n) == q.Image(buffer, n)
  {
    if n == 0 {
    } else {
      SameImage(p, q, buffer, n - 1);
      SamePlace(p, q, n - 1);
      assert p.FitsAt(|buffer|, n - 1);
      FitsOneMore(q, |buffer|, n - 1);
    }
  }

  lemma FitsOneMore(p: Plan, length: nat, i: nat)
    requires p.Valid() && i < |p.entries| && p.Fits(length, i) && p.FitsAt(length, i)
    ensures p.Fits(length, i + 1)
  {
  }

  lemma PlacedWithJob(p: Plan, q: Plan, before: bytes, now: bytes, i: nat, position: nat, romSize: nat, table: seq<Dma>)
    requires q.Valid() && Agree(p, q, i) && Placed(p, before, now, i, position, romSize, table)
    ensures Placed(q, before, now, i, position, romSize, table)
  {
    SamePlace(p, q, i);
    SameImage(p, q, before, i);
    forall k | 0 <= k < i
      ensures !BadAt(q, k) && table[k] == q.Row(k)
    {
      assert !BadAt(p, k);
      SameRow(p, q, k);
    }
  }

  lemma SameRow(p: Plan, q: Plan, k: nat)
    requires p.Valid() && q.Valid() && Agree(p, q, k + 1)
    ensures p.Row(k) == q.Row(k)
  {
    SamePlace(p, q, k);
  }

  /* One row */

  lemma LiveRow(p: Plan, i: nat, before: bytes, now: bytes, after: bytes, position: nat, romSize: nat, table: seq<Dma>,
      result: Code, n: nat)
    requires Placed(p, before, now, i, position, romSize, table) && i < |p.entries| && i < |table| && Live(p.entries[i])
    requires Done(now, after, p.Start(i), p.jobs[i], result, n)
    ensures result == Ok ==>
      n == p.Length(i) && Placed(p, before, after, i + 1, p.Position(i + 1), p.RomSize(i + 1), table[i := p.Row(i)])
    ensures result != Ok ==> StopsAt(p, |before|, i, result)
  {
    if result == Ok {
      if p.jobs[i].Put? {
        FileLanded(p, i, before, now, p.jobs[i].data);
      } else {
        FileLeftOut(p, i, before, now);
      }
      OneRowMore(p, table, i);
    } else {
      FirstToStop(p, before, now, i, result);
    }
  }

  lemma SkippedRow(p: Plan, i: nat, before: bytes, now: bytes, position: nat, romSize: nat, table: seq<Dma>)
    requires Placed(p, before, now, i, position, romSize, table) && i < |p.entries| && i < |table| && !Live(p.entries[i])
    ensures Placed(p, before, now, i + 1, position, romSize, table[i := p.Row(i)])
  {
    FileLeftOut(p, i, before, now);
    OneRowMore(p, table, i);
  }

  lemma FileLanded(p: Plan, i: nat, before: bytes, now: bytes, d: bytes)
    requires p.Valid() && i < |p.entries| && FilesDone(p, before, now, i)
    requires p.jobs[i] == Put(d) && p.Start(i) + |d| <= |before|
    ensures FilesDone(p, before, Splice(now, p.Start(i), d), i + 1)
  {
    ImageWith(p, i, before, d);
  }

  lemma ImageWith(p: Plan, i: nat, before: bytes, d: bytes)
    requires p.Valid() && i < |p.entries| && p.Fits(|before|, i)
    requires p.jobs[i] == Put(d) && p.Start(i) + |d| <= |before|
    ensures p.Fits(|before|, i + 1) && p.Image(before, i + 1) == Splice(p.Image(before, i), p.Start(i), d)
  {
    assert p.Length(i) == |d|;
  }

  lemma FileLeftOut(p: Plan, i: nat, before: bytes, now: bytes)
    requires p.Valid() && i < |p.entries| && FilesDone(p, before, now, i) && p.jobs[i] == Skip
    ensures FilesDone(p, before, now, i + 1)
  {
    ImageWithout(p, i, before);
  }

  lemma ImageWithout(p: Plan, i: nat, before: bytes)
    requires p.Valid() && i < |p.entries| && p.Fits(|before|, i) && !p.jobs[i].Put?
    ensures p.Fits(|before|, i + 1) && p.Image(before, i + 1) == p.Image(before, i)
  {
  }

  lemma OneRowMore(p: Plan, table: seq<Dma>, i: nat)
    requires p.Valid() && i < |p.entries| && i < |table| && Tabulated(p, table, i)
    ensures Tabulated(p, table[i := p.Row(i)], i + 1)
  {
  }

  /* Padding */

  ghost predicate IsPad(b: bytes, from: nat, pad: Pad) {
    forall k {:trigger PadAt(b, from, pad, k)} :: 0 <= k < |b| ==> PadAt(b, from, pad, k)
  }

  ghost predicate PadAt(b: bytes, from: nat, pad: Pad, k: nat)
    requires k < |b|
  {
    b[k] == if pad == RampPad then (from + k) % 256 else 0
  }

  lemma PadOn(a: bytes, b: bytes, from: nat, pad: Pad)
    requires IsPad(a, from, pad) && IsPad(b, from + |a|, pad)
    ensures IsPad(a + b, from, pad)
  {
    forall k | 0 <= k < |a + b|
      ensures PadAt(a + b, from, pad, k)
    {
      assert if k < |a| then PadAt(a, from, pad, k) else PadAt(b, from + |a|, pad, k - |a|);
    }
  }

  lemma PadIs(b: bytes, from: nat, pad: Pad)
    requires IsPad(b, from, pad)
    ensures b == PadBytes(from, from + |b|, pad)
  {
    forall k | 0 <= k < |b|
      ensures b[k] == PadBytes(from, from + |b|, pad)[k]
    {
      assert PadAt(b, from, pad, k);
    }
  }

  method FillChunk(chunk: array<byte>, offset: nat, want: nat, pad: Pad)
    requires want <= chunk.Length
    modifies chunk
    ensures IsPad(chunk[..want], offset, pad)
  {
    var i := 0;
    while i < want
      invariant i <= want
      invariant forall k :: 0 <= k < i ==> chunk[k] == if pad == RampPad then (offset + k) % 256 else 0
    {
      chunk[i] := if pad == RampPad then (offset + i) % 256 else 0;
      i := i + 1;
    }
  }

  // How the output is left by a step that writes `part` at a position, if there is anything to write.
  ghost predicate Laid(before: bytes, after: bytes, position: nat, part: bytes, result: Code) {
    && |after| == |before|
    && (result == Ok <==> part == [] || position + |part| <= |before|)
    && (result == Ok ==> after == if part == [] then before else Splice(before, position, part))
    && (result != Ok ==> result == OutOfRange)
  }

  // pad_file
  method PadFile(out: Buffer, position: u32, pad: Pad, error: Error) returns (bytesOut: nat)
    requires error.result == Ok && pad != NoPad
    modifies out.data, error
    ensures Laid(old(out.Bytes()), out.Bytes(), position, Padding(position, pad), error.result)
    ensures bytesOut == if error.result == Ok then |Padding(position, pad)| else 0
  {
    var end := CeilPow2BySmearing(position);
    ghost var before, sofar: bytes := out.Bytes(), [];
    var chunk := new byte[CHUNK_SIZE];
    bytesOut := 0;
    while position + bytesOut < end
      invariant error.result == Ok && out.data.Length == |before|
      invariant bytesOut > 0 ==> position + bytesOut <= end
      invariant PadBegun(before, out.Bytes(), position, pad, bytesOut, sofar)
    {
      var n;
      n, sofar := PadNext(out, chunk, position, end, bytesOut, pad, error, before, sofar);
      if error.result != Ok {
        return 0;
      }
      bytesOut := bytesOut + n;
    }
    PadDone(before, out.Bytes(), position, pad, bytesOut, sofar);
  }

  lemma PadDone(before: bytes, now: bytes, position: u32, pad: Pad, n: nat, sofar: bytes)
    requires PadBegun(before, now, position, pad, n, sofar) && pad != NoPad
    requires CeilPow2(position) <= position + n && (n > 0 ==> position + n == CeilPow2(position))
    ensures Laid(before, now, position, Padding(position, pad), Ok) && n == |Padding(position, pad)|
  {
    PadIs(sofar, position, pad);
    assert sofar == Padding(position, pad);
  }

  ghost predicate PadBegun(before: bytes, now: bytes, position: nat, pad: Pad, n: nat, sofar: bytes) {
    |sofar| == n && IsPad(sofar, position, pad) && Begun(before, now, position, sofar)
  }

  method PadNext(out: Buffer, chunk: array<byte>, position: nat, end: nat, bytesOut: nat, pad: Pad, error: Error,
      ghost before: bytes, ghost sofar: bytes)
    returns (n: nat, ghost more: bytes)
    requires error.result == Ok && pad != NoPad && chunk != out.data && chunk.Length == CHUNK_SIZE
    requires position + bytesOut < end && PadBegun(before, out.Bytes(), position, pad, bytesOut, sofar)
    modifies out.data, chunk, error
    ensures out.data.Length == |before|
    ensures error.result == Ok ==>
      0 < n <= end - position - bytesOut && PadBegun(before, out.Bytes(), position, pad, bytesOut + n, more)
    ensures error.result != Ok ==> error.result == OutOfRange && end > |before|
  {
    var offset := position + bytesOut;
    var want := Min(end - offset, CHUNK_SIZE);
    FillChunk(chunk, offset, want, pad);
    PadOn(sofar, chunk[..want], position, pad);
    more := sofar + chunk[..want];
    n := WriteOn(out, chunk, want, position, bytesOut, error, before, sofar);
  }

  /* The table */

  // write_dmadata: 128 entries at a time
  method WriteDmadata(out: Buffer, position: nat, table: seq<Dma>, error: Error)
    requires error.result == Ok
    modifies out.data, error
    ensures Laid(old(out.Bytes()), out.Bytes(), position, PrintTable(table), error.result)
  {
    ghost var before := out.Bytes();
    var chunk := new byte[ENTRY_SIZE * WRITE_COUNT];
    var i := 0;
    TableStarts(before, position, table);
    while i < |table|
      invariant error.result == Ok && out.data.Length == |before|
      invariant TableBegun(before, out.Bytes(), position, table, i)
    {
      var have := WriteRows(out, chunk, position, table, i, error, before);
      if error.result != Ok {
        return;
      }
      i := i + have;
    }
    TableEnds(before, out.Bytes(), position, table);
  }

  lemma TableStarts(before: bytes, position: nat, table: seq<Dma>)
    ensures TableBegun(before, before, position, table, 0)
  {
    assert PrintTable(table[..0]) == [];
  }

  lemma TableEnds(before: bytes, now: bytes, position: nat, table: seq<Dma>)
    requires TableBegun(before, now, position, table, |table|)
    ensures Laid(before, now, position, PrintTable(table), Ok)
  {
    assert table[..|table|] == table;
  }

  ghost predicate TableBegun(before: bytes, now: bytes, position: nat, table: seq<Dma>, i: nat) {
    && i <= |table| && (i > 0 ==> position + ENTRY_SIZE * i <= |before|)
    && Begun(before, now, position, PrintTable(table[..i]))
  }

  method WriteRows(out: Buffer, chunk: array<byte>, position: nat, table: seq<Dma>, i: nat, error: Error, ghost before: bytes)
    returns (have: nat)
    requires error.result == Ok && chunk != out.data && chunk.Length == ENTRY_SIZE * WRITE_COUNT && i < |table|
    requires TableBegun(before, out.Bytes(), position, table, i)
    modifies out.data, chunk, error
    ensures 0 < have <= |table| - i && out.data.Length == |before|
    ensures error.result == Ok ==> TableBegun(before, out.Bytes(), position, table, i + have)
    ensures error.result != Ok ==> error.result == OutOfRange && position + |PrintTable(table)| > |before|
  {
    have := Min(|table| - i, WRITE_COUNT);
    PrintChunk(chunk, table[i..i + have]);
    PrintMore(table, i, have);
    var _ := WriteOn(out, chunk, ENTRY_SIZE * have, position, ENTRY_SIZE * i, error, before, PrintTable(table[..i]));
  }

  lemma PrintMore(table: seq<Dma>, i: nat, have: nat)
    requires i + have <= |table|
    ensures PrintTable(table[..i + have]) == PrintTable(table[..i]) + PrintTable(table[i..i + have])
  {
    assert table[..i + have] == table[..i] + table[i..i + have];
    PrintTableAppend(table[..i], table[i..i + have]);
  }

  method PrintChunk(chunk: array<byte>, entries: seq<Dma>)
    requires ENTRY_SIZE * |entries| <= chunk.Length
    modifies chunk
    ensures chunk[..ENTRY_SIZE * |entries|] == PrintTable(entries)
  {
    var j := 0;
    while j < |entries|
      invariant j <= |entries|
      invariant chunk[..ENTRY_SIZE * j] == PrintTable(entries[..j])
    {
      PrintEntry(chunk, ENTRY_SIZE * j, entries[j]);
      assert entries[..j + 1] == entries[..j] + [entries[j]];
      PrintTableAppend(entries[..j], [entries[j]]);
      PrintOne(entries[j]);
      j := j + 1;
    }
    assert entries[..|entries|] == entries;
  }

  method PrintEntry(p: array<byte>, at: nat, e: Dma)
    requires at + ENTRY_SIZE <= p.Length
    modifies p
    ensures p[..at + ENTRY_SIZE] == old(p[..at]) + Print(e)
  {
    ghost var was := p[..];
    WriteU32(p, at, e.vromStart);
    WriteU32(p, at + 4, e.vromEnd);
    WriteU32(p, at + 8, e.romStart);
    WriteU32(p, at + 12, e.romEnd);
    FourWords(was, at, e);
    assert p[..at + ENTRY_SIZE] == p[..][..at + ENTRY_SIZE];
  }

  lemma FourWords(was: bytes, at: nat, e: Dma)
    requires at + ENTRY_SIZE <= |was|
    ensures var a := Splice(was, at, BigEndian32(e.vromStart));
      var b := Splice(a, at + 4, BigEndian32(e.vromEnd));
      var c := Splice(b, at + 8, BigEndian32(e.romStart));
      Splice(c, at + 12, BigEndian32(e.romEnd))[..at + ENTRY_SIZE] == was[..at] + Print(e)
  {
    var w0, w1, w2, w3 :=
      BigEndian32(e.vromStart), BigEndian32(e.vromEnd), BigEndian32(e.romStart), BigEndian32(e.romEnd);
    SpliceAppend(was, at, w0, w1);
    SpliceAppend(was, at, w0 + w1, w2);
    SpliceAppend(was, at, w0 + w1 + w2, w3);
  }

  /* The whole ROM */

  // How write_rom leaves the output: it succeeds exactly when every file can be had and fits, the
  // padding and the table fit, and the image written so far has a check code.
  ghost predicate RomWritten(p: Plan, pad: Pad, before: bytes, after: bytes, result: Code, romSize: nat)
    requires p.Valid() && |p.entries| > TABLE_INDEX
  {
    if Writable(p, pad, before) then
      && result == Ok && CODE_AT + CODE_SIZE <= |before|
      && after == Finished(p, pad, before, CheckCodeOf(Tabled(p, pad, before), p.Row(0)).value)
      && romSize == p.Size() + |Padding(p.Size(), pad)|
    else
      result != Ok && FailsWith(p, pad, before, result)
  }

  // Files come first, then padding and table, then the check code.
  ghost predicate FailsWith(p: Plan, pad: Pad, before: bytes, result: Code)
    requires p.Valid() && |p.entries| > TABLE_INDEX
  {
    if !(NoneBad(p) && p.Fits(|before|, |p.entries|)) then StoppedBy(p, |before|, result)
    else if !Roomy(p, pad, |before|) then result == OutOfRange
    else CheckCodeOf(Tabled(p, pad, before), p.Row(0)) == Failure(result)
  }

  ghost predicate Writable(p: Plan, pad: Pad, before: bytes)
    requires p.Valid() && |p.entries| > TABLE_INDEX
  {
    NoneBad(p) && Roomy(p, pad, |before|) && CheckCodeOf(Tabled(p, pad, before), p.Row(0)).Success?
  }

  // write_rom
  method WriteRom(out: Buffer, c: Codec, rom: OpenRom, entries: seq<LayoutEntry>, options: Options, error: Error)
    returns (romSize: nat, ghost p: Plan)
    requires Contract(c) && error.result == Ok && out.data != rom.io.data && |entries| > TABLE_INDEX
    modifies out.data, error
    ensures error.result != Ok ==> romSize == 0
    ensures p.Valid() && PlanOf(p, c, rom.View(), entries, options.pack)
    ensures RomWritten(p, options.pad, old(out.Bytes()), out.Bytes(), error.result, romSize)
  {
    ghost var before := out.Bytes();
    var dmadata, size;
    dmadata, size, p := WriteFiles(out, c, rom, entries, options.pack, error);
    romSize := 0;
    if error.result != Ok {
      return;
    }
    romSize := CompleteRom(out, dmadata[..], size, options.pad, error, p, before);
  }

  // The part behind the loop: padding, table and check code.
  method CompleteRom(out: Buffer, table: seq<Dma>, size: u32, pad: Pad, error: Error, ghost p: Plan, ghost before: bytes)
    returns (romSize: nat)
    requires error.result == Ok && p.Valid() && |p.entries| > TABLE_INDEX
    requires FilesWritten(p, before, out.Bytes(), Ok, table, size)
    modifies out.data, error
    ensures error.result != Ok ==> romSize == 0
    ensures RomWritten(p, pad, before, out.Bytes(), error.result, romSize)
  {
    romSize := 0;
    var padded := PadRom(out, size, pad, error);
    if error.result != Ok {
      return;
    }
    WriteDmadata(out, table[TABLE_INDEX].vromStart, table, error);
    if error.result != Ok {
      return;
    }
    var stored := StoreCheckCode(out, table, error);
    if stored {
      romSize := size + padded;
    }
  }

  method PadRom(out: Buffer, size: u32, pad: Pad, error: Error) returns (padded: nat)
    requires error.result == Ok
    modifies out.data, error
    ensures Laid(old(out.Bytes()), out.Bytes(), size, Padding(size, pad), error.result)
    ensures padded == if error.result == Ok then |Padding(size, pad)| else 0
  {
    if pad == NoPad {
      padded := 0;
    } else {
      padded := PadFile(out, size, pad, error);
    }
  }

  // Computes the check code of what has been written and stores it.
  method StoreCheckCode(out: Buffer, table: seq<Dma>, error: Error) returns (stored: bool)
    requires error.result == Ok && |table| > 0
    modifies out.data, error
    ensures stored <==> error.result == Ok
    ensures match CheckCodeOf(old(out.Bytes()), table[0])
      case Success(code) =>
        stored && CODE_AT + CODE_SIZE <= out.data.Length
        && out.Bytes() == Splice(old(out.Bytes()), CODE_AT, BigEndian64(code))
        && ReadU32(out.Bytes()[0x10..0x14]) == code / TWO_32 && ReadU32(out.Bytes()[0x14..0x18]) == code % TWO_32
      case Failure(e) => !stored && error.result == e && e != OutOfRange
  {
    var code := CalculateCheckCode(out, table, error);
    if error.result != Ok {
      return false;
    }
    var buffer := new byte[CODE_SIZE];
    WriteU64(buffer, 0, code);
    assert buffer[..CODE_SIZE] == BigEndian64(code);
    ghost var before := out.Bytes();
    var _ := out.Write(buffer, CODE_SIZE, CODE_AT, error);
    if error.result == Ok {
      CodeIsRead(before, code);
    }
    stored := error.result == Ok;
  }

  lemma CodeIsRead(before: bytes, code: u64)
    requires CODE_AT + CODE_SIZE <= |before|
    ensures var after := Splice(before, CODE_AT, BigEndian64(code));
      ReadU32(after[0x10..0x14]) == code / TWO_32 && ReadU32(after[0x14..0x18]) == code % TWO_32
  {
    var after := Splice(before, CODE_AT, BigEndian64(code));
    ReadTwoWords(after[0x10..0x18], code);
    SubSlice(after, 0x10, 0x18, 0, 4);
    SubSlice(after, 0x10, 0x18, 4, 8);
  }

  // zelda64_write_buffer
  method WriteBuffer(data: array<byte>, c: Codec, rom: OpenRom, entries: seq<LayoutEntry>, options: Options, error: Error)
    returns (romSize: nat, ghost p: Plan)
    requires Contract(c) && data != rom.io.data && |entries| > TABLE_INDEX
    modifies data, error
    ensures error.result != Ok ==> romSize == 0
    ensures p.Valid() && PlanOf(p, c, rom.View(), entries, options.pack)
    ensures RomWritten(p, options.pad, old(data[..]), data[..], error.result, romSize)
  {
    error.Clear();
    var out := new Buffer(data);
    romSize, p := WriteRom(out, c, rom, entries, options, error);
  }
}
