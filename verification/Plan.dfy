/**
 Where a layout's files go, what table is written for them, and what image results: the
 specification of write_rom (lib/layout_write.c), and what holds of it.
 */
module Plan {
  import opened Bytes
  import opened Dma
  import opened Layout

  datatype Plan = Plan(pack: Pack, entries: seq<LayoutEntry>, jobs: seq<Job>) {

    predicate Valid() {
      |jobs| == |entries| && forall i {:trigger jobs[i]} :: 0 <= i < |entries| && !Live(entries[i]) ==> jobs[i] == Skip
    }

    // The bytes written for entry i, and what they take up in the image.
    function Length(i: nat): nat
      requires i < |jobs|
    {
      if jobs[i].Put? then |jobs[i].data| else 0
    }

    function Aligned(i: nat): u32
      requires i < |jobs|
    {
      Align16(Wrap(Length(i)))
    }

    // The cursor behind the first i entries.
    function Position(i: nat): u32
      requires Valid() && i <= |entries|
      decreases i, 0
    {
      if i == 0 then 0
      else if Live(entries[i - 1]) then Wrap(Start(i - 1) + Aligned(i - 1))
      else Position(i - 1)
    }

    function Start(i: nat): u32
      requires Valid() && i < |entries|
      decreases i, 1
    {
      if pack == Sparse then entries[i].vromStart else Position(i)
    }

    // The size of the ROM with the first i entries.
    function RomSize(i: nat): u32
      requires Valid() && i <= |entries|
    {
      if i == 0 then 0
      else if Live(entries[i - 1]) && Position(i) > RomSize(i - 1) then Position(i)
      else RomSize(i - 1)
    }

    function Row(i: nat): Dma
      requires Valid() && i < |entries|
    {
      var e := entries[i];
      if e.operation == Delete then Dma(e.vromStart, e.vromEnd, UINT32_MAX, UINT32_MAX)
      else if e.vromStart == e.vromEnd then Dma(0, 0, 0, 0)
      else Dma(e.vromStart, e.vromEnd, Start(i), if e.operation == Compress then Wrap(Start(i) + Aligned(i)) else 0)
    }

    function Table(): (t: seq<Dma>)
      requires Valid()
      ensures |t| == |entries|
    {
      seq(|entries|, i requires 0 <= i < |entries| => Row(i))
    }

    // The first n files fit into a buffer of this length.
    predicate Fits(length: nat, n: nat)
      requires Valid() && n <= |entries|
    {
      forall i {:trigger FitsAt(length, i)} :: 0 <= i < n ==> FitsAt(length, i)
    }

    predicate FitsAt(length: nat, i: nat)
      requires Valid() && i < |entries|
    {
      jobs[i].Put? ==> Start(i) + Length(i) <= length
    }

    // The image with the first n files written.
    function Image(buffer: bytes, n: nat): (img: bytes)
      requires Valid() && n <= |entries| && Fits(|buffer|, n)
      ensures |img| == |buffer|
    {
      if n == 0 then buffer
      else
        var before := Image(buffer, n - 1);
        assert FitsAt(|buffer|, n - 1);
        if jobs[n - 1].Put? then Splice(before, Start(n - 1), jobs[n - 1].data) else before
    }

    function Size(): u32
      requires Valid()
    {
      RomSize(|entries|)
    }
  }

  /* Padding */

  function PadBytes(from: nat, to: nat, pad: Pad): (b: bytes)
    ensures |b| == if from < to then to - from else 0
  {
    if from >= to then []
    else seq(to - from, k requires 0 <= k < to - from => if pad == RampPad then (from + k) % 256 else 0)
  }

  // What padding adds to a ROM of this size.
  function Padding(size: u32, pad: Pad): bytes {
    if pad == NoPad then [] else PadBytes(size, CeilPow2(size), pad)
  }

  /* The whole image */

  const TABLE_INDEX: nat := 2
  const CODE_AT: nat := 0x10
  const CODE_SIZE: nat := 8

  predicate Roomy(p: Plan, pad: Pad, length: nat)
    requires p.Valid() && |p.entries| > TABLE_INDEX
  {
    && p.Fits(length, |p.entries|)
    && (Padding(p.Size(), pad) != [] ==> p.Size() + |Padding(p.Size(), pad)| <= length)
    && p.Row(TABLE_INDEX).vromStart + ENTRY_SIZE * |p.entries| <= length
  }

  // Before the check code is stored: all files, the padding, and the table over them.
  function Tabled(p: Plan, pad: Pad, buffer: bytes): (img: bytes)
    requires p.Valid() && |p.entries| > TABLE_INDEX && Roomy(p, pad, |buffer|)
    ensures |img| == |buffer|
  {
    var img := p.Image(buffer, |p.entries|);
    var padding := Padding(p.Size(), pad);
    var padded := if padding == [] then img else Splice(img, p.Size(), padding);
    Splice(padded, p.Row(TABLE_INDEX).vromStart, PrintTable(p.Table()))
  }

  // The finished image.
  function Finished(p: Plan, pad: Pad, buffer: bytes, code: u64): (img: bytes)
    requires p.Valid() && |p.entries| > TABLE_INDEX && Roomy(p, pad, |buffer|)
    requires CODE_AT + CODE_SIZE <= |buffer|
    ensures |img| == |buffer|
  {
    Splice(Tabled(p, pad, buffer), CODE_AT, BigEndian64(code))
  }
}
