/**
 Layouts: what to write for each table entry (lib/layout.h), the two planners
 (lib/rom_compress.c, lib/rom_decompress.c), and the bytes each entry asks for.
 */
module Layout {
  import opened Bytes
  import opened Wrappers
  import opened Io
  import opened Dma
  import opened Yaz0
  import opened Rom

  datatype Operation = Copy | Compress | Decompress | Delete

  // The bytes come from the file at `index` of the ROM the layout was made from.
  datatype LayoutEntry = LayoutEntry(vromStart: u32, vromEnd: u32, operation: Operation, index: nat)

  datatype Pack = Sparse | Dense

  datatype Pad = NoPad | ZeroPad | RampPad

  datatype Options = Options(pack: Pack, pad: Pad)

  /* The planners */

  // The first three files are always copied, whatever their entries say.
  function CompressOperation(e: Dma, i: nat): Operation {
    if i < 3 then Copy
    else match KindOf(e)
      case DeletedEntry => Delete
      case StoredEntry => Compress
      case CompressedEntry => Copy
  }

  function DecompressOperation(e: Dma): Operation {
    match KindOf(e)
    case DeletedEntry => Delete
    case StoredEntry => Copy
    case CompressedEntry => Decompress
  }

  function CompressPlan(table: seq<Dma>): (entries: seq<LayoutEntry>) {
    seq(|table|, i requires 0 <= i < |table| =>
      LayoutEntry(table[i].vromStart, table[i].vromEnd, CompressOperation(table[i], i), i))
  }

  function DecompressPlan(table: seq<Dma>): (entries: seq<LayoutEntry>) {
    seq(|table|, i requires 0 <= i < |table| =>
      LayoutEntry(table[i].vromStart, table[i].vromEnd, DecompressOperation(table[i]), i))
  }

  // compress_rom
  method CompressRom(rom: OpenRom) returns (entries: array<LayoutEntry>)
    ensures fresh(entries) && entries[..] == CompressPlan(rom.dmadata)
  {
    var count := |rom.dmadata|;
    entries := new LayoutEntry[count];
    for i := 0 to count
      invariant forall k :: 0 <= k < i ==> entries[k] == CompressPlan(rom.dmadata)[k]
    {
      var dma := rom.dmadata[i];
      var operation := match KindOf(dma)
        case DeletedEntry => Delete
        case StoredEntry => Compress
        case CompressedEntry => Copy;
      entries[i] := LayoutEntry(dma.vromStart, dma.vromEnd, operation, i);
      if i < 3 {
        entries[i] := entries[i].(operation := Copy);
      }
    }
  }

  // decompress_rom
  method DecompressRom(rom: OpenRom) returns (entries: array<LayoutEntry>)
    ensures fresh(entries) && entries[..] == DecompressPlan(rom.dmadata)
  {
    var count := |rom.dmadata|;
    entries := new LayoutEntry[count];
    for i := 0 to count
      invariant forall k :: 0 <= k < i ==> entries[k] == DecompressPlan(rom.dmadata)[k]
    {
      var dma := rom.dmadata[i];
      var operation := match KindOf(dma)
        case DeletedEntry => Delete
        case StoredEntry => Copy
        case CompressedEntry => Decompress;
      entries[i] := LayoutEntry(dma.vromStart, dma.vromEnd, operation, i);
    }
  }

  /* What an entry asks to be written */

  datatype Job = Skip | Put(data: bytes) | Bad(code: Code)

  // Deleted and empty entries are not written at all.
  predicate Live(e: LayoutEntry) { e.operation != Delete && e.vromStart != e.vromEnd }

  // The extent that is to be read lies in the source ROM.
  predicate Reachable(c: Codec, v: RomView, e: LayoutEntry) {
    match StatOf(c, v, e.index)
    case Failure(_) => true
    case Success(st) => Inside(v.image, st)
  }

  function JobOf(c: Codec, v: RomView, e: LayoutEntry): Job
    requires Live(e) ==> Reachable(c, v, e)
  {
    if !Live(e) then Skip
    else
      match StatOf(c, v, e.index)
      case Failure(code) => Bad(code)
      case Success(st) => JobFor(c, e.operation, st, Storage(v.image, st))
  }

  function JobFor(c: Codec, operation: Operation, st: Stat, storage: bytes): Job {
    match operation
    case Copy => if st.size == 0 then Skip else Put(storage)
    case Compress => if st.fileSize == 0 then Skip else Put(c.encode(storage))
    case Decompress => if st.fileSize == 0 then Skip else DecodeJob(c, storage)
    case Delete => Skip
  }

  function DecodeJob(c: Codec, storage: bytes): Job {
    match c.decode(storage)
    case None => Bad(DecompressError)
    case Some(x) => Put(x)
  }

  // A file of the ROM by its table entry: nothing is done with one of no size; else it is written as
  // it is stored, or that is compressed or decompressed.
  lemma JobOfFile(c: Codec, v: RomView, e: LayoutEntry, dma: Dma)
    requires e.index < |v.table| && dma == v.table[e.index] && Live(e) && Reachable(c, v, e)
    requires StatOf(c, v, e.index).Success?
    ensures var n := if dma.romEnd == 0 then dma.vromEnd - dma.vromStart else dma.romEnd - dma.romStart;
      && 0 <= n && dma.romStart + n <= |v.image|
      && var d := v.image[dma.romStart..dma.romStart + n];
         var empty := if dma.romEnd == 0 then n == 0 else n >= 16 && c.header(d[..16]) == Some(0);
      && (e.operation == Copy ==> JobOf(c, v, e) == if n == 0 then Skip else Put(d))
      && (e.operation == Compress ==> JobOf(c, v, e) == if empty then Skip else Put(c.encode(d)))
      && (e.operation == Decompress ==>
           JobOf(c, v, e) == if empty then Skip else if c.decode(d).None? then Bad(DecompressError) else Put(c.decode(d).value))
  {
    StatFacts(c, v, e.index);
  }

  // What an entry may come to, whatever is read for the part of its extent that is not in the ROM.
  ghost predicate JobFits(c: Codec, v: RomView, e: LayoutEntry, job: Job) {
    if !Live(e) then job == Skip else JobAllowed(c, v, e.operation, e.index, job)
  }

  ghost predicate JobAllowed(c: Codec, v: RomView, operation: Operation, index: nat, job: Job) {
    match StatOf(c, v, index)
    case Failure(code) => job == Bad(code)
    case Success(st) => exists d :: Fetched(v.image, st, d) && job == JobFor(c, operation, st, d)
  }

  // There is no choice for an extent inside the ROM.
  lemma ReachableFits(c: Codec, v: RomView, e: LayoutEntry, job: Job)
    requires Reachable(c, v, e)
    ensures JobFits(c, v, e, job) <==> job == JobOf(c, v, e)
  {
    if Live(e) && StatOf(c, v, e.index).Success? {
      var st := StatOf(c, v, e.index).value;
      FetchedInside(v.image, st, Storage(v.image, st));
      forall d | Fetched(v.image, st, d)
        ensures d == Storage(v.image, st)
      {
        FetchedInside(v.image, st, d);
      }
    }
  }

  predicate AllReachable(c: Codec, v: RomView, entries: seq<LayoutEntry>) {
    forall i :: 0 <= i < |entries| && Live(entries[i]) ==> Reachable(c, v, entries[i])
  }

  function Jobs(c: Codec, v: RomView, entries: seq<LayoutEntry>): (jobs: seq<Job>)
    requires AllReachable(c, v, entries)
    ensures |jobs| == |entries|
  {
    seq(|entries|, i requires 0 <= i < |entries| => JobOf(c, v, entries[i]))
  }
}
