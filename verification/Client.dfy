/**
 The library from end to end: a ROM is opened, laid out anew and written, as the command line
 program does it (src/zelda64.c, src/decompress.c), from one buffer into another.
 */
module Client {
  import opened Bytes
  import opened Io
  import opened Dma
  import opened Yaz0
  import opened Rom
  import opened Layout
  import opened Plan
  import opened Placement
  import opened Write
  import opened Cic
  import opened Open
  import opened Reopen
  import opened Preserve
  import opened Decoy
  import opened Rebuild

  // The ROM that is opened from these bytes.
  function OpenedRom(data: bytes, o: nat): RomView
    requires SignatureAt(data, o)
  {
    RomView(data, TableAt(data, o))
  }

  // What has to be true of it for its files to be kept.
  ghost predicate Orderly(c: Codec, v: RomView, pack: Pack) { Readable(c, v) && Packable(v.table, pack) }

  // Everything that was in the source is in the output.
  ghost predicate Moved(c: Codec, v: RomView, after: bytes, p: Plan)
    requires p.Valid() && |p.entries| > TABLE_INDEX
  {
    CheckCodeOf(after, p.Row(0)).Success? && SameFiles(c, v, RomView(after, p.Table()), CheckCodeOf(after, p.Row(0)).value)
  }

  // Every stored file is, where its extent ends inside the buffer, and every compressed one as a copy.
  ghost predicate MovedAsKept(c: Codec, v: RomView, after: bytes, p: Plan)
    requires p.Valid() && |p.entries| > TABLE_INDEX
  {
    CheckCodeOf(after, p.Row(0)).Success?
    && var w := RomView(after, p.Table());
      Kept(p, c, v, w, |after|) && SameHead(c, v, w, CheckCodeOf(after, p.Row(0)).value)
  }

  // The new table is where the old one was, and the output opens with it as can be seen of the
  // source; if it is no longer than that, the entries behind the check code decide alone.
  ghost predicate Found(v: RomView, o: nat, after: bytes, p: Plan)
    requires p.Valid()
  {
    |v.table| > 1 && v.table[1].vromStart != v.table[1].vromEnd ==>
      && SignatureAt(after, o) && TableAt(after, o) == p.Table()
      && OpensAsSeen(v.image, after, o)
      && (|after| <= |v.image| && CodeIsHarmless(v.image) ==> Opens(after, o))
  }

  // What a caller who knows its source can expect of a write into a buffer.
  ghost predicate DecompressOutcome(c: Codec, v: RomView, o: nat, p: Plan, pad: Pad, before: bytes, after: bytes, result: Code)
    requires p.Valid() && |p.entries| > TABLE_INDEX
  {
    Orderly(c, v, p.pack) && |before| <= SAFE_LENGTH ==>
      && result == Report(p, pad, |before|)
      && (result == Ok ==> Moved(c, v, after, p) && Found(v, o, after, p))
  }

  ghost predicate CompressOutcome(c: Codec, v: RomView, o: nat, p: Plan, pad: Pad, before: bytes, after: bytes, result: Code)
    requires p.Valid() && |p.entries| > TABLE_INDEX
  {
    Orderly(c, v, Dense) && |before| <= SAFE_LENGTH ==>
      && result == Report(p, pad, |before|)
      && (result == Ok ==> MovedAsKept(c, v, after, p) && Found(v, o, after, p))
      && (result == Ok && AllStored(v.table) && Ample(p, c, v, pad, |before|) ==> Moved(c, v, after, p))
  }

  lemma TableIsFound(p: Plan, c: Codec, v: RomView, o: nat, pad: Pad, before: bytes, after: bytes, romSize: nat)
    requires Rebuilding(p, c, v, o) && Written(p, pad, before, after, romSize) && Opens(v.image, o)
    ensures Found(v, o, after, p)
  {
    if |v.table| > 1 && v.table[1].vromStart != v.table[1].vromEnd {
      RebuiltOpens(p, c, v, o, pad, before, after, romSize);
      if |after| <= |v.image| {
        NoneInShorter(v.image, o, |after|);
      }
    }
  }

  lemma DecompressMoves(p: Plan, c: Codec, v: RomView, o: nat, pad: Pad, before: bytes, after: bytes, result: Code, romSize: nat)
    requires Contract(c) && Opens(v.image, o) && Signed(v, o)
    requires p.Valid() && PlanOf(p, c, v, DecompressPlan(v.table), p.pack)
    requires |p.entries| > TABLE_INDEX && RomWritten(p, pad, before, after, result, romSize)
    ensures DecompressOutcome(c, v, o, p, pad, before, after, result)
  {
    if Orderly(c, v, p.pack) && |before| <= SAFE_LENGTH {
      PlannedReachable(c, v, o, DecompressPlan(v.table));
      PlanIsUnique(p, c, v, DecompressPlan(v.table), p.pack);
      FoundHead(v.image, o);
      SucceedsExactly(p, c, v, o, pad, before, after, result, romSize);
      if result == Ok {
        DecompressedRom(p, c, v, o, pad, before, after, romSize);
        TableIsFound(p, c, v, o, pad, before, after, romSize);
      }
    }
  }

  lemma CompressMoves(p: Plan, c: Codec, v: RomView, o: nat, pad: Pad, before: bytes, after: bytes, result: Code, romSize: nat)
    requires Contract(c) && Opens(v.image, o) && Signed(v, o)
    requires p.Valid() && PlanOf(p, c, v, CompressPlan(v.table), Dense)
    requires |p.entries| > TABLE_INDEX && RomWritten(p, pad, before, after, result, romSize)
    ensures CompressOutcome(c, v, o, p, pad, before, after, result)
  {
    if Orderly(c, v, Dense) && |before| <= SAFE_LENGTH {
      PlannedReachable(c, v, o, CompressPlan(v.table));
      PlanIsUnique(p, c, v, CompressPlan(v.table), Dense);
      FoundHead(v.image, o);
      SucceedsExactly(p, c, v, o, pad, before, after, result, romSize);
      if result == Ok {
        StoredCodeIsRight(p, pad, before, after, romSize);
        CompressedRom(p, c, v, o, pad, before, after, romSize);
        TableIsFound(p, c, v, o, pad, before, after, romSize);
      }
    }
  }

  // An open ROM is decompressed.
  method DecompressInto(rom: OpenRom, out: array<byte>, c: Codec, options: Options, error: Error, ghost o: nat)
    returns (romSize: nat, ghost p: Plan)
    requires Contract(c) && out != rom.io.data && Opens(rom.io.Bytes(), o) && Signed(rom.View(), o)
    modifies out, error
    ensures p.Valid() && |p.entries| > TABLE_INDEX && PlanOf(p, c, rom.View(), DecompressPlan(rom.dmadata), options.pack)
    ensures DecompressOutcome(c, rom.View(), o, p, options.pad, old(out[..]), out[..], error.result)
  {
    ghost var v, before := rom.View(), out[..];
    FoundHead(v.image, o);
    var entries := DecompressRom(rom);
    romSize, p := WriteBuffer(out, c, rom, entries[..], options, error);
    DecompressMoves(p, c, v, o, options.pad, before, out[..], error.result, romSize);
  }

  // Opens a ROM and decompresses it.
  method DecompressBuffer(data: array<byte>, out: array<byte>, c: Codec, options: Options, error: Error)
    returns (known: bool, romSize: nat, ghost o: nat, ghost p: Plan)
    requires Contract(c) && data != out
    modifies out, error
    ensures known <==> data.Length <= UINT32_MAX && CanOpen(data[..])
    ensures !known ==> RefusedWith(data[..], error.result) && romSize == 0
    ensures p.Valid() && (known ==> Opens(data[..], o) && |p.entries| > TABLE_INDEX)
    ensures known ==>
      var v := OpenedRom(data[..], o);
      PlanOf(p, c, v, DecompressPlan(v.table), options.pack)
      && DecompressOutcome(c, v, o, p, options.pad, old(out[..]), out[..], error.result)
  {
    o, p, romSize := 0, Plan(options.pack, [], []), 0;
    var rom := OpenBuffer(data, error);
    known := rom != null;
    if known {
      o := rom.info.offset;
      romSize, p := DecompressInto(rom, out, c, options, error, o);
    }
  }

  // An open ROM is compressed densely.
  method CompressInto(rom: OpenRom, out: array<byte>, c: Codec, pad: Pad, error: Error, ghost o: nat)
    returns (romSize: nat, ghost p: Plan)
    requires Contract(c) && out != rom.io.data && Opens(rom.io.Bytes(), o) && Signed(rom.View(), o)
    modifies out, error
    ensures p.Valid() && |p.entries| > TABLE_INDEX && PlanOf(p, c, rom.View(), CompressPlan(rom.dmadata), Dense)
    ensures CompressOutcome(c, rom.View(), o, p, pad, old(out[..]), out[..], error.result)
  {
    ghost var v, before := rom.View(), out[..];
    FoundHead(v.image, o);
    var entries := CompressRom(rom);
    romSize, p := WriteBuffer(out, c, rom, entries[..], Options(Dense, pad), error);
    CompressMoves(p, c, v, o, pad, before, out[..], error.result, romSize);
  }

  // Opens a ROM and compresses it.
  method CompressBuffer(data: array<byte>, out: array<byte>, c: Codec, pad: Pad, error: Error)
    returns (known: bool, romSize: nat, ghost o: nat, ghost p: Plan)
    requires Contract(c) && data != out
    modifies out, error
    ensures known <==> data.Length <= UINT32_MAX && CanOpen(data[..])
    ensures !known ==> RefusedWith(data[..], error.result) && romSize == 0
    ensures p.Valid() && (known ==> Opens(data[..], o) && |p.entries| > TABLE_INDEX)
    ensures known ==>
      var v := OpenedRom(data[..], o);
      PlanOf(p, c, v, CompressPlan(v.table), Dense)
      && CompressOutcome(c, v, o, p, pad, old(out[..]), out[..], error.result)
  {
    o, p, romSize := 0, Plan(Dense, [], []), 0;
    var rom := OpenBuffer(data, error);
    known := rom != null;
    if known {
      o := rom.info.offset;
      romSize, p := CompressInto(rom, out, c, pad, error, o);
    }
  }
}
