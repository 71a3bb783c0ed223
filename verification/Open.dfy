/**
 Opening a ROM from a buffer (lib/rom_open.c).
 */
module Open {
  import opened Bytes
  import opened Io
  import opened Dma
  import opened Rom
  import opened Cic

  // What is opened: an image with a table at its first signature and the known boot code.
  ghost predicate Opens(img: bytes, o: nat) {
    FirstSignature(img, o) && IsCic6105(img, EntryAt(img, o))
  }

  ghost predicate CanOpen(img: bytes) {
    exists o: nat :: Opens(img, o)
  }

  lemma OpensOnce(img: bytes, o: nat, o': nat)
    requires FirstSignature(img, o) && FirstSignature(img, o')
    ensures o == o'
  {
  }

  lemma NoTableNoRom(img: bytes)
    ensures CanOpen(img) ==> HasTable(img)
  {
    if o: nat :| Opens(img, o) {
      assert SignatureAt(img, o);
    }
  }

  // The first entry of the table at the first signature decides.
  lemma FirstDecides(img: bytes, first: nat, table: seq<Dma>)
    requires FirstSignature(img, first) && table == TableAt(img, first)
    ensures |table| > 0 && table[0] == EntryAt(img, first)
    ensures Opens(img, first) <==> IsCic6105(img, table[0])
    ensures CanOpen(img) <==> Opens(img, first)
  {
    FoundTableFits(img, first);
    FoundEntry(img, first, 0);
    forall o: nat | Opens(img, o)
      ensures o == first
    {
      OpensOnce(img, o, first);
    }
  }

  // Why a buffer is not opened: it has no table, or what the first one leads to is no boot code, or
  // not the known one.
  ghost predicate RefusedWith(img: bytes, result: Code) {
    if |img| > UINT32_MAX || !HasTable(img) then result == NotFound(img)
    else exists o: nat :: FirstSignature(img, o) && result == RefusedAt(img, EntryAt(img, o))
  }

  ghost function RefusedAt(img: bytes, makerom: Dma): Code {
    if Wrap(makerom.vromEnd - makerom.vromStart) < 0x1000 then InvalidRom
    else if |img| < 0x1000 then Truncated else UnsupportedCic
  }

  lemma RefusedEarly(img: bytes, result: Code)
    requires |img| > UINT32_MAX || !HasTable(img)
    requires result == NotFound(img)
    ensures RefusedWith(img, result) && !(|img| <= UINT32_MAX && CanOpen(img))
  {
    NoTableNoRom(img);
  }

  lemma OpenedOrRefused(img: bytes, o: nat, table: seq<Dma>, known: bool, result: Code)
    requires |img| <= UINT32_MAX && FirstSignature(img, o) && table == TableAt(img, o)
    requires |table| > 0 ==> (known <==> IsCic6105(img, table[0])) && (!known ==> result == RefusedAt(img, table[0]))
    ensures known <==> CanOpen(img)
    ensures if known then Opens(img, o) else RefusedWith(img, result)
  {
    FirstDecides(img, o, table);
    assert SignatureAt(img, o) && HasTable(img);
  }

  // open_from_io on a buffer
  method OpenBuffer(data: array<byte>, error: Error) returns (rom: OpenRom?)
    modifies error
    ensures rom != null <==> data.Length <= UINT32_MAX && CanOpen(data[..])
    ensures rom != null ==>
      fresh(rom) && rom.io.data == data && error.result == Ok
      && Opens(data[..], rom.info.offset) && rom.View() == RomView(data[..], TableAt(data[..], rom.info.offset))
    ensures rom == null ==> RefusedWith(data[..], error.result)
  {
    error.Clear();
    var io := new Buffer(data);
    var candidate := new OpenRom(io);
    ghost var img := io.Bytes();
    var found := candidate.ReadDmadata(error);
    if !found {
      RefusedEarly(img, error.result);
      return null;
    }
    var known := Recognize(io, candidate.info.offset, candidate.dmadata, error);
    rom := if known then candidate else null;
  }

  // zelda64_detect_cic, for a table that has been found
  method Recognize(io: Buffer, ghost o: nat, table: seq<Dma>, error: Error) returns (known: bool)
    requires error.result == Ok && io.data.Length <= UINT32_MAX
    requires FirstSignature(io.Bytes(), o) && table == TableAt(io.Bytes(), o)
    modifies error
    ensures known <==> CanOpen(io.Bytes())
    ensures if known then error.result == Ok && Opens(io.Bytes(), o) else RefusedWith(io.Bytes(), error.result)
  {
    FirstDecides(io.Bytes(), o, table);
    known := DetectCic(io, table, error);
    OpenedOrRefused(io.Bytes(), o, table, known, error.result);
  }
}
