/**
 DMADATA entries, the table's image in the ROM, and the search for it (lib/rom_dma.c).
 */
module Dma {
  import opened Bytes
  import opened Wrappers
  import opened Io

  datatype Dma = Dma(vromStart: u32, vromEnd: u32, romStart: u32, romEnd: u32)

  datatype Info = Info(offset: nat, size: nat, count: nat)

  const ENTRY_SIZE: nat := 16
  const SIGNATURE_SIZE: nat := 48
  const CHUNK_SIZE: nat := 1024
  const READ_COUNT: nat := 128

  /* Entries and tables as bytes */

  function Parse(p: bytes): Dma
    requires |p| == ENTRY_SIZE
  {
    Dma(ReadU32(p[0..4]), ReadU32(p[4..8]), ReadU32(p[8..12]), ReadU32(p[12..16]))
  }

  function Print(e: Dma): (p: bytes)
    ensures |p| == ENTRY_SIZE
  {
    BigEndian32(e.vromStart) + BigEndian32(e.vromEnd) + BigEndian32(e.romStart) + BigEndian32(e.romEnd)
  }

  lemma ParsePrint(e: Dma)
    ensures Parse(Print(e)) == e
  {
    ReadBigEndian(e.vromStart);
    ReadBigEndian(e.vromEnd);
    ReadBigEndian(e.romStart);
    ReadBigEndian(e.romEnd);
  }

  lemma PrintParse(p: bytes)
    requires |p| == ENTRY_SIZE
    ensures Print(Parse(p)) == p
  {
    BigEndianRead(p[0..4]);
    BigEndianRead(p[4..8]);
    BigEndianRead(p[8..12]);
    BigEndianRead(p[12..16]);
  }

  function PrintTable(t: seq<Dma>): (b: bytes)
    ensures |b| == ENTRY_SIZE * |t|
  {
    seq(ENTRY_SIZE * |t|, k requires 0 <= k < ENTRY_SIZE * |t| => Print(t[k / ENTRY_SIZE])[k % ENTRY_SIZE])
  }

  function ParseTable(b: bytes): (t: seq<Dma>)
    requires |b| % ENTRY_SIZE == 0
    ensures |t| == |b| / ENTRY_SIZE
  {
    seq(|b| / ENTRY_SIZE, k requires 0 <= k < |b| / ENTRY_SIZE => Parse(b[ENTRY_SIZE * k..ENTRY_SIZE * (k + 1)]))
  }

  // Entry k prints to the 16 bytes from 16 * k on.
  lemma PrintedPart(t: seq<Dma>, k: nat)
    requires k < |t|
    ensures PrintTable(t)[ENTRY_SIZE * k..ENTRY_SIZE * (k + 1)] == Print(t[k])
  {
    forall j | 0 <= j < ENTRY_SIZE
      ensures PrintTable(t)[ENTRY_SIZE * k + j] == Print(t[k])[j]
    {
      PlaceInTable(k, j);
    }
  }

  lemma PlaceInTable(k: nat, j: nat)
    requires j < ENTRY_SIZE
    ensures (ENTRY_SIZE * k + j) / ENTRY_SIZE == k && (ENTRY_SIZE * k + j) % ENTRY_SIZE == j
  {
  }

  lemma ParsePrintTable(t: seq<Dma>)
    ensures ParseTable(PrintTable(t)) == t
  {
    forall k | 0 <= k < |t|
      ensures ParseTable(PrintTable(t))[k] == t[k]
    {
      PrintedPart(t, k);
      ParsePrint(t[k]);
    }
  }

  lemma PrintParseTable(b: bytes)
    requires |b| % ENTRY_SIZE == 0
    ensures PrintTable(ParseTable(b)) == b
  {
    forall k | 0 <= k < |b|
      ensures PrintTable(ParseTable(b))[k] == b[k]
    {
      PrintParseAt(b, k / ENTRY_SIZE, k % ENTRY_SIZE);
    }
  }

  lemma PrintParseAt(b: bytes, q: nat, r: nat)
    requires r < ENTRY_SIZE && ENTRY_SIZE * (q + 1) <= |b|
    ensures Print(Parse(b[ENTRY_SIZE * q..ENTRY_SIZE * (q + 1)]))[r] == b[ENTRY_SIZE * q + r]
  {
    PrintParse(b[ENTRY_SIZE * q..ENTRY_SIZE * (q + 1)]);
  }

  lemma PrintTableAppend(s: seq<Dma>, t: seq<Dma>)
    ensures PrintTable(s + t) == PrintTable(s) + PrintTable(t)
  {
    forall k | 0 <= k < ENTRY_SIZE * (|s| + |t|)
      ensures PrintTable(s + t)[k] == (PrintTable(s) + PrintTable(t))[k]
    {
      SamePlaceInTable(k, |s|);
      if k < ENTRY_SIZE * |s| {
        assert (s + t)[k / ENTRY_SIZE] == s[k / ENTRY_SIZE];
      } else {
        assert (s + t)[k / ENTRY_SIZE] == t[k / ENTRY_SIZE - |s|];
      }
    }
  }

  lemma SamePlaceInTable(k: nat, n: nat)
    ensures k < ENTRY_SIZE * n <==> k / ENTRY_SIZE < n
    ensures k >= ENTRY_SIZE * n ==>
      (k - ENTRY_SIZE * n) / ENTRY_SIZE == k / ENTRY_SIZE - n && (k - ENTRY_SIZE * n) % ENTRY_SIZE == k % ENTRY_SIZE
  {
  }

  lemma PrintOne(e: Dma)
    ensures PrintTable([e]) == Print(e)
  {
    PrintedPart([e], 0);
  }

  // The order of the four words of an entry, in a table that is printed or in an image.
  lemma PrintedWords(t: seq<Dma>, k: nat)
    requires k < |t|
    ensures var b := PrintTable(t)[16 * k..16 * (k + 1)];
      && ReadU32(b[0..4]) == t[k].vromStart && ReadU32(b[4..8]) == t[k].vromEnd
      && ReadU32(b[8..12]) == t[k].romStart && ReadU32(b[12..16]) == t[k].romEnd
  {
    PrintedPart(t, k);
    ParsePrint(t[k]);
  }

  /* The signature */

  predicate CanBeMakerom(e: Dma) {
    e.vromStart == 0 && e.vromEnd != 0 && e.romStart == 0 && e.romEnd == 0
  }

  predicate IsDmadata(e0: Dma, e1: Dma, e2: Dma, candidate: nat, romSize: nat) {
    // MAKEROM, BOOTCODE and DMADATA are stored one after the other,
    && e1.vromStart == e0.vromEnd && e1.romStart == e0.vromEnd && e1.romEnd == 0
    && e2.vromStart == e1.vromEnd && e2.romStart == e1.vromEnd && e2.romEnd == 0
    // inside the ROM,
    && e1.vromStart <= e1.vromEnd && e2.vromEnd <= romSize
    // and the third is the table itself, of at least these three entries.
    && e2.vromStart < e2.vromEnd && e2.vromStart == candidate
    && e2.vromEnd - e2.vromStart >= SIGNATURE_SIZE && (e2.vromEnd - e2.vromStart) % ENTRY_SIZE == 0
  }

  function EntryAt(img: bytes, o: nat): Dma
    requires o + ENTRY_SIZE <= |img|
  {
    Parse(img[o..o + ENTRY_SIZE])
  }

  predicate MakeromAt(img: bytes, o: nat) {
    o % ENTRY_SIZE == 0 && o + ENTRY_SIZE <= |img| && CanBeMakerom(EntryAt(img, o))
  }

  predicate SignatureAt(img: bytes, o: nat) {
    && MakeromAt(img, o) && o + SIGNATURE_SIZE <= |img|
    && IsDmadata(EntryAt(img, o), EntryAt(img, o + 16), EntryAt(img, o + 32), o, |img|)
  }

  // The word at an offset.
  function WordOf(img: bytes, at: nat): u32
    requires at + 4 <= |img|
  {
    ReadU32(img[at..at + 4])
  }

  lemma EntryWords(img: bytes, o: nat)
    requires o + 16 <= |img|
    ensures EntryAt(img, o) == Dma(WordOf(img, o), WordOf(img, o + 4), WordOf(img, o + 8), WordOf(img, o + 12))
  {
    SubSlice(img, o, o + 16, 0, 4);
    SubSlice(img, o, o + 16, 4, 8);
    SubSlice(img, o, o + 16, 8, 12);
    SubSlice(img, o, o + 16, 12, 16);
  }

  // A signature is twelve words: MAKEROM at 0, stored; BOOTCODE where that ends, stored in its place;
  // and where that ends the table, stored in its place, which is here, and at least three entries long.
  lemma SignatureWords(img: bytes, o: nat)
    requires o + 48 <= |img|
    ensures var makeromEnd, bootcodeEnd, end := WordOf(img, o + 4), WordOf(img, o + 20), WordOf(img, o + 36);
      && (SignatureAt(img, o) <==>
        && o % 16 == 0
        && WordOf(img, o) == 0 && makeromEnd != 0 && WordOf(img, o + 8) == 0 && WordOf(img, o + 12) == 0
        && WordOf(img, o + 16) == makeromEnd <= bootcodeEnd && WordOf(img, o + 24) == makeromEnd && WordOf(img, o + 28) == 0
        && WordOf(img, o + 32) == bootcodeEnd == o && WordOf(img, o + 40) == o && WordOf(img, o + 44) == 0
        && o + 48 <= end <= |img| && (end - o) % 16 == 0)
      && (SignatureAt(img, o) ==> InfoAt(img, o) == Info(o, end - o, (end - o) / 16))
  {
    EntryWords(img, o);
    EntryWords(img, o + 16);
    EntryWords(img, o + 32);
  }

  ghost predicate NoSignatureBelow(img: bytes, n: nat) {
    forall o: nat :: o < n ==> !SignatureAt(img, o)
  }

  ghost predicate FirstSignature(img: bytes, o: nat) {
    SignatureAt(img, o) && NoSignatureBelow(img, o)
  }

  ghost predicate HasTable(img: bytes) {
    exists o: nat :: SignatureAt(img, o)
  }

  function InfoAt(img: bytes, o: nat): Info
    requires SignatureAt(img, o)
  {
    var e := EntryAt(img, o + 32);
    Info(o, e.vromEnd - e.vromStart, (e.vromEnd - e.vromStart) / ENTRY_SIZE)
  }

  // A found table lies inside the ROM and holds at least the three entries that gave it away.
  lemma FoundTableFits(img: bytes, o: nat)
    requires SignatureAt(img, o)
    ensures var i := InfoAt(img, o);
      i.count >= 3 && i.size == ENTRY_SIZE * i.count && o + i.size <= |img|
  {
  }

  function TableAt(img: bytes, o: nat): (t: seq<Dma>)
    requires SignatureAt(img, o)
  {
    FoundTableFits(img, o);
    ParseTable(img[o..o + InfoAt(img, o).size])
  }

  // It is what its entries print to.
  lemma FoundTablePrints(img: bytes, o: nat)
    requires SignatureAt(img, o)
    ensures o + ENTRY_SIZE * |TableAt(img, o)| <= |img|
    ensures img[o..o + ENTRY_SIZE * |TableAt(img, o)|] == PrintTable(TableAt(img, o))
  {
    FoundTableFits(img, o);
    var i := InfoAt(img, o);
    assert |TableAt(img, o)| == i.count;
    PrintParseTable(img[o..o + i.size]);
  }

  // Its entries are the decodings of the successive 16 bytes from its offset on.
  lemma FoundEntry(img: bytes, o: nat, k: nat)
    requires SignatureAt(img, o) && k < InfoAt(img, o).count
    ensures |TableAt(img, o)| == InfoAt(img, o).count
    ensures o + ENTRY_SIZE * (k + 1) <= |img| && TableAt(img, o)[k] == EntryAt(img, o + ENTRY_SIZE * k)
  {
    FoundTableFits(img, o);
    var size := InfoAt(img, o).size;
    SubSlice(img, o, o + size, ENTRY_SIZE * k, ENTRY_SIZE * (k + 1));
  }

  // A possible first entry too close to the end for the next two to follow.
  predicate CutOffAt(img: bytes, o: nat) {
    MakeromAt(img, o) && o + SIGNATURE_SIZE > |img|
  }

  // The start of the 1024-byte chunk that o lies in.
  function ChunkOf(o: nat): nat { o - o % CHUNK_SIZE }

  // Such an entry in a chunk that is not the last.
  ghost predicate CutOffEarly(img: bytes) {
    exists o: nat :: CutOffAt(img, o) && ChunkOf(o) + CHUNK_SIZE < |img|
  }

  ghost predicate CutOffIn(img: bytes, lo: nat, hi: nat) {
    exists o: nat :: lo <= o < hi && CutOffAt(img, o)
  }

  lemma CutOffExactly(img: bytes)
    ensures CutOffEarly(img) <==>
      exists o: nat {:trigger MakeromAt(img, o)} :: MakeromAt(img, o) && o + 48 > |img| && o / 1024 * 1024 + 1024 < |img|
  {
    forall o: nat
      ensures CutOffAt(img, o) <==> MakeromAt(img, o) && o + 48 > |img|
      ensures ChunkOf(o) == o / 1024 * 1024
    {
    }
  }

  // Why there is no table: the ROM is too large, the search was stopped, or it has found none.
  ghost function NotFound(img: bytes): Code {
    if |img| > UINT32_MAX then OutOfRange else if CutOffEarly(img) then Truncated else NoDmadata
  }

  /* The search */

  // zelda64_find_dmadata: chunk by chunk, 16 bytes at a time.
  method Find(io: Buffer, error: Error) returns (r: Option<Info>)
    requires error.result == Ok
    modifies error
    ensures io.data.Length > UINT32_MAX ==> r == None && error.result == OutOfRange
    ensures io.data.Length <= UINT32_MAX && r.Some? ==>
      FirstSignature(io.Bytes(), r.value.offset) && r.value == InfoAt(io.Bytes(), r.value.offset)
      && error.result == Ok
    ensures io.data.Length <= UINT32_MAX && r.None? ==>
      NoSignatureBelow(io.Bytes(), io.data.Length)
      && error.result == if CutOffEarly(io.Bytes()) then Truncated else NoDmadata
  {
    var romSize := io.data.Length;
    if romSize > UINT32_MAX {
      error.Set(OutOfRange);
      return None;
    }
    ghost var img := io.Bytes();
    var offset := 0;
    var chunk := new byte[CHUNK_SIZE];
    while offset < romSize
      invariant offset <= romSize && (offset % CHUNK_SIZE == 0 || offset == romSize)
      invariant NoSignatureBelow(img, offset)
      invariant SearchState(img, offset, error.result)
    {
      var want := Min(romSize - offset, CHUNK_SIZE);
      var _ := io.ReadExact(chunk, want, offset, error);
      if error.result != Ok {
        StoppedEarly(img, offset);
        return None;
      }
      NoCutOffYet(img, offset);
      r := FindInChunk(io, chunk[..want], offset, error);
      if r.Some? {
        return;
      }
      ChunkSearched(img, offset, want, error.result);
      offset := offset + want;
    }
    SearchedAll(img, error.result);
    error.Set(NoDmadata);
    return None;
  }

  // What the error object says before the chunk at `offset` is read.
  ghost predicate SearchState(img: bytes, offset: nat, result: Code) {
    && (result == Ok || result == Truncated)
    && (result == Truncated <==> CutOffIn(img, 0, offset))
    && (forall o: nat :: o < offset && CutOffAt(img, o) ==> ChunkOf(o) + CHUNK_SIZE >= offset)
  }

  lemma StoppedEarly(img: bytes, offset: nat)
    requires offset < |img| && offset % CHUNK_SIZE == 0 && NoSignatureBelow(img, offset)
    requires CutOffIn(img, 0, offset)
    ensures CutOffEarly(img) && NoSignatureBelow(img, |img|)
  {
  }

  lemma NoCutOffYet(img: bytes, offset: nat)
    requires SearchState(img, offset, Ok)
    ensures forall o: nat :: o < offset ==> !CutOffAt(img, o)
  {
  }

  lemma ChunkSearched(img: bytes, offset: nat, want: nat, result: Code)
    requires offset % CHUNK_SIZE == 0 && want <= CHUNK_SIZE
    requires forall o: nat :: o < offset ==> !CutOffAt(img, o)
    requires result == Ok || result == Truncated
    requires result == Truncated <==> CutOffIn(img, offset, offset + want)
    ensures SearchState(img, offset + want, result)
  {
    assert CutOffIn(img, offset, offset + want) <==> CutOffIn(img, 0, offset + want);
    forall o: nat | o < offset + want && CutOffAt(img, o)
      ensures ChunkOf(o) + CHUNK_SIZE >= offset + want
    {
      InThisChunk(o, offset);
    }
  }

  lemma InThisChunk(o: nat, offset: nat)
    requires offset % CHUNK_SIZE == 0 && offset <= o
    ensures ChunkOf(o) >= offset
  {
  }

  lemma SearchedAll(img: bytes, result: Code)
    requires SearchState(img, |img|, result)
    ensures !CutOffEarly(img)
  {
  }

  method FindInChunk(io: Buffer, chunk: bytes, offset: nat, error: Error) returns (r: Option<Info>)
    requires offset % CHUNK_SIZE == 0 && offset + |chunk| <= io.data.Length
    requires |chunk| == CHUNK_SIZE || offset + |chunk| == io.data.Length
    requires chunk == io.Bytes()[offset..offset + |chunk|]
    requires error.result == Ok && NoSignatureBelow(io.Bytes(), offset)
    modifies error
    ensures r.Some? ==>
      FirstSignature(io.Bytes(), r.value.offset) && r.value == InfoAt(io.Bytes(), r.value.offset)
      && error.result == Ok
    ensures r.None? ==> InChunk(io.Bytes(), offset, |chunk|, error.result)
  {
    ghost var img := io.Bytes();
    var i := 0;
    while i + ENTRY_SIZE <= |chunk|
      invariant i <= |chunk| && i % ENTRY_SIZE == 0
      invariant InChunk(img, offset, i, error.result)
    {
      ChunkEntry(chunk, img, offset, i);
      Aligned(offset, i);
      r := FindAt(io, Parse(chunk[i..i + ENTRY_SIZE]), offset, i, error);
      if r.Some? {
        return;
      }
      i := i + ENTRY_SIZE;
    }
    TailSearched(img, offset, i, |chunk|, error.result);
    r := None;
  }

  // One position of the search.
  method FindAt(io: Buffer, e0: Dma, offset: nat, i: nat, error: Error) returns (r: Option<Info>)
    requires (offset + i) % ENTRY_SIZE == 0 && offset + i + ENTRY_SIZE <= io.data.Length
    requires e0 == EntryAt(io.Bytes(), offset + i) && InChunk(io.Bytes(), offset, i, error.result)
    modifies error
    ensures r.Some? ==>
      FirstSignature(io.Bytes(), r.value.offset) && r.value == InfoAt(io.Bytes(), r.value.offset)
      && error.result == Ok
    ensures r.None? ==> InChunk(io.Bytes(), offset, i + ENTRY_SIZE, error.result)
  {
    ghost var img, before := io.Bytes(), error.result;
    r := None;
    if CanBeMakerom(e0) {
      CutOffStays(img, offset, i, before);
      r := CheckCandidate(io, e0, offset + i, error);
    }
    if r.None? {
      InChunkStep(img, offset, i, before, error.result);
    }
  }

  lemma Aligned(offset: nat, i: nat)
    requires offset % CHUNK_SIZE == 0 && i % ENTRY_SIZE == 0
    ensures (offset + i) % ENTRY_SIZE == 0
  {
  }

  ghost predicate InChunk(img: bytes, offset: nat, i: nat, result: Code) {
    && NoSignatureBelow(img, offset + i)
    && (result == Ok || result == Truncated)
    && (result == Truncated <==> CutOffIn(img, offset, offset + i))
  }

  lemma CutOffStays(img: bytes, offset: nat, i: nat, result: Code)
    requires InChunk(img, offset, i, result)
    ensures result != Ok ==> result == Truncated && offset + i + SIGNATURE_SIZE > |img|
  {
  }

  lemma ChunkEntry(chunk: bytes, img: bytes, offset: nat, i: nat)
    requires offset + |chunk| <= |img| && chunk == img[offset..offset + |chunk|]
    requires i + ENTRY_SIZE <= |chunk|
    ensures Parse(chunk[i..i + ENTRY_SIZE]) == EntryAt(img, offset + i)
  {
    SubSlice(img, offset, offset + |chunk|, i, i + ENTRY_SIZE);
  }

  // Reads the next two entries and confirms. When they are missing, the search goes on with
  // Truncated left in the error object.
  method CheckCandidate(io: Buffer, e0: Dma, candidate: nat, error: Error) returns (r: Option<Info>)
    requires MakeromAt(io.Bytes(), candidate) && e0 == EntryAt(io.Bytes(), candidate)
    requires error.result != Ok ==> error.result == Truncated && candidate + SIGNATURE_SIZE > io.data.Length
    modifies error
    ensures r.Some? ==>
      SignatureAt(io.Bytes(), candidate) && r.value == InfoAt(io.Bytes(), candidate) && error.result == Ok
    ensures r.None? ==>
      !SignatureAt(io.Bytes(), candidate)
      && error.result == if CutOffAt(io.Bytes(), candidate) then Truncated else Ok
  {
    var e1, e2 := ReadPair(io, candidate + ENTRY_SIZE, error);
    if error.result != Ok {
      return None;
    }
    if !IsDmadata(e0, e1, e2, candidate, io.data.Length) {
      return None;
    }
    var span := e2.vromEnd - e2.vromStart;
    r := Some(Info(candidate, span, span / ENTRY_SIZE));
  }

  method ReadPair(io: Buffer, offset: nat, error: Error) returns (e1: Dma, e2: Dma)
    modifies error
    ensures error.result ==
      if old(error.result) != Ok then old(error.result)
      else if offset + 2 * ENTRY_SIZE > io.data.Length then Truncated else Ok
    ensures error.result == Ok ==>
      e1 == EntryAt(io.Bytes(), offset) && e2 == EntryAt(io.Bytes(), offset + ENTRY_SIZE)
  {
    e1, e2 := Dma(0, 0, 0, 0), Dma(0, 0, 0, 0);
    var buffer := new byte[2 * ENTRY_SIZE];
    var _ := io.ReadExact(buffer, 2 * ENTRY_SIZE, offset, error);
    if error.result == Ok {
      ChunkEntry(buffer[..], io.Bytes(), offset, 0);
      ChunkEntry(buffer[..], io.Bytes(), offset, ENTRY_SIZE);
      e1, e2 := Parse(buffer[0..ENTRY_SIZE]), Parse(buffer[ENTRY_SIZE..2 * ENTRY_SIZE]);
    }
  }

  // One position of the search; nothing can start between two positions.
  lemma InChunkStep(img: bytes, offset: nat, i: nat, before: Code, after: Code)
    requires (offset + i) % ENTRY_SIZE == 0 && InChunk(img, offset, i, before)
    requires !SignatureAt(img, offset + i)
    requires after == if !MakeromAt(img, offset + i) then before
                      else if CutOffAt(img, offset + i) then Truncated else Ok
    ensures InChunk(img, offset, i + ENTRY_SIZE, after)
  {
    NothingBetween(img, offset + i);
    CutOffStays(img, offset, i, before);
    CutOffStep(img, offset, offset + i);
  }

  lemma NothingBetween(img: bytes, at: nat)
    requires at % ENTRY_SIZE == 0
    ensures forall o: nat :: at < o < at + ENTRY_SIZE ==> !MakeromAt(img, o)
  {
  }

  lemma CutOffStep(img: bytes, lo: nat, at: nat)
    requires lo <= at && at % ENTRY_SIZE == 0
    ensures CutOffIn(img, lo, at + ENTRY_SIZE) <==> CutOffIn(img, lo, at) || CutOffAt(img, at)
  {
    NothingBetween(img, at);
  }

  lemma TailSearched(img: bytes, offset: nat, i: nat, want: nat, result: Code)
    requires offset % CHUNK_SIZE == 0 && i % ENTRY_SIZE == 0 && i <= want < i + ENTRY_SIZE
    requires want == CHUNK_SIZE || offset + want == |img|
    requires InChunk(img, offset, i, result)
    ensures InChunk(img, offset, want, result)
  {
    assert forall o: nat :: offset + i <= o < offset + want ==> !MakeromAt(img, o);
  }
}
