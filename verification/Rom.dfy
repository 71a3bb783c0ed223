/**
 An open ROM and what can be read from it (lib/rom_stat.c, lib/rom_read.c, lib/rom_dma.c).
 */
module Rom {
  import opened Bytes
  import opened Wrappers
  import opened Io
  import opened Dma
  import opened Yaz0
  import opened Unpack

  datatype Kind = DeletedEntry | StoredEntry | CompressedEntry

  datatype Method = Store | Packed

  datatype Stat = Stat(how: Method, offset: u32, size: u32, fileSize: u32)

  // What an open ROM is to a reader: its bytes and its table.
  datatype RomView = RomView(image: bytes, table: seq<Dma>)

  function KindOf(e: Dma): Kind {
    if e.romEnd == UINT32_MAX then DeletedEntry
    else if e.romEnd == 0 then StoredEntry
    else CompressedEntry
  }

  function StatEntry(c: Codec, image: bytes, e: Dma): Result<Stat, Code> {
    match KindOf(e)
    case DeletedEntry => Failure(Deleted)
    case StoredEntry =>
      if e.vromStart > e.vromEnd then Failure(OutOfRange)
      else Success(Stat(Store, e.romStart, e.vromEnd - e.vromStart, e.vromEnd - e.vromStart))
    case CompressedEntry =>
      if e.vromStart > e.vromEnd || e.romStart > e.romEnd then Failure(OutOfRange)
      else StatPacked(c, image, e.romStart, e.romEnd - e.romStart)
  }

  // The real size of a compressed file is in its Yaz0 header.
  function StatPacked(c: Codec, image: bytes, offset: u32, size: u32): Result<Stat, Code> {
    if size < HEADER_SIZE then Failure(OutOfRange)
    else if offset + HEADER_SIZE > |image| then Failure(Truncated)
    else
      match c.header(image[offset..offset + HEADER_SIZE])
      case None => Failure(DecompressError)
      case Some(n) => Success(Stat(Packed, offset, size, n))
  }

  function StatOf(c: Codec, v: RomView, index: nat): Result<Stat, Code> {
    if index >= |v.table| then Failure(OutOfRange) else StatEntry(c, v.image, v.table[index])
  }

  // Method, extent and size of a file, or the error for which there are none.
  lemma StatExactly(c: Codec, v: RomView, index: nat)
    ensures index >= |v.table| ==> StatOf(c, v, index) == Failure(OutOfRange)
    ensures index < |v.table| ==>
      var e := v.table[index];
      StatOf(c, v, index) ==
        if e.romEnd == 0xFFFF_FFFF then Failure(Deleted)
        else if e.vromStart > e.vromEnd then Failure(OutOfRange)
        else if e.romEnd == 0 then Success(Stat(Store, e.romStart, e.vromEnd - e.vromStart, e.vromEnd - e.vromStart))
        else if e.romStart + 16 > e.romEnd then Failure(OutOfRange)
        else if e.romStart + 16 > |v.image| then Failure(Truncated)
        else
          match c.header(v.image[e.romStart..e.romStart + 16])
          case None => Failure(DecompressError)
          case Some(n) => Success(Stat(Packed, e.romStart, e.romEnd - e.romStart, n))
  {
  }

  predicate Inside(image: bytes, st: Stat) { st.offset + st.size <= |image| }

  function Storage(image: bytes, st: Stat): (b: bytes)
    requires Inside(image, st)
    ensures |b| == st.size
  {
    image[st.offset..st.offset + st.size]
  }

  // The part of an extent that lies in the ROM.
  function Part(image: bytes, st: Stat): (b: bytes)
    ensures |b| <= st.size && (Inside(image, st) ==> b == Storage(image, st))
  {
    if st.offset >= |image| then [] else image[st.offset..st.offset + Min(st.size, |image| - st.offset)]
  }

  // What reading a whole extent may give: the bytes that are in the ROM, and anything for the rest.
  predicate Fetched(image: bytes, st: Stat, d: bytes) {
    |d| == st.size && Part(image, st) <= d
  }

  // The file a reader gets, when its extent is in the ROM and it can be decompressed.
  function FileOf(c: Codec, v: RomView, index: nat): Option<bytes> {
    match StatOf(c, v, index)
    case Failure(_) => None
    case Success(st) =>
      if !Inside(v.image, st) then None
      else if st.how == Store then Some(Storage(v.image, st))
      else c.decode(Storage(v.image, st))
  }

  // What a successful stat says of a file: a stored one is as long as its extent; a compressed
  // one is at least as long as its header, which tells its size.
  lemma StatFacts(c: Codec, v: RomView, index: nat)
    requires StatOf(c, v, index).Success?
    ensures StatFits(c, v.image, StatOf(c, v, index).value)
  {
    var st := StatOf(c, v, index).value;
    if st.how == Packed {
      SubSlice(v.image, st.offset, st.offset + |Part(v.image, st)|, 0, HEADER_SIZE);
    }
  }

  ghost predicate StatFits(c: Codec, image: bytes, st: Stat) {
    if st.how == Store then st.fileSize == st.size
    else
      && st.size >= HEADER_SIZE && |Part(image, st)| >= HEADER_SIZE
      && c.header(Part(image, st)[..HEADER_SIZE]) == Some(st.fileSize)
  }

  lemma FetchedInside(image: bytes, st: Stat, d: bytes)
    requires Inside(image, st)
    ensures Fetched(image, st, d) <==> d == Storage(image, st)
  {
    if Fetched(image, st, d) {
      assert d[..|d|] == d;
    }
  }

  // How many of `size` bytes from `offset` on read_bytes finds: none past the end of the file or of the ROM.
  function ReadSize(image: bytes, st: Stat, size: nat, offset: nat): nat {
    if offset >= st.size then 0 else Available(|image|, Min(st.size - offset, size), st.offset + offset)
  }

  // That is what there is behind the offset of the part of the file that is in the ROM.
  lemma ReadsWhatIsThere(image: bytes, st: Stat, size: nat, offset: nat)
    ensures ReadSize(image, st, size, offset) == if offset < |Part(image, st)| then Min(size, |Part(image, st)| - offset) else 0
    ensures |Part(image, st)| == if st.offset < |image| then Min(st.size, |image| - st.offset) else 0
  {
  }

  class OpenRom {
    const io: Buffer
    var info: Info
    var dmadata: seq<Dma>

    constructor (io: Buffer)
      ensures this.io == io
    {
      this.io := io;
      info := Info(0, 0, 0);
      dmadata := [];
    }

    function View(): RomView
      reads this, io.data
    {
      RomView(io.Bytes(), dmadata)
    }

    // zelda64_read_dmadata: find the table, then load it 128 entries at a time.
    method ReadDmadata(error: Error) returns (found: bool)
      requires error.result == Ok
      modifies this, error
      ensures found <==> io.data.Length <= UINT32_MAX && HasTable(io.Bytes())
      ensures found ==>
        error.result == Ok && FirstSignature(io.Bytes(), info.offset)
        && info == InfoAt(io.Bytes(), info.offset) && dmadata == TableAt(io.Bytes(), info.offset)
      ensures !found ==> error.result == NotFound(io.Bytes()) && info == old(info) && dmadata == old(dmadata)
    {
      ghost var img := io.Bytes();
      var r := Find(io, error);
      if r == None {
        assert io.data.Length <= UINT32_MAX ==> NoSignatureBelow(img, |img|) && !HasTable(img);
        return false;
      }
      assert SignatureAt(img, r.value.offset) && HasTable(img);
      FoundTableFits(img, r.value.offset);
      var entries := LoadTable(io, r.value.offset, r.value.count, error);
      LoadedTable(img, r.value.offset, entries);
      info := r.value;
      dmadata := entries;
      found := true;
      assert io.Bytes() == img;
    }

    // zelda64_stat
    method StatFile(c: Codec, index: nat, error: Error) returns (st: Stat)
      modifies error
      ensures match StatOf(c, View(), index)
        case Success(s) => error.result == Ok && st == s
        case Failure(code) => error.result == code
    {
      error.Clear();
      st := Stat(Store, 0, 0, 0);
      if index >= |dmadata| {
        error.Set(OutOfRange);
        return;
      }
      var e := dmadata[index];
      match KindOf(e) {
        case DeletedEntry =>
          error.Set(Deleted);
        case StoredEntry =>
          if e.vromStart > e.vromEnd {
            error.Set(OutOfRange);
          } else {
            st := Stat(Store, e.romStart, e.vromEnd - e.vromStart, e.vromEnd - e.vromStart);
          }
        case CompressedEntry =>
          if e.vromStart > e.vromEnd || e.romStart > e.romEnd {
            error.Set(OutOfRange);
          } else {
            st := StatCompressed(c, e.romStart, e.romEnd - e.romStart, error);
          }
      }
    }

    method StatCompressed(c: Codec, offset: u32, size: u32, error: Error) returns (st: Stat)
      requires error.result == Ok
      modifies error
      ensures match StatPacked(c, io.Bytes(), offset, size)
        case Success(s) => error.result == Ok && st == s
        case Failure(code) => error.result == code
    {
      st := Stat(Packed, offset, size, 0);
      if size < HEADER_SIZE {
        error.Set(OutOfRange);
        return;
      }
      var header := new byte[HEADER_SIZE];
      var _ := io.ReadExact(header, HEADER_SIZE, offset, error);
      if error.result != Ok {
        return;
      }
      assert header[..] == header[..HEADER_SIZE];
      match c.header(header[..]) {
        case None => error.Set(DecompressError);
        case Some(n) => st := st.(fileSize := n);
      }
    }

    // Past the end of the file no bytes are read, and that is not an error.
    method ReadBytes(buffer: array<byte>, size: nat, offset: nat, st: Stat) returns (n: nat)
      requires size <= buffer.Length && buffer != io.data
      modifies buffer
      ensures n == ReadSize(io.Bytes(), st, size, offset)
      ensures n > 0 ==> buffer[..n] == io.Bytes()[st.offset + offset..st.offset + offset + n]
      ensures buffer[n..] == old(buffer[n..])
    {
      if offset >= st.size {
        return 0;
      }
      n := io.Read(buffer, Min(st.size - offset, size), st.offset + offset);
    }

    // zelda64_read_storage
    method ReadStorage(c: Codec, buffer: array<byte>, size: nat, index: nat, offset: nat, error: Error) returns (n: nat)
      requires size <= buffer.Length && buffer != io.data
      modifies buffer, error
      ensures match StatOf(c, View(), index)
        case Failure(code) => error.result == code && n == 0
        case Success(st) =>
          && error.result == Ok
          && n == ReadSize(io.Bytes(), st, size, offset)
          && (n > 0 ==> buffer[..n] == io.Bytes()[st.offset + offset..st.offset + offset + n])
    {
      var st := StatFile(c, index, error);
      if error.result != Ok {
        return 0;
      }
      n := ReadBytes(buffer, size, offset, st);
    }

    // The next bytes of a file, as far as the ROM goes.
    method ReadChunk(chunk: array<byte>, position: nat, st: Stat) returns (input: bytes)
      requires chunk.Length == CHUNK_SIZE && chunk != io.data && position <= |Part(io.Bytes(), st)|
      modifies chunk
      ensures |input| == Min(|Part(io.Bytes(), st)| - position, CHUNK_SIZE)
      ensures input == Part(io.Bytes(), st)[position..position + |input|]
    {
      var want := Min(st.size - position, CHUNK_SIZE);
      var got := ReadBytes(chunk, want, position, st);
      input := chunk[..got];
      PartBytes(io.Bytes(), st, position, want, input);
    }

    // Decompresses into a buffer that has room for the whole file, when its loop ends at all.
    method Decompress(c: Codec, buffer: array<byte>, st: Stat, error: Error) returns (n: nat)
      requires Contract(c) && error.result == Ok
      requires st.how == Packed && StatFits(c, io.Bytes(), st)
      requires Returns(c, Part(io.Bytes(), st), st.size, st.fileSize)
      requires st.fileSize <= buffer.Length && buffer != io.data
      modifies buffer, error
      ensures match c.decode(Part(io.Bytes(), st))
        case Some(x) => error.result == Ok && n == |x| <= buffer.Length && buffer[..n] == x
        case None => error.result == DecompressError && n == 0
    {
      ghost var whole := Part(io.Bytes(), st);
      ghost var left := RoundsLeft(c, whole, st.size, st.fileSize);
      var stream := NewStream(0);
      var position: nat := 0;
      var chunk := new byte[CHUNK_SIZE];
      while !stream.ended
        invariant error.result == Ok && |stream.sent| <= buffer.Length && buffer[..|stream.sent|] == stream.sent
        invariant if stream.ended then c.decode(whole) == Some(stream.sent)
                  else EndsIn(c, whole, st.size, st.fileSize, Reading(stream, position, Going), left)
        decreases left
      {
        var status;
        stream, position, status := DecompressNext(c, buffer, chunk, st, stream, position, left);
        left := left - 1;
        if status == Failed {
          error.Set(DecompressError);
          return 0;
        }
      }
      n := |stream.sent|;
    }

    // One round: the next chunk is read and decompressed behind what has been so far.
    method DecompressNext(c: Codec, buffer: array<byte>, chunk: array<byte>, st: Stat, s: Stream, at: nat, ghost left: nat)
      returns (t: Stream, position: nat, status: Status)
      requires Contract(c) && Headed(c, Part(io.Bytes(), st), st.size, st.fileSize) && !s.ended
      requires EndsIn(c, Part(io.Bytes(), st), st.size, st.fileSize, Reading(s, at, Going), left)
      requires st.fileSize <= buffer.Length && buffer != io.data && buffer[..|s.sent|] == s.sent
      requires chunk.Length == CHUNK_SIZE && chunk != io.data && chunk != buffer
      modifies buffer, chunk
      ensures |t.sent| <= buffer.Length && buffer[..|t.sent|] == t.sent && (t.ended <==> status == Ended) && left > 0
      ensures match status
        case Failed => c.decode(Part(io.Bytes(), st)) == None
        case Ended => c.decode(Part(io.Bytes(), st)) == Some(t.sent)
        case Going => EndsIn(c, Part(io.Bytes(), st), st.size, st.fileSize, Reading(t, position, Going), left - 1)
    {
      var input := ReadChunk(chunk, at, st);
      position := at + |input|;
      var r;
      r, t := UnpackCall(c, Part(io.Bytes(), st), st.size, st.fileSize, s, at, input, position == st.size, left);
      status := r.status;
      Append(buffer, |s.sent|, r.out);
    }

    // zelda64_read_file
    method ReadFile(c: Codec, buffer: array<byte>, size: nat, index: nat, error: Error) returns (n: nat)
      requires Contract(c) && size <= buffer.Length && buffer != io.data
      requires ReadReturns(c, View(), size, index)
      modifies buffer, error
      ensures match StatOf(c, View(), index)
        case Failure(code) => error.result == code && n == 0
        case Success(st) =>
          if size < st.fileSize then error.result == InvalidParameter && n == 0
          else
            match PartialFile(c, io.Bytes(), st)
            case Some(x) => error.result == Ok && n == |x| <= buffer.Length && buffer[..n] == x
            case None => error.result == DecompressError && n == 0
    {
      var st := StatFile(c, index, error);
      if error.result != Ok {
        return 0;
      }
      StatFacts(c, View(), index);
      if size < st.fileSize {
        error.Set(InvalidParameter);
        return 0;
      }
      if st.how == Packed {
        n := Decompress(c, buffer, st, error);
      } else {
        n := ReadBytes(buffer, size, 0, st);
        PartBytes(io.Bytes(), st, 0, size, buffer[..n]);
      }
    }
  }

  // What is in the ROM of a file: all of it, if its extent lies in it.
  function PartialFile(c: Codec, image: bytes, st: Stat): Option<bytes> {
    if st.how == Store then Some(Part(image, st)) else c.decode(Part(image, st))
  }

  /* When reading ends */

  // Reading a file into a buffer of this size goes through a loop that ends, or through none.
  ghost predicate ReadReturns(c: Codec, v: RomView, size: nat, index: nat)
    requires Contract(c)
  {
    match StatOf(c, v, index)
    case Failure(_) => true
    case Success(st) =>
      StatFacts(c, v, index);
      st.how == Packed && st.fileSize <= size ==> Returns(c, Part(v.image, st), st.size, st.fileSize)
  }

  // It ends exactly for every extent inside the ROM, for every other one that holds a whole file as
  // far as the ROM goes, and where the codec gives up.
  lemma ReadingEnds(c: Codec, v: RomView, size: nat, index: nat)
    requires Contract(c) && StatOf(c, v, index).Success? && StatFits(c, v.image, StatOf(c, v, index).value)
    requires StatOf(c, v, index).value.how == Packed && StatOf(c, v, index).value.fileSize <= size
    ensures var st := StatOf(c, v, index).value;
      ReadReturns(c, v, size, index)
      <==> EndableAt(c, v.image, st) || GivesUp(c, Part(v.image, st), st.size, st.fileSize)
  {
    var st := StatOf(c, v, index).value;
    ReturnsExactly(c, Part(v.image, st), st.size, st.fileSize);
  }

  predicate EndableAt(c: Codec, image: bytes, st: Stat) { Endable(c, Part(image, st), st.size) }

  lemma WholeFile(c: Codec, v: RomView, index: nat)
    requires StatOf(c, v, index).Success? && Inside(v.image, StatOf(c, v, index).value)
    ensures PartialFile(c, v.image, StatOf(c, v, index).value) == FileOf(c, v, index)
  {
  }

  lemma PartBytes(image: bytes, st: Stat, offset: nat, size: nat, input: bytes)
    requires |input| == ReadSize(image, st, size, offset) && offset <= |Part(image, st)|
    requires input != [] ==> input == image[st.offset + offset..st.offset + offset + |input|]
    ensures |input| == Min(|Part(image, st)| - offset, size)
    ensures input == Part(image, st)[offset..offset + |input|]
  {
    if input != [] {
      SubSlice(image, st.offset, st.offset + |Part(image, st)|, offset, offset + |input|);
    }
  }

  // Entries of 16 bytes each, from `from` on.
  ghost predicate Loaded(img: bytes, from: nat, entries: seq<Dma>) {
    && from + ENTRY_SIZE * |entries| <= |img|
    && forall k :: 0 <= k < |entries| ==> entries[k] == EntryAt(img, from + ENTRY_SIZE * k)
  }

  lemma LoadedAppend(img: bytes, from: nat, entries: seq<Dma>, chunk: bytes, more: seq<Dma>)
    requires Loaded(img, from, entries) && Loaded(chunk, 0, more)
    requires from + ENTRY_SIZE * |entries| + |chunk| <= |img|
    requires chunk == img[from + ENTRY_SIZE * |entries|..from + ENTRY_SIZE * |entries| + |chunk|]
    ensures Loaded(img, from, entries + more)
  {
    forall k | 0 <= k < |more|
      ensures more[k] == EntryAt(img, from + ENTRY_SIZE * (|entries| + k))
    {
      ChunkEntry(chunk, img, from + ENTRY_SIZE * |entries|, ENTRY_SIZE * k);
    }
  }

  method LoadTable(io: Buffer, offset: nat, count: nat, error: Error) returns (entries: seq<Dma>)
    requires error.result == Ok && offset + ENTRY_SIZE * count <= io.data.Length
    modifies error
    ensures error.result == Ok && |entries| == count && Loaded(io.Bytes(), offset, entries)
  {
    ghost var img := io.Bytes();
    entries := [];
    var chunk := new byte[ENTRY_SIZE * READ_COUNT];
    var i := 0;
    while i < count
      invariant i <= count && |entries| == i && error.result == Ok
      invariant Loaded(img, offset, entries)
    {
      var want := Min(count - i, READ_COUNT);
      var _ := io.ReadExact(chunk, ENTRY_SIZE * want, offset + ENTRY_SIZE * i, error);
      var more := LoadChunk(chunk[..ENTRY_SIZE * want], want);
      LoadedAppend(img, offset, entries, chunk[..ENTRY_SIZE * want], more);
      entries := entries + more;
      i := i + want;
    }
  }

  method LoadChunk(chunk: bytes, want: nat) returns (entries: seq<Dma>)
    requires |chunk| == ENTRY_SIZE * want
    ensures |entries| == want && Loaded(chunk, 0, entries)
  {
    entries := [];
    var j := 0;
    while j < want
      invariant j <= want && |entries| == j && Loaded(chunk, 0, entries)
    {
      entries := entries + [Parse(chunk[ENTRY_SIZE * j..ENTRY_SIZE * j + ENTRY_SIZE])];
      j := j + 1;
    }
  }

  lemma LoadedTable(img: bytes, o: nat, entries: seq<Dma>)
    requires SignatureAt(img, o) && |entries| == InfoAt(img, o).count && Loaded(img, o, entries)
    ensures entries == TableAt(img, o)
  {
    FoundTableFits(img, o);
    forall k | 0 <= k < |entries|
      ensures |TableAt(img, o)| == |entries| && entries[k] == TableAt(img, o)[k]
    {
      FoundEntry(img, o, k);
    }
  }

  // The stream's output lands behind what it has written so far.
  method Append(buffer: array<byte>, at: nat, out: bytes)
    requires at + |out| <= buffer.Length
    modifies buffer
    ensures buffer[..at + |out|] == old(buffer[..at]) + out
  {
    forall i | 0 <= i < |out| {
      buffer[at + i] := out[i];
    }
  }
}
