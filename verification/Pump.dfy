/**
 Copying, compressing and decompressing one file into the output, 1024 bytes at a time
 (lib/layout_write.c).
 */
module Pump {
  import opened Bytes
  import opened Wrappers
  import opened Io
  import opened Dma
  import opened Yaz0
  import opened Rom
  import opened Layout

  // How the output and the error object are left when a job is done at a position.
  ghost predicate Done(before: bytes, after: bytes, position: nat, job: Job, result: Code, n: nat) {
    && |after| == |before| && (result != Ok ==> n == 0)
    && match job
       case Skip => result == Ok && n == 0 && after == before
       case Bad(code) => result != Ok && (result == code || (code == DecompressError && result == OutOfRange))
       case Put(d) =>
         if position + |d| <= |before| then result == Ok && n == |d| && after == Splice(before, position, d)
         else result == OutOfRange
  }

  // The output while the first part of a file has been written.
  ghost predicate Begun(before: bytes, now: bytes, position: nat, part: bytes) {
    && |now| == |before|
    && (if position + |part| <= |before| then now == Splice(before, position, part) else part == [] && now == before)
  }

  lemma GoneOn(before: bytes, now: bytes, position: nat, part: bytes, more: bytes)
    requires Begun(before, now, position, part) && position + |part| + |more| <= |before|
    ensures Begun(before, Splice(now, position + |part|, more), position, part + more)
  {
    SpliceAppend(before, position, part, more);
  }

  // zelda64_io_write of the next chunk of a file, behind what has been written of it.
  method WriteOn(out: Buffer, chunk: array<byte>, have: nat, position: nat, at: nat, error: Error,
      ghost before: bytes, ghost sofar: bytes)
    returns (n: nat)
    requires error.result == Ok && have <= chunk.Length && chunk != out.data
    requires at == |sofar| && Begun(before, out.Bytes(), position, sofar)
    modifies out.data, error
    ensures out.data.Length == |before|
    ensures position + at + have <= |before| ==>
      error.result == Ok && n == have && Begun(before, out.Bytes(), position, sofar + chunk[..have])
    ensures position + at + have > |before| ==> error.result == OutOfRange
  {
    ghost var now := out.Bytes();
    n := out.Write(chunk, have, position + at, error);
    if error.result == Ok {
      GoneOn(before, now, position, sofar, chunk[..have]);
    }
  }

  // Hands a chunk of the stream's output on.
  method Emit(out: Buffer, chunk: array<byte>, part: bytes, position: nat, at: nat, error: Error,
      ghost before: bytes, ghost sofar: bytes)
    returns (n: nat)
    requires error.result == Ok && |part| <= chunk.Length && chunk != out.data
    requires at == |sofar| && Begun(before, out.Bytes(), position, sofar)
    modifies out.data, chunk, error
    ensures out.data.Length == |before|
    ensures position + at + |part| <= |before| ==>
      error.result == Ok && n == |part| && Begun(before, out.Bytes(), position, sofar + part)
    ensures position + at + |part| > |before| ==> error.result == OutOfRange
  {
    Append(chunk, 0, part);
    n := WriteOn(out, chunk, |part|, position, at, error, before, sofar);
  }

  // One of the two is the beginning of the other: what has been read of an extent, and its part in the ROM.
  ghost predicate ReadSoFar(img: bytes, st: Stat, seen: bytes) {
    |seen| <= st.size && (seen <= Part(img, st) || Part(img, st) <= seen)
  }

  // The next bytes are right as far as the ROM goes.
  ghost predicate Follows(img: bytes, st: Stat, at: nat, part: bytes) {
    forall k :: 0 <= k < |part| && at + k < |Part(img, st)| ==> part[k] == Part(img, st)[at + k]
  }

  lemma ReadOn(img: bytes, st: Stat, seen: bytes, part: bytes)
    requires ReadSoFar(img, st, seen) && |seen| + |part| <= st.size && Follows(img, st, |seen|, part)
    ensures ReadSoFar(img, st, seen + part)
  {
    var whole, now := Part(img, st), seen + part;
    if |now| <= |whole| {
      assert forall k :: 0 <= k < |now| ==> now[k] == whole[k];
    } else {
      assert forall k :: 0 <= k < |whole| ==> now[k] == whole[k];
    }
  }

  // Some way to read on to the end.
  function Complete(img: bytes, st: Stat, seen: bytes): (d: bytes)
    requires |seen| <= st.size
  {
    var longer := if |seen| < |Part(img, st)| then Part(img, st) else seen;
    longer + Zeros(st.size - |longer|)
  }

  lemma CompleteIsFetched(img: bytes, st: Stat, seen: bytes)
    requires ReadSoFar(img, st, seen)
    ensures seen <= Complete(img, st, seen) && Fetched(img, st, Complete(img, st, seen))
  {
  }

  lemma ReadAll(img: bytes, st: Stat, seen: bytes)
    requires ReadSoFar(img, st, seen) && |seen| == st.size
    ensures Fetched(img, st, seen)
  {
  }

  // Reads the next bytes of a file whose extent is known. Where they lie outside the ROM, the chunk
  // keeps what it held.
  method ReadPart(c: Codec, rom: OpenRom, chunk: array<byte>, have: nat, index: nat, st: Stat, offset: nat, error: Error)
    returns (part: bytes)
    requires StatOf(c, rom.View(), index) == Success(st) && offset + have <= st.size
    requires have <= chunk.Length && chunk != rom.io.data
    modifies chunk, error
    ensures error.result == Ok && part == chunk[..have]
    ensures Follows(rom.io.Bytes(), st, offset, part)
  {
    var n := rom.ReadStorage(c, chunk, have, index, offset, error);
    part := chunk[..have];
    ReadFollows(rom.io.Bytes(), st, offset, part, n);
  }

  lemma ReadFollows(img: bytes, st: Stat, offset: nat, part: bytes, n: nat)
    requires offset + |part| <= st.size && n == ReadSize(img, st, |part|, offset)
    requires n > 0 ==> part[..n] == img[st.offset + offset..st.offset + offset + n]
    ensures Follows(img, st, offset, part)
  {
    var whole, from := Part(img, st), st.offset + offset;
    ReadsWhatIsThere(img, st, |part|, offset);
    forall k | 0 <= k < |part| && offset + k < |whole|
      ensures part[k] == whole[offset + k]
    {
      assert k < n && part[k] == part[..n][k] == img[from..from + n][k] == img[from + k];
      assert whole == img[st.offset..st.offset + |whole|];
    }
  }

  // Reads the next chunk of a file behind what has been seen of it.
  method ReadNext(c: Codec, rom: OpenRom, chunk: array<byte>, index: nat, st: Stat, bytesIn: nat, error: Error,
      ghost seen: bytes)
    returns (part: bytes)
    requires StatOf(c, rom.View(), index) == Success(st) && chunk != rom.io.data && chunk.Length == CHUNK_SIZE
    requires bytesIn == |seen| && ReadSoFar(rom.io.Bytes(), st, seen)
    modifies chunk, error
    ensures error.result == Ok && (part != [] || bytesIn == st.size)
    ensures ReadSoFar(rom.io.Bytes(), st, seen + part)
  {
    var want := Min(st.size - bytesIn, CHUNK_SIZE);
    part := ReadPart(c, rom, chunk, want, index, st, bytesIn, error);
    ReadOn(rom.io.Bytes(), st, seen, part);
  }

  /* Copying */

  // copy_rom_file
  method CopyRomFile(out: Buffer, position: nat, c: Codec, rom: OpenRom, index: nat, error: Error)
    returns (bytesOut: nat, ghost job: Job)
    requires error.result == Ok && out.data != rom.io.data
    modifies out.data, error
    ensures JobAllowed(c, rom.View(), Copy, index, job)
    ensures Done(old(out.Bytes()), out.Bytes(), position, job, error.result, bytesOut)
  {
    ghost var v := rom.View();
    var st := rom.StatFile(c, index, error);
    if error.result != Ok {
      return 0, Bad(error.result);
    }
    ghost var d := Complete(v.image, st, []);
    CompleteIsFetched(v.image, st, []);
    if st.size == 0 {
      return 0, JobFor(c, Copy, st, d);
    }
    bytesOut, d := CopyBytes(out, position, c, rom, index, st, error);
    job := JobFor(c, Copy, st, d);
  }

  method CopyBytes(out: Buffer, position: nat, c: Codec, rom: OpenRom, index: nat, st: Stat, error: Error)
    returns (bytesOut: nat, ghost d: bytes)
    requires error.result == Ok && out.data != rom.io.data
    requires StatOf(c, rom.View(), index) == Success(st) && st.size > 0
    modifies out.data, error
    ensures Fetched(rom.io.Bytes(), st, d)
    ensures Done(old(out.Bytes()), out.Bytes(), position, Put(d), error.result, bytesOut)
  {
    ghost var before, img := out.Bytes(), rom.io.Bytes();
    bytesOut, d := 0, [];
    var chunk := new byte[CHUNK_SIZE];
    while bytesOut < st.size
      invariant bytesOut == |d| && error.result == Ok && out.data.Length == |before|
      invariant ReadSoFar(img, st, d) && Begun(before, out.Bytes(), position, d)
    {
      var n;
      n, d := CopyNext(out, chunk, position, c, rom, index, st, bytesOut, error, before, d);
      if error.result != Ok {
        return 0, d;
      }
      bytesOut := bytesOut + n;
    }
    ReadAll(img, st, d);
  }

  // The next chunk is read and written behind what was written of the file; when it does not fit,
  // the file is taken for one that may have been read.
  method CopyNext(out: Buffer, chunk: array<byte>, position: nat, c: Codec, rom: OpenRom, index: nat, st: Stat, bytesOut: nat,
      error: Error, ghost before: bytes, ghost seen: bytes)
    returns (n: nat, ghost d: bytes)
    requires error.result == Ok && StatOf(c, rom.View(), index) == Success(st) && bytesOut == |seen| < st.size
    requires out.data != rom.io.data && chunk != out.data && chunk != rom.io.data && chunk.Length == CHUNK_SIZE
    requires ReadSoFar(rom.io.Bytes(), st, seen) && Begun(before, out.Bytes(), position, seen)
    modifies out.data, chunk, error
    ensures out.data.Length == |before|
    ensures error.result == Ok ==>
      0 < n == |d| - |seen| && ReadSoFar(rom.io.Bytes(), st, d) && Begun(before, out.Bytes(), position, d)
      && position + |d| <= |before|
    ensures error.result != Ok ==>
      error.result == OutOfRange && Fetched(rom.io.Bytes(), st, d) && position + |d| > |before|
  {
    ghost var img := rom.io.Bytes();
    var have := Min(st.size - bytesOut, CHUNK_SIZE);
    var part := ReadPart(c, rom, chunk, have, index, st, bytesOut, error);
    ReadOn(img, st, seen, part);
    d := seen + part;
    n := WriteOn(out, chunk, have, position, bytesOut, error, before, seen);
    if error.result != Ok {
      d := Complete(img, st, d);
      CompleteIsFetched(img, st, seen + part);
    }
  }

  /* Compressing */

  // compress_rom_file
  method CompressRomFile(out: Buffer, position: nat, c: Codec, rom: OpenRom, index: nat, error: Error)
    returns (bytesOut: nat, ghost job: Job)
    requires Contract(c) && error.result == Ok && out.data != rom.io.data
    modifies out.data, error
    ensures JobAllowed(c, rom.View(), Compress, index, job)
    ensures Done(old(out.Bytes()), out.Bytes(), position, job, error.result, bytesOut)
  {
    ghost var v := rom.View();
    var st := rom.StatFile(c, index, error);
    if error.result != Ok {
      return 0, Bad(error.result);
    }
    ghost var d := Complete(v.image, st, []);
    CompleteIsFetched(v.image, st, []);
    if st.fileSize == 0 {
      return 0, JobFor(c, Compress, st, d);
    }
    bytesOut, d := CompressBytes(out, position, c, rom, index, st, error);
    job := JobFor(c, Compress, st, d);
  }

  method CompressBytes(out: Buffer, position: nat, c: Codec, rom: OpenRom, index: nat, st: Stat, error: Error)
    returns (totalOut: nat, ghost d: bytes)
    requires Contract(c) && error.result == Ok && out.data != rom.io.data
    requires StatOf(c, rom.View(), index) == Success(st)
    modifies out.data, error
    ensures Fetched(rom.io.Bytes(), st, d)
    ensures Done(old(out.Bytes()), out.Bytes(), position, Put(c.encode(d)), error.result, totalOut)
  {
    var inChunk, outChunk := new byte[CHUNK_SIZE], new byte[CHUNK_SIZE];
    PackStart(c, st.size);
    totalOut, d := CompressLoop(out, inChunk, outChunk, position, c, rom, index, st, error);
  }

  method CompressLoop(out: Buffer, inChunk: array<byte>, outChunk: array<byte>, position: nat, c: Codec, rom: OpenRom,
      index: nat, st: Stat, error: Error)
    returns (totalOut: nat, ghost d: bytes)
    requires Contract(c) && error.result == Ok && StatOf(c, rom.View(), index) == Success(st)
    requires Packing(c, st.size, NewStream(st.size), [], [])
    requires out.data != rom.io.data && inChunk != outChunk && inChunk != out.data && inChunk != rom.io.data
    requires outChunk != out.data && outChunk != rom.io.data && inChunk.Length == outChunk.Length == CHUNK_SIZE
    modifies out.data, inChunk, outChunk, error
    ensures Fetched(rom.io.Bytes(), st, d)
    ensures Done(old(out.Bytes()), out.Bytes(), position, Put(c.encode(d)), error.result, totalOut)
  {
    ghost var before := out.Bytes();
    d := [];
    var stream := NewStream(st.size);
    var bytesIn := 0;
    while !stream.ended
      invariant bytesIn == |d| && error.result == Ok
      invariant Packing(c, st.size, stream, [], d)
      invariant Begun(before, out.Bytes(), position, stream.sent)
      invariant stream.ended ==> position + |stream.sent| <= |before|
      invariant ReadSoFar(rom.io.Bytes(), st, d)
      decreases !stream.ended, Todo(c, st.size, stream)
    {
      var n;
      stream, n, d := CompressNext(out, inChunk, outChunk, position, c, rom, index, st, stream, bytesIn, error, before, d);
      if error.result != Ok {
        return 0, d;
      }
      bytesIn := bytesIn + n;
    }
    CompressedAll(c, rom.io.Bytes(), st, stream, d);
    totalOut := |stream.sent|;
  }

  // One round of the outer loop: the next chunk of the file is read, compressed and written.
  method CompressNext(out: Buffer, inChunk: array<byte>, outChunk: array<byte>, position: nat, c: Codec,
      rom: OpenRom, index: nat, st: Stat, stream: Stream, bytesIn: nat, error: Error, ghost before: bytes, ghost seen: bytes)
    returns (t: Stream, n: nat, ghost d: bytes)
    requires Contract(c) && error.result == Ok && StatOf(c, rom.View(), index) == Success(st)
    requires out.data != rom.io.data && inChunk != outChunk && inChunk != out.data && inChunk != rom.io.data
    requires outChunk != out.data && outChunk != rom.io.data && inChunk.Length == outChunk.Length == CHUNK_SIZE
    requires bytesIn == |seen| && ReadSoFar(rom.io.Bytes(), st, seen)
    requires !stream.ended && Packing(c, st.size, stream, [], seen) && Begun(before, out.Bytes(), position, stream.sent)
    modifies out.data, inChunk, outChunk, error
    ensures out.data.Length == |before|
    ensures error.result == Ok ==>
      n == |d| - |seen| && ReadSoFar(rom.io.Bytes(), st, d) && Packing(c, st.size, t, [], d)
      && Begun(before, out.Bytes(), position, t.sent) && position + |t.sent| <= |before|
      && (!t.ended ==> Todo(c, st.size, t) < Todo(c, st.size, stream))
    ensures error.result != Ok ==>
      error.result == OutOfRange && Fetched(rom.io.Bytes(), st, d) && position + |c.encode(d)| > |before|
  {
    ghost var img := rom.io.Bytes();
    var part := ReadNext(c, rom, inChunk, index, st, bytesIn, error, seen);
    PackFeed(c, st.size, stream, seen, part);
    n, d := |part|, seen + part;
    t := CompressChunk(out, outChunk, position, c, st.size, stream, part, d, bytesIn + |part| == st.size, error, before);
    if error.result != Ok {
      d := CompressedTooFar(c, img, st, t, d);
    }
  }

  // The inner loop: everything of one chunk goes in, and what comes out is written.
  method CompressChunk(out: Buffer, chunk: array<byte>, position: nat, c: Codec, ghost size: nat, stream: Stream,
      part: bytes, ghost seen: bytes, finish: bool, error: Error, ghost before: bytes)
    returns (t: Stream)
    requires Contract(c) && error.result == Ok && chunk != out.data && chunk.Length == CHUNK_SIZE
    requires Packing(c, size, stream, part, seen) && !stream.ended
    requires finish == (|seen| == size) && (part != [] || finish)
    requires Begun(before, out.Bytes(), position, stream.sent)
    modifies out.data, chunk, error
    ensures out.data.Length == |before|
    ensures error.result == Ok ==>
      Packing(c, size, t, [], seen) && Begun(before, out.Bytes(), position, t.sent)
      && position + |t.sent| <= |before|
      && (!t.ended ==> Todo(c, size, t) < Todo(c, size, stream))
    ensures error.result != Ok ==>
      error.result == OutOfRange && SendsEncoded(c, t) && t.size == size && t.fed <= seen
      && position + |t.sent| > |before|
  {
    t := stream;
    var left, more := part, true;
    while more
      invariant error.result == Ok && out.data.Length == |before|
      invariant Packing(c, size, t, left, seen) && Begun(before, out.Bytes(), position, t.sent)
      invariant more ==> !t.ended && (left != [] || finish) && Todo(c, size, t) <= Todo(c, size, stream)
      invariant !more ==> position + |t.sent| <= |before|
      invariant !more ==> left == [] && (!t.ended ==> Todo(c, size, t) < Todo(c, size, stream))
      decreases more, Todo(c, size, t)
    {
      var r, next := PackCall(c, size, t, left, seen, CHUNK_SIZE, finish);
      var _ := Emit(out, chunk, r.out, position, |t.sent|, error, before, t.sent);
      t := next;
      if error.result != Ok {
        return;
      }
      left := left[r.used..];
      more := |r.out| == CHUNK_SIZE && left != [];
    }
  }

  // A file that begins like what was sent, when there was no room for that.
  lemma CompressedTooFar(c: Codec, img: bytes, st: Stat, t: Stream, seen: bytes) returns (d: bytes)
    requires SendsEncoded(c, t) && t.size == st.size && t.fed <= seen && ReadSoFar(img, st, seen)
    ensures Fetched(img, st, d) && |t.sent| <= |c.encode(d)|
  {
    d := Complete(img, st, seen);
    CompleteIsFetched(img, st, seen);
    assert t.fed <= d;
  }

  lemma CompressedAll(c: Codec, img: bytes, st: Stat, t: Stream, seen: bytes)
    requires Packing(c, st.size, t, [], seen) && t.ended && ReadSoFar(img, st, seen)
    ensures Fetched(img, st, seen) && t.sent == c.encode(seen)
  {
    assert t.fed + [] == t.fed;
    ReadAll(img, st, seen);
  }

  /* Decompressing */

  // decompress_rom_file
  method DecompressRomFile(out: Buffer, position: nat, c: Codec, rom: OpenRom, index: nat, error: Error)
    returns (bytesOut: nat, ghost job: Job)
    requires Contract(c) && error.result == Ok && out.data != rom.io.data
    modifies out.data, error
    ensures JobAllowed(c, rom.View(), Decompress, index, job)
    ensures Done(old(out.Bytes()), out.Bytes(), position, job, error.result, bytesOut)
  {
    ghost var v := rom.View();
    var st := rom.StatFile(c, index, error);
    if error.result != Ok {
      return 0, Bad(error.result);
    }
    ghost var d := Complete(v.image, st, []);
    CompleteIsFetched(v.image, st, []);
    if st.fileSize == 0 {
      return 0, JobFor(c, Decompress, st, d);
    }
    bytesOut, d := DecompressBytes(out, position, c, rom, index, st, error);
    job := JobFor(c, Decompress, st, d);
  }

  method DecompressBytes(out: Buffer, position: nat, c: Codec, rom: OpenRom, index: nat, st: Stat, error: Error)
    returns (totalOut: nat, ghost d: bytes)
    requires Contract(c) && error.result == Ok && out.data != rom.io.data
    requires StatOf(c, rom.View(), index) == Success(st)
    modifies out.data, error
    ensures Fetched(rom.io.Bytes(), st, d)
    ensures Done(old(out.Bytes()), out.Bytes(), position, DecodeJob(c, d), error.result, totalOut)
  {
    ghost var before, img := out.Bytes(), rom.io.Bytes();
    d := [];
    var stream := NewStream(0);
    DrainStart(c, st.size);
    var bytesIn := 0;
    var inChunk, outChunk := new byte[CHUNK_SIZE], new byte[CHUNK_SIZE];
    while !stream.ended
      invariant bytesIn == |d| && error.result == Ok
      invariant if stream.ended then Drained(c, stream, d) else Draining(c, st.size, stream, [], d)
      invariant Begun(before, out.Bytes(), position, stream.sent)
      invariant stream.ended ==> position + |stream.sent| <= |before|
      invariant ReadSoFar(img, st, d)
      decreases !stream.ended, TodoDraining(st.size, stream)
    {
      var n;
      stream, n, d := DecompressNext(out, inChunk, outChunk, position, c, rom, index, st, stream, bytesIn, error, before, d);
      if error.result != Ok {
        return 0, d;
      }
      bytesIn := bytesIn + n;
    }
    DecompressedAll(c, img, st, stream, d);
    d := Complete(img, st, d);
    totalOut := |stream.sent|;
  }

  ghost predicate Drained(c: Codec, t: Stream, seen: bytes) {
    t.fed <= seen && c.decode(t.fed) == Some(t.sent)
  }

  method DecompressNext(out: Buffer, inChunk: array<byte>, outChunk: array<byte>, position: nat, c: Codec,
      rom: OpenRom, index: nat, st: Stat, stream: Stream, bytesIn: nat, error: Error, ghost before: bytes, ghost seen: bytes)
    returns (t: Stream, n: nat, ghost d: bytes)
    requires Contract(c) && error.result == Ok && StatOf(c, rom.View(), index) == Success(st)
    requires out.data != rom.io.data && inChunk != outChunk && inChunk != out.data && inChunk != rom.io.data
    requires outChunk != out.data && outChunk != rom.io.data && inChunk.Length == outChunk.Length == CHUNK_SIZE
    requires bytesIn == |seen| && ReadSoFar(rom.io.Bytes(), st, seen)
    requires !stream.ended && Draining(c, st.size, stream, [], seen) && Begun(before, out.Bytes(), position, stream.sent)
    modifies out.data, inChunk, outChunk, error
    ensures out.data.Length == |before|
    ensures error.result == Ok ==>
      n == |d| - |seen| && ReadSoFar(rom.io.Bytes(), st, d)
      && Begun(before, out.Bytes(), position, t.sent) && position + |t.sent| <= |before|
      && (t.ended ==> Drained(c, t, d))
      && (!t.ended ==> Draining(c, st.size, t, [], d) && TodoDraining(st.size, t) < TodoDraining(st.size, stream))
    ensures error.result != Ok ==>
      Fetched(rom.io.Bytes(), st, d) && Done(before, out.Bytes(), position, DecodeJob(c, d), error.result, 0)
  {
    var part := ReadNext(c, rom, inChunk, index, st, bytesIn, error, seen);
    DrainFeed(c, st.size, stream, seen, part);
    n, d := |part|, seen + part;
    t := DecompressChunk(out, outChunk, position, c, st.size, stream, part, d, bytesIn + |part| == st.size, error, before);
    if error.result != Ok {
      if error.result == DecompressError {
        CannotDecompress(c, rom.io.Bytes(), st, d);
      } else {
        DecompressedTooFar(c, rom.io.Bytes(), st, t, d);
      }
      d := Complete(rom.io.Bytes(), st, d);
    }
  }

  // The inner loop. It may call once more on a stream that has ended, which changes nothing.
  method DecompressChunk(out: Buffer, chunk: array<byte>, position: nat, c: Codec, ghost size: nat, stream: Stream,
      part: bytes, ghost seen: bytes, finish: bool, error: Error, ghost before: bytes)
    returns (t: Stream)
    requires Contract(c) && error.result == Ok && chunk != out.data && chunk.Length == CHUNK_SIZE
    requires Draining(c, size, stream, part, seen) && !stream.ended
    requires finish == (|seen| == size) && (part != [] || finish)
    requires Begun(before, out.Bytes(), position, stream.sent)
    modifies out.data, chunk, error
    ensures out.data.Length == |before|
    ensures error.result == Ok ==>
      Begun(before, out.Bytes(), position, t.sent) && position + |t.sent| <= |before|
      && (t.ended ==> Drained(c, t, seen))
      && (!t.ended ==> Draining(c, size, t, [], seen) && TodoDraining(size, t) < TodoDraining(size, stream))
    ensures error.result in {Ok, DecompressError, OutOfRange}
    ensures error.result == DecompressError ==> Hopeless(c, seen, |seen| == size)
    ensures error.result == OutOfRange ==> SendsPrefix(c, t) && t.fed <= seen && position + |t.sent| > |before|
  {
    t := stream;
    var left, more := part, true;
    while more
      invariant error.result == Ok && out.data.Length == |before|
      invariant Draining(c, size, t, left, seen) && Begun(before, out.Bytes(), position, t.sent)
      invariant more ==> left != [] || finish
      invariant more && !t.ended ==> TodoDraining(size, t) <= TodoDraining(size, stream)
      invariant !more ==> position + |t.sent| <= |before|
      invariant !more && !t.ended ==> left == [] && TodoDraining(size, t) < TodoDraining(size, stream)
      decreases !t.ended, TodoDraining(size, t), more
    {
      var r, next := DrainCall(c, size, t, left, seen, CHUNK_SIZE, finish);
      if r.status == Failed {
        error.Set(DecompressError);
        return;
      }
      var _ := Emit(out, chunk, r.out, position, |t.sent|, error, before, t.sent);
      t := next;
      if error.result != Ok {
        return;
      }
      left := left[r.used..];
      more := |r.out| == CHUNK_SIZE && left != [];
    }
  }

  lemma CannotDecompress(c: Codec, img: bytes, st: Stat, seen: bytes)
    requires ReadSoFar(img, st, seen) && Hopeless(c, seen, |seen| == st.size)
    ensures Fetched(img, st, Complete(img, st, seen)) && c.decode(Complete(img, st, seen)) == None
  {
    CompleteIsFetched(img, st, seen);
    assert seen <= Complete(img, st, seen);
  }

  lemma DecompressedTooFar(c: Codec, img: bytes, st: Stat, t: Stream, seen: bytes)
    requires SendsPrefix(c, t) && t.fed <= seen && ReadSoFar(img, st, seen)
    ensures var d := Complete(img, st, seen);
      Fetched(img, st, d) && (c.decode(d).Some? ==> |t.sent| <= |c.decode(d).value|)
  {
    CompleteIsFetched(img, st, seen);
    assert t.fed <= Complete(img, st, seen);
  }

  lemma DecompressedAll(c: Codec, img: bytes, st: Stat, t: Stream, seen: bytes)
    requires Contract(c) && Drained(c, t, seen) && ReadSoFar(img, st, seen)
    ensures var d := Complete(img, st, seen);
      Fetched(img, st, d) && c.decode(d) == Some(t.sent)
  {
    CompleteIsFetched(img, st, seen);
    TailDecides(c, t.fed, Complete(img, st, seen));
  }
}
