/**
 What the library asks of libyaz0, as a contract on a codec that is passed in.

 A stream is known by its history: what it was fed and what it sent, besides whatever the
 codec keeps for itself in `inner`.
 */
module Yaz0 {
  import opened Bytes
  import opened Wrappers

  // Negative results, YAZ0_OK and YAZ0_STREAM_END
  datatype Status = Failed | Going | Ended

  datatype Stream = Stream(size: nat, fed: bytes, sent: bytes, ended: bool, inner: bytes)

  // The effect of one call: avail_in shrinks by `used`, avail_out by |out|.
  datatype Call = Call(used: nat, out: bytes, status: Status, inner: bytes)

  // (stream, available input, room for output, YAZ0_FINISH?)
  type Machine = (Stream, bytes, nat, bool) -> Call

  datatype Codec = Codec(
    encode: bytes -> bytes,
    decode: bytes -> Option<bytes>,
    header: bytes -> Option<u32>,
    bound: nat -> nat,
    compress: Machine,
    decompress: Machine,
    compressing: Stream -> bool,
    decompressing: Stream -> bool
  )

  const HEADER_SIZE: nat := 16

  function NewStream(size: nat): Stream { Stream(size, [], [], false, []) }

  function Advance(s: Stream, input: bytes, r: Call): Stream
    requires r.used <= |input|
  {
    Stream(s.size, s.fed + input[..r.used], s.sent + r.out, r.status == Ended, r.inner)
  }

  /* One call of a stream */

  // A call consumes, fills or moves forward; it does not stand still while there is work to do.
  predicate Moves(input: bytes, room: nat, finish: bool, r: Call) {
    && (r.used == |input| || |r.out| == room)
    && (room > 0 && (input != [] || finish) ==> r.used > 0 || r.out != [])
  }

  // A compressor sends the beginning of what the whole input compresses to, and all of it in the end.
  ghost predicate CompressCall(c: Codec, s: Stream, input: bytes, room: nat, finish: bool, r: Call) {
    && r.status != Failed && r.used <= |input| && |r.out| <= room
    && var t := Advance(s, input, r);
    && c.compressing(t)
    && SendsEncoded(c, t)
    && (r.status == Going ==> Moves(input, room, finish, r))
    && (r.status == Ended ==> |t.fed| == t.size && t.sent == c.encode(t.fed))
  }

  ghost predicate SendsEncoded(c: Codec, t: Stream) {
    forall y :: |y| == t.size && t.fed <= y ==> t.sent <= c.encode(y)
  }

  // A decompressor sends the beginning of the file, and all of it in the end; then it stays there.
  // It does not keep a file back: with input and room to spare it has ended as soon as there is one.
  ghost predicate DecompressCall(c: Codec, s: Stream, input: bytes, room: nat, finish: bool, r: Call) {
    && r.used <= |input| && |r.out| <= room
    && (s.ended ==> r == Call(0, [], Ended, s.inner))
    && (!s.ended ==>
         var t := Advance(s, input, r);
         && (r.status == Failed ==> Hopeless(c, s.fed + input, finish))
         && (r.status != Failed ==> c.decompressing(t) && SendsPrefix(c, t))
         && (r.status == Going ==> Moves(input, room, finish, r) && WantsMore(c, t, r.used == |input|))
         && (r.status == Going && r.used == |input| && |r.out| < room ==> c.decode(t.fed) == None)
         && (r.status == Ended ==> c.decode(t.fed) == Some(t.sent)))
  }

  // No compressed file begins with these bytes (or, with nothing to follow, is these bytes).
  ghost predicate Hopeless(c: Codec, seen: bytes, last: bool) {
    forall a :: seen <= a && (last ==> a == seen) ==> c.decode(a) == None
  }

  ghost predicate SendsPrefix(c: Codec, t: Stream) {
    forall a :: t.fed <= a && c.decode(a).Some? ==> t.sent <= c.decode(a).value
  }

  // A stream that has not ended is short of its header, and has sent nothing, or is short of the
  // size its header tells.
  ghost predicate WantsMore(c: Codec, t: Stream, drained: bool) {
    if |t.fed| < HEADER_SIZE then drained && t.sent == []
    else c.header(t.fed[..HEADER_SIZE]).Some? && |t.sent| < c.header(t.fed[..HEADER_SIZE]).value
  }

  /* The contract */

  // What a codec can be asked to do.
  datatype Request =
    | Restore(x: bytes)
    | IgnoreTail(a: bytes, t: bytes)
    | TellSize(a: bytes)
    | KeepBound(x: bytes)
    | StartCompressing(n: nat)
    | GoOnCompressing(s: Stream, input: bytes, room: nat, finish: bool)
    | StartDecompressing
    | GoOnDecompressing(s: Stream, input: bytes, room: nat, finish: bool)

  ghost predicate Meets(c: Codec, q: Request) {
    match q
    case Restore(x) => |x| < TWO_32 ==> c.decode(c.encode(x)) == Some(x)
    case IgnoreTail(a, t) => c.decode(a).Some? ==> c.decode(a + t) == c.decode(a)
    case TellSize(a) =>
      c.decode(a).Some? ==>
        |a| >= HEADER_SIZE && c.header(a[..HEADER_SIZE]).Some?
        && c.header(a[..HEADER_SIZE]).value == |c.decode(a).value|
    case KeepBound(x) => |x| < TWO_32 ==> |c.encode(x)| <= c.bound(|x|)
    case StartCompressing(n) => n < TWO_32 ==> c.compressing(NewStream(n))
    case GoOnCompressing(s, input, room, finish) =>
      // within the announced size, with YAZ0_FINISH exactly when the last byte is on offer
      c.compressing(s) && !s.ended && s.size < TWO_32 && |s.fed| + |input| <= s.size
      && finish == (|s.fed| + |input| == s.size)
      ==> CompressCall(c, s, input, room, finish, c.compress(s, input, room, finish))
    case StartDecompressing => c.decompressing(NewStream(0))
    case GoOnDecompressing(s, input, room, finish) =>
      c.decompressing(s) ==> DecompressCall(c, s, input, room, finish, c.decompress(s, input, room, finish))
  }

  ghost predicate Contract(c: Codec) {
    forall q :: Meets(c, q)
  }

  /* Its parts, one at a time */

  lemma DecodeEncode(c: Codec, x: bytes)
    requires Contract(c) && |x| < TWO_32
    ensures c.decode(c.encode(x)) == Some(x)
  {
    assert Meets(c, Restore(x));
  }

  // Bytes after the end of a compressed file are not looked at.
  lemma TailDecides(c: Codec, seen: bytes, whole: bytes)
    requires Contract(c) && seen <= whole && c.decode(seen).Some?
    ensures c.decode(whole) == c.decode(seen)
  {
    assert Meets(c, IgnoreTail(seen, whole[|seen|..]));
    assert whole == seen + whole[|seen|..];
  }

  lemma HeaderTells(c: Codec, a: bytes)
    requires Contract(c) && c.decode(a).Some?
    ensures |a| >= HEADER_SIZE && c.header(a[..HEADER_SIZE]).Some?
    ensures c.header(a[..HEADER_SIZE]).value == |c.decode(a).value|
  {
    assert Meets(c, TellSize(a));
  }

  lemma EncodeBound(c: Codec, x: bytes)
    requires Contract(c) && |x| < TWO_32
    ensures |c.encode(x)| <= c.bound(|x|)
  {
    assert Meets(c, KeepBound(x));
  }

  lemma OneDecompressCall(c: Codec, s: Stream, input: bytes, room: nat, finish: bool, r: Call)
    requires Contract(c) && c.decompressing(s) && r == c.decompress(s, input, room, finish)
    ensures DecompressCall(c, s, input, room, finish, r)
  {
    assert Meets(c, GoOnDecompressing(s, input, room, finish));
  }

  lemma OneCompressCall(c: Codec, s: Stream, input: bytes, room: nat, finish: bool, r: Call)
    requires Contract(c) && c.compressing(s) && !s.ended && s.size < TWO_32 && |s.fed| + |input| <= s.size
    requires finish == (|s.fed| + |input| == s.size) && r == c.compress(s, input, room, finish)
    ensures CompressCall(c, s, input, room, finish, r)
  {
    assert Meets(c, GoOnCompressing(s, input, room, finish));
  }

  /* Streams fed chunk by chunk: `seen` is what has been read so far, `left` what of it is not yet taken */

  ghost predicate Packing(c: Codec, size: nat, s: Stream, left: bytes, seen: bytes) {
    && s.size == size < TWO_32 && |seen| <= size && s.fed + left == seen
    && c.compressing(s)
    && SendsEncoded(c, s)
    && (s.ended ==> |s.fed| == size && s.sent == c.encode(s.fed))
  }

  lemma PackStart(c: Codec, size: nat)
    requires Contract(c) && size < TWO_32
    ensures Packing(c, size, NewStream(size), [], [])
  {
    assert Meets(c, StartCompressing(size));
  }

  // One call of yaz0_compress: nothing is dropped or repeated, and it gets somewhere.
  lemma PackStep(c: Codec, size: nat, s: Stream, left: bytes, seen: bytes, room: nat, r: Call)
    requires Contract(c) && Packing(c, size, s, left, seen) && !s.ended
    requires left != [] || |seen| == size
    requires room > 0 && r == c.compress(s, left, room, |seen| == size)
    ensures r.status != Failed && r.used <= |left| && |r.out| <= room
    ensures Packing(c, size, Advance(s, left, r), left[r.used..], seen)
    ensures r.status == Going ==> (left[r.used..] == [] || |r.out| == room) && (r.used > 0 || r.out != [])
  {
    OneCompressCall(c, s, left, room, |seen| == size, r);
    TakenAndLeft(s.fed, left, r.used);
  }

  lemma TakenAndLeft(fed: bytes, left: bytes, used: nat)
    requires used <= |left|
    ensures (fed + left[..used]) + left[used..] == fed + left
    ensures |left[used..]| == |left| - used
  {
  }

  // What is left to do, as long as the stream goes on.
  lemma PackBound(c: Codec, size: nat, s: Stream, left: bytes, seen: bytes)
    requires Contract(c) && Packing(c, size, s, left, seen)
    ensures |s.sent| <= c.bound(size)
  {
    var y := s.fed + Zeros(size - |s.fed|);
    EncodeBound(c, y);
    assert s.fed <= y;
  }

  function Zeros(n: nat): (z: bytes)
    ensures |z| == n
  {
    seq(n, _ => 0)
  }

  ghost predicate Draining(c: Codec, size: nat, s: Stream, left: bytes, seen: bytes) {
    && |seen| <= size && s.fed + left == seen
    && c.decompressing(s) && SendsPrefix(c, s)
    && (s.ended ==> c.decode(s.fed) == Some(s.sent))
    && (!s.ended ==> |s.sent| <= UINT32_MAX)
  }

  lemma DrainStart(c: Codec, size: nat)
    requires Contract(c)
    ensures Draining(c, size, NewStream(0), [], [])
  {
    assert Meets(c, StartDecompressing);
  }

  // One call of yaz0_decompress.
  lemma DrainStep(c: Codec, size: nat, s: Stream, left: bytes, seen: bytes, room: nat, r: Call)
    requires Contract(c) && Draining(c, size, s, left, seen)
    requires left != [] || |seen| == size
    requires room > 0 && r == c.decompress(s, left, room, |seen| == size)
    ensures r.used <= |left| && |r.out| <= room
    ensures s.ended ==> r.status == Ended && r.out == []
    ensures r.status == Failed ==> Hopeless(c, seen, |seen| == size)
    ensures r.status != Failed ==> Draining(c, size, Advance(s, left, r), left[r.used..], seen)
    ensures r.status == Going ==> (left[r.used..] == [] || |r.out| == room) && (r.used > 0 || r.out != [])
  {
    OneDecompressCall(c, s, left, room, |seen| == size, r);
    TakenAndLeft(s.fed, left, r.used);
    if s.ended {
      assert Advance(s, left, r) == s;
    }
  }

  // What is left to take and to send.
  ghost function Todo(c: Codec, size: nat, s: Stream): nat {
    (if |s.fed| <= size then size - |s.fed| else 0)
    + (if |s.sent| <= c.bound(size) then c.bound(size) - |s.sent| else 0)
  }

  lemma PackFeed(c: Codec, size: nat, s: Stream, seen: bytes, part: bytes)
    requires Packing(c, size, s, [], seen) && |seen| + |part| <= size
    ensures Packing(c, size, s, part, seen + part)
  {
    assert s.fed + [] == s.fed;
  }

  // yaz0_compress
  method PackCall(c: Codec, ghost size: nat, s: Stream, left: bytes, ghost seen: bytes, room: nat, finish: bool)
    returns (r: Call, t: Stream)
    requires Contract(c) && Packing(c, size, s, left, seen) && !s.ended
    requires finish == (|seen| == size) && (left != [] || finish) && room > 0
    ensures r.used <= |left| && |r.out| <= room && t == Advance(s, left, r) && r.status != Failed
    ensures Packing(c, size, t, left[r.used..], seen)
    ensures !t.ended ==> (left[r.used..] == [] || |r.out| == room) && Todo(c, size, t) < Todo(c, size, s)
    ensures t.ended ==> left[r.used..] == []
  {
    r := c.compress(s, left, room, finish);
    PackStep(c, size, s, left, seen, room, r);
    t := Advance(s, left, r);
    PackBound(c, size, s, left, seen);
    PackBound(c, size, t, left[r.used..], seen);
  }

  ghost function TodoDraining(size: nat, s: Stream): nat {
    (if |s.fed| <= size then size - |s.fed| else 0)
    + (if |s.sent| <= UINT32_MAX then UINT32_MAX - |s.sent| else 0)
  }

  lemma DrainFeed(c: Codec, size: nat, s: Stream, seen: bytes, part: bytes)
    requires Draining(c, size, s, [], seen) && |seen| + |part| <= size
    ensures Draining(c, size, s, part, seen + part)
  {
    assert s.fed + [] == s.fed;
  }

  // yaz0_decompress
  method DrainCall(c: Codec, ghost size: nat, s: Stream, left: bytes, ghost seen: bytes, room: nat, finish: bool)
    returns (r: Call, t: Stream)
    requires Contract(c) && Draining(c, size, s, left, seen)
    requires finish == (|seen| == size) && (left != [] || finish) && room > 0
    ensures r.used <= |left| && |r.out| <= room && t == Advance(s, left, r)
    ensures s.ended ==> r.status == Ended && r.out == []
    ensures r.status == Failed ==> Hopeless(c, seen, |seen| == size)
    ensures r.status != Failed ==> Draining(c, size, t, left[r.used..], seen)
    ensures r.status == Going ==>
      (left[r.used..] == [] || |r.out| == room) && TodoDraining(size, t) < TodoDraining(size, s)
  {
    r := c.decompress(s, left, room, finish);
    DrainStep(c, size, s, left, seen, room, r);
    t := Advance(s, left, r);
  }
}
