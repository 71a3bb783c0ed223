/**
 A codec that keeps the contract: a Yaz0 header followed by groups of literal bytes only.
 It shows that the contract can be met; libyaz0's own encoder is not modelled.
 */
module Yaz0Literal {
  import opened Bytes
  import opened Wrappers
  import opened Yaz0
  import opened Unpack

  const MAGIC: bytes := [0x59, 0x61, 0x7A, 0x30]  // "Yaz0"
  const RESERVED: bytes := [0, 0, 0, 0, 0, 0, 0, 0]
  const ALL_LITERAL: byte := 0xFF
  const GROUP: nat := 8

  function Header(h: bytes): Option<u32> {
    if |h| == HEADER_SIZE && h[..4] == MAGIC then Some(ReadU32(h[4..8])) else None
  }

  function EncodeGroups(x: bytes): (b: bytes)
    ensures |b| == |x| + (|x| + 7) / 8
  {
    if x == [] then []
    else
      var k := Min(GROUP, |x|);
      [ALL_LITERAL] + x[..k] + EncodeGroups(x[k..])
  }

  function DecodeGroups(b: bytes, n: nat): (x: Option<bytes>)
    ensures x.Some? ==> |x.value| == n
    decreases n
  {
    if n == 0 then Some([])
    else
      var k := Min(GROUP, n);
      if |b| < 1 + k || b[0] != ALL_LITERAL then None
      else
        var rest := DecodeGroups(b[1 + k..], n - k);
        if rest.None? then None else Some(b[1..1 + k] + rest.value)
  }

  function Encode(x: bytes): bytes {
    MAGIC + BigEndian32(Wrap(|x|)) + RESERVED + EncodeGroups(x)
  }

  function Decode(a: bytes): Option<bytes> {
    if |a| < HEADER_SIZE || Header(a[..HEADER_SIZE]).None? then None
    else DecodeGroups(a[HEADER_SIZE..], Header(a[..HEADER_SIZE]).value)
  }

  function Bound(n: nat): nat { HEADER_SIZE + n + (n + 7) / 8 }

  // Takes everything in, then sends the compressed file as fast as there is room.
  function CompressStep(s: Stream, input: bytes, room: nat, finish: bool): Call {
    if s.ended then Call(0, [], Ended, s.inner)
    else if !finish then Call(|input|, [], Going, s.inner)
    else SendFrom(Encode(s.fed + input), s, input, room)
  }

  // Takes in whatever comes until it makes up a file, then sends that as fast as there is room.
  function DecompressStep(s: Stream, input: bytes, room: nat, finish: bool): Call {
    var seen := s.fed + input;
    if s.ended then Call(0, [], Ended, s.inner)
    else if Decode(seen).Some? then SendFrom(Decode(seen).value, s, input, room)
    else if finish || (|seen| >= HEADER_SIZE && Header(seen[..HEADER_SIZE]).None?) then
      Call(0, [], Failed, s.inner)
    else Call(|input|, [], Going, s.inner)
  }

  function SendFrom(file: bytes, s: Stream, input: bytes, room: nat): Call {
    var from := Min(|s.sent|, |file|);
    var to := Min(from + room, |file|);
    Call(|input|, file[from..to], if to == |file| then Ended else Going, s.inner)
  }

  predicate Compressing(s: Stream) {
    || s.ended
    || (|s.fed| < s.size && s.sent == [])
    || (|s.fed| == s.size && s.sent < Encode(s.fed))
  }

  predicate Decompressing(s: Stream) {
    || (s.ended && Decode(s.fed) == Some(s.sent))
    || (!s.ended && Decode(s.fed).None? && s.sent == [])
    || (!s.ended && Decode(s.fed).Some? && s.sent < Decode(s.fed).value)
  }

  const LITERAL_CODEC: Codec :=
    Codec(Encode, Decode, Header, Bound, CompressStep, DecompressStep, Compressing, Decompressing)

  lemma {:induction false} GroupsRoundTrip(x: bytes)
    ensures DecodeGroups(EncodeGroups(x), |x|) == Some(x)
    decreases |x|
  {
    if x == [] {
    } else {
      var k := Min(GROUP, |x|);
      var b := EncodeGroups(x);
      GroupsRoundTrip(x[k..]);
      assert b[1 + k..] == EncodeGroups(x[k..]);
      assert b[1..1 + k] == x[..k];
      assert x == x[..k] + x[k..];
    }
  }

  lemma {:induction false} GroupsIgnoreTail(b: bytes, n: nat, t: bytes)
    requires DecodeGroups(b, n).Some?
    ensures DecodeGroups(b + t, n) == DecodeGroups(b, n)
    decreases n
  {
    if n == 0 {
    } else {
      var k := Min(GROUP, n);
      GroupsIgnoreTail(b[1 + k..], n - k, t);
      assert (b + t)[1 + k..] == b[1 + k..] + t;
      assert (b + t)[1..1 + k] == b[1..1 + k];
    }
  }

  lemma RoundTrip(x: bytes, e: bytes)
    requires |x| < TWO_32 && e == Encode(x)
    ensures Decode(e) == Some(x)
  {
    var n := BigEndian32(|x|);
    assert e[..HEADER_SIZE][..4] == MAGIC;
    assert e[..HEADER_SIZE][4..8] == n;
    assert e[HEADER_SIZE..] == EncodeGroups(x);
    ReadBigEndian(|x|);
    GroupsRoundTrip(x);
  }

  lemma TailIgnored(a: bytes, t: bytes)
    requires Decode(a).Some?
    ensures Decode(a + t) == Decode(a)
  {
    assert (a + t)[..HEADER_SIZE] == a[..HEADER_SIZE];
    assert (a + t)[HEADER_SIZE..] == a[HEADER_SIZE..] + t;
    GroupsIgnoreTail(a[HEADER_SIZE..], Header(a[..HEADER_SIZE]).value, t);
  }

  lemma PrefixDecides(seen: bytes, a: bytes)
    requires seen <= a && Decode(seen).Some?
    ensures Decode(a) == Decode(seen)
  {
    assert a == seen + a[|seen|..];
    TailIgnored(seen, a[|seen|..]);
  }

  // SendFrom moves along `file` without leaving it, and ends with its last byte.
  lemma SendFromMoves(file: bytes, s: Stream, input: bytes, room: nat)
    requires s.sent <= file
    ensures var r := SendFrom(file, s, input, room);
      && r.used == |input| && |r.out| <= room && r.status != Failed
      && Advance(s, input, r).fed == s.fed + input
      && s.sent + r.out <= file
      && (r.status == Ended <==> s.sent + r.out == file)
      && (r.status == Going ==> |r.out| == room)
      && (s.sent != file && room > 0 ==> r.out != [])
  {
    var r := SendFrom(file, s, input, room);
    assert input[..|input|] == input;
    assert s.sent + r.out == file[..|s.sent| + |r.out|];
  }

  lemma CompressStepKeeps(s: Stream, input: bytes, room: nat, finish: bool)
    requires Compressing(s) && !s.ended && |s.fed| + |input| <= s.size
    requires finish <==> |s.fed| + |input| == s.size
    ensures CompressCall(LITERAL_CODEC, s, input, room, finish, CompressStep(s, input, room, finish))
  {
    var t := Advance(s, input, CompressStep(s, input, room, finish));
    var file := Encode(s.fed + input);
    assert input[..|input|] == input;
    if finish {
      assert s.sent < file by {
        if |s.fed| == s.size {
          assert s.fed + input == s.fed;
        }
      }
      SendFromMoves(file, s, input, room);
      forall y | |y| == t.size && t.fed <= y
        ensures t.sent <= Encode(y)
      {
        assert y == t.fed;
      }
    }
  }

  lemma DecompressStepKeeps(s: Stream, input: bytes, room: nat, finish: bool)
    requires Decompressing(s)
    ensures DecompressCall(LITERAL_CODEC, s, input, room, finish, DecompressStep(s, input, room, finish))
  {
    if !s.ended {
      if Decode(s.fed + input).Some? {
        DecodedStepKeeps(s, input, room, finish);
      } else {
        UndecodedStepKeeps(s, input, room, finish);
      }
    }
  }

  lemma DecodedStepKeeps(s: Stream, input: bytes, room: nat, finish: bool)
    requires Decompressing(s) && !s.ended && Decode(s.fed + input).Some?
    ensures DecompressCall(LITERAL_CODEC, s, input, room, finish, DecompressStep(s, input, room, finish))
  {
    var file := Decode(s.fed + input).value;
    if Decode(s.fed).Some? {
      PrefixDecides(s.fed, s.fed + input);
    }
    SendFromMoves(file, s, input, room);
    var t := Advance(s, input, DecompressStep(s, input, room, finish));
    forall a | t.fed <= a && Decode(a).Some?
      ensures t.sent <= Decode(a).value
    {
      PrefixDecides(t.fed, a);
    }
  }

  lemma UndecodedStepKeeps(s: Stream, input: bytes, room: nat, finish: bool)
    requires Decompressing(s) && !s.ended && Decode(s.fed + input).None?
    ensures DecompressCall(LITERAL_CODEC, s, input, room, finish, DecompressStep(s, input, room, finish))
  {
    var seen := s.fed + input;
    assert input[..|input|] == input;
    NothingDecoded(s, seen);
    if DecompressStep(s, input, room, finish).status == Failed {
      StaysHopeless(seen, finish);
    }
  }

  lemma NothingDecoded(s: Stream, seen: bytes)
    requires Decompressing(s) && !s.ended && s.fed <= seen && Decode(seen).None?
    ensures s.sent == []
    ensures |seen| >= HEADER_SIZE && Header(seen[..HEADER_SIZE]).Some? ==> Header(seen[..HEADER_SIZE]).value > 0
  {
    if Decode(s.fed).Some? {
      PrefixDecides(s.fed, seen);
    }
  }

  lemma StaysHopeless(seen: bytes, last: bool)
    requires Decode(seen).None?
    requires last || (|seen| >= HEADER_SIZE && Header(seen[..HEADER_SIZE]).None?)
    ensures Hopeless(LITERAL_CODEC, seen, last)
  {
    forall a | seen <= a && (last ==> a == seen)
      ensures Decode(a) == None
    {
      if !last {
        assert a[..HEADER_SIZE] == seen[..HEADER_SIZE];
      }
    }
  }

  // A stream that is short of a whole file, and is not told that nothing will follow, only takes
  // what it is given; given nothing, it stays as it is.
  lemma WaitsForInput(s: Stream, input: bytes, room: nat)
    requires !s.ended && Decode(s.fed + input).None?
    requires |s.fed + input| >= HEADER_SIZE ==> Header((s.fed + input)[..HEADER_SIZE]).Some?
    ensures DecompressStep(s, input, room, false) == Call(|input|, [], Going, s.inner)
    ensures Advance(s, input, DecompressStep(s, input, room, false)) == s.(fed := s.fed + input)
  {
    assert input[..|input|] == input && s.sent + [] == s.sent;
  }

  // The contract asks for nothing impossible.
  lemma LiteralCodecKeepsContract()
    ensures Contract(LITERAL_CODEC)
  {
    forall q
      ensures Meets(LITERAL_CODEC, q)
    {
      match q
      case Restore(x) => MeetsRestore(x);
      case IgnoreTail(a, t) => MeetsIgnoreTail(a, t);
      case TellSize(a) =>
      case KeepBound(x) =>
      case StartCompressing(n) =>
      case GoOnCompressing(s, input, room, finish) => MeetsCompress(s, input, room, finish);
      case StartDecompressing =>
      case GoOnDecompressing(s, input, room, finish) => MeetsDecompress(s, input, room, finish);
    }
  }

  lemma MeetsRestore(x: bytes)
    ensures Meets(LITERAL_CODEC, Restore(x))
  {
    if |x| < TWO_32 {
      RoundTrip(x, Encode(x));
    }
  }

  lemma MeetsIgnoreTail(a: bytes, t: bytes)
    ensures Meets(LITERAL_CODEC, IgnoreTail(a, t))
  {
    if Decode(a).Some? {
      TailIgnored(a, t);
    }
  }

  lemma MeetsCompress(s: Stream, input: bytes, room: nat, finish: bool)
    ensures Meets(LITERAL_CODEC, GoOnCompressing(s, input, room, finish))
  {
    if Compressing(s) && !s.ended && |s.fed| + |input| <= s.size && finish == (|s.fed| + |input| == s.size) {
      CompressStepKeeps(s, input, room, finish);
    }
  }

  lemma MeetsDecompress(s: Stream, input: bytes, room: nat, finish: bool)
    ensures Meets(LITERAL_CODEC, GoOnDecompressing(s, input, room, finish))
  {
    if Decompressing(s) {
      DecompressStepKeeps(s, input, room, finish);
    }
  }

  /* When the reading loop ends */

  // Of an extent that is cut short before a whole file, it reads what there is and then goes on
  // for ever.
  lemma {:induction false} KeepsWaiting(whole: bytes, size: nat, n: nat, k: nat)
    requires Contract(LITERAL_CODEC) && Headed(LITERAL_CODEC, whole, size, n) && !Endable(LITERAL_CODEC, whole, size)
    ensures Rounds(LITERAL_CODEC, whole, size, n, k).status == Going
  {
    if k == 0 {
    } else {
      KeepsWaiting(whole, size, n, k - 1);
      WaitingRound(LITERAL_CODEC, whole, size, n, Rounds(LITERAL_CODEC, whole, size, n, k - 1));
    }
  }

  lemma WaitingRound(c: Codec, whole: bytes, size: nat, n: nat, s: Reading)
    requires Contract(c) && c == LITERAL_CODEC && Headed(c, whole, size, n) && !Endable(c, whole, size)
    requires Unpacking(c, whole, n, s) && s.status == Going
    ensures Round(c, whole, size, n, s).status == Going
  {
    var input := NextInput(whole, s.position);
    assert s.stream.fed + input == whole[..s.position + |input|];
    SeenIsShort(whole, s.stream.fed + input);
    WaitsForInput(s.stream, input, n - |s.stream.sent|);
  }

  lemma SeenIsShort(whole: bytes, seen: bytes)
    requires seen <= whole && Decode(whole).None? && |whole| >= HEADER_SIZE && Header(whole[..HEADER_SIZE]).Some?
    ensures Decode(seen).None?
    ensures |seen| >= HEADER_SIZE ==> Header(seen[..HEADER_SIZE]).Some?
  {
    if Decode(seen).Some? {
      PrefixDecides(seen, whole);
    }
    if |seen| >= HEADER_SIZE {
      assert seen[..HEADER_SIZE] == whole[..HEADER_SIZE];
    }
  }

  // So this codec's reading ends exactly with a whole file, or with the whole extent.
  lemma LiteralReturns(whole: bytes, size: nat, n: nat)
    requires Contract(LITERAL_CODEC) && Headed(LITERAL_CODEC, whole, size, n)
    ensures Returns(LITERAL_CODEC, whole, size, n) <==> Endable(LITERAL_CODEC, whole, size)
    ensures !Endable(LITERAL_CODEC, whole, size) ==> Hangs(LITERAL_CODEC, whole, size, n)
  {
    if Endable(LITERAL_CODEC, whole, size) {
      EndableReturns(LITERAL_CODEC, whole, size, n);
    } else {
      forall k: nat
        ensures Rounds(LITERAL_CODEC, whole, size, n, k).status == Going
      {
        KeepsWaiting(whole, size, n, k);
      }
    }
  }
}
