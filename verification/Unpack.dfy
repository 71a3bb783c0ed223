/**
 The loop that reads a compressed file into a buffer (decompress in lib/rom_read.c), as a function of
 how often it has gone round, and when it ends.
 */
module Unpack {
  import opened Bytes
  import opened Wrappers
  import opened Dma
  import opened Yaz0

  /* What the contract gives for one call with room for all that the header tells */

  // A call that stops for neither a failure nor the end of the file has taken all its input, and
  // has not seen a whole file. Where it is told that nothing will follow, it gets somewhere.
  lemma AmpleCall(c: Codec, whole: bytes, s: Stream, input: bytes, n: nat, finish: bool, r: Call)
    requires Contract(c) && c.decompressing(s) && !s.ended
    requires s.fed + input <= whole && |whole| >= HEADER_SIZE && c.header(whole[..HEADER_SIZE]) == Some(n)
    requires |s.fed| + |input| >= HEADER_SIZE && |s.sent| <= n
    requires s.fed != [] ==> |s.sent| < n
    requires finish ==> s.fed + input == whole
    requires r == c.decompress(s, input, n - |s.sent|, finish)
    ensures r.used <= |input| && |r.out| <= n - |s.sent|
    ensures r.status == Failed ==> c.decode(whole) == None
    ensures r.status == Ended ==> c.decode(whole) == Some(s.sent + r.out)
    ensures r.status == Going ==>
      var t := Advance(s, input, r);
      c.decompressing(t) && t.fed == s.fed + input && |t.sent| < n && c.decode(t.fed) == None
      && (finish ==> input != [] || r.out != [])
  {
    OneDecompressCall(c, s, input, n - |s.sent|, finish, r);
    if r.status == Failed {
      assert whole <= whole;
    } else if r.status == Ended {
      EndedDecides(c, whole, s, input, r);
    } else {
      GoingTakesAll(c, whole, s, input, n, r, Advance(s, input, r));
    }
  }

  lemma EndedDecides(c: Codec, whole: bytes, s: Stream, input: bytes, r: Call)
    requires Contract(c) && s.fed + input <= whole && r.used <= |input|
    requires c.decode(Advance(s, input, r).fed) == Some(s.sent + r.out)
    ensures c.decode(whole) == Some(s.sent + r.out)
  {
    TailDecides(c, s.fed + input[..r.used], whole);
  }

  lemma GoingTakesAll(c: Codec, whole: bytes, s: Stream, input: bytes, n: nat, r: Call, t: Stream)
    requires |whole| >= HEADER_SIZE && c.header(whole[..HEADER_SIZE]) == Some(n)
    requires r.used <= |input| && t == Advance(s, input, r) && s.fed + input <= whole
    requires |s.fed| + |input| >= HEADER_SIZE && |s.sent| <= n
    requires r.used == |input| || |r.out| == n - |s.sent|
    requires WantsMore(c, t, r.used == |input|)
    ensures r.used == |input| && t.fed == s.fed + input && |t.sent| < n
  {
    assert input[..|input|] == input;
    if |t.fed| >= HEADER_SIZE {
      assert t.fed[..HEADER_SIZE] == whole[..HEADER_SIZE];
    }
  }

  /* The loop */

  // `whole` is what is in the ROM of an extent of `size` bytes that decompresses to n.
  predicate Headed(c: Codec, whole: bytes, size: nat, n: nat) {
    HEADER_SIZE <= |whole| <= size && c.header(whole[..HEADER_SIZE]) == Some(n)
  }

  datatype Reading = Reading(stream: Stream, position: nat, status: Status)

  // What is true between two rounds, and in the end.
  ghost predicate Unpacking(c: Codec, whole: bytes, n: nat, s: Reading) {
    && s.position <= |whole| && |s.stream.sent| <= n && (s.stream.ended <==> s.status == Ended)
    && (s.status == Failed ==> c.decode(whole) == None)
    && (s.status == Ended ==> c.decode(whole) == Some(s.stream.sent))
    && (s.status == Going ==> Midway(c, whole, n, s.stream, s.position))
  }

  ghost predicate Midway(c: Codec, whole: bytes, n: nat, s: Stream, position: nat) {
    && position <= |whole| && c.decompressing(s) && s.fed == whole[..position]
    && (position > 0 ==> |s.sent| < n && position >= HEADER_SIZE)
    && (position == |whole| ==> c.decode(whole) == None)
  }

  function NextInput(whole: bytes, position: nat): bytes
    requires position <= |whole|
  {
    whole[position..position + Min(|whole| - position, CHUNK_SIZE)]
  }

  // One round: the next chunk of the ROM, with room for all that is still to come.
  ghost function Round(c: Codec, whole: bytes, size: nat, n: nat, s: Reading): (t: Reading)
    requires Contract(c) && Headed(c, whole, size, n) && Unpacking(c, whole, n, s) && s.status == Going
    ensures Unpacking(c, whole, n, t) && s.position <= t.position
    ensures t.status == Going && (t.position == |whole| ==> |whole| == size) ==> Left(whole, n, t) < Left(whole, n, s)
  {
    var input := NextInput(whole, s.position);
    var finish := s.position + |input| == size;
    var r := c.decompress(s.stream, input, n - |s.stream.sent|, finish);
    OneRound(c, whole, size, n, s, input, finish, r);
    Reading(Advance(s.stream, input, r), s.position + |input|, r.status)
  }

  // What is still to be read and to be sent.
  function Left(whole: bytes, n: nat, s: Reading): nat
    requires s.position <= |whole| && |s.stream.sent| <= n
  {
    |whole| - s.position + n - |s.stream.sent|
  }

  lemma OneRound(c: Codec, whole: bytes, size: nat, n: nat, s: Reading, input: bytes, finish: bool, r: Call)
    requires Contract(c) && Headed(c, whole, size, n) && Unpacking(c, whole, n, s) && s.status == Going
    requires input == NextInput(whole, s.position) && finish == (s.position + |input| == size)
    requires r == c.decompress(s.stream, input, n - |s.stream.sent|, finish)
    ensures r.used <= |input|
    ensures var t := Reading(Advance(s.stream, input, r), s.position + |input|, r.status);
      && Unpacking(c, whole, n, t)
      && (t.status == Going && (t.position == |whole| ==> |whole| == size) ==> Left(whole, n, t) < Left(whole, n, s))
  {
    assert s.stream.fed + input == whole[..s.position + |input|] && whole[..|whole|] == whole;
    AmpleCall(c, whole, s.stream, input, n, finish, r);
  }

  ghost function Rounds(c: Codec, whole: bytes, size: nat, n: nat, k: nat): (s: Reading)
    requires Contract(c) && Headed(c, whole, size, n)
    ensures Unpacking(c, whole, n, s)
  {
    if k == 0 then
      UnpackStart(c, whole, n);
      Reading(NewStream(0), 0, Going)
    else
      var s := Rounds(c, whole, size, n, k - 1);
      if s.status == Going then Round(c, whole, size, n, s) else s
  }

  lemma UnpackStart(c: Codec, whole: bytes, n: nat)
    requires Contract(c) && |whole| >= HEADER_SIZE
    ensures Unpacking(c, whole, n, Reading(NewStream(0), 0, Going))
  {
    assert Meets(c, StartDecompressing);
  }

  // The loop ends.
  ghost predicate Returns(c: Codec, whole: bytes, size: nat, n: nat)
    requires Contract(c) && Headed(c, whole, size, n)
  {
    exists k: nat :: Rounds(c, whole, size, n, k).status != Going
  }

  // The loop goes on for ever.
  ghost predicate Hangs(c: Codec, whole: bytes, size: nat, n: nat)
    requires Contract(c) && Headed(c, whole, size, n)
  {
    forall k: nat :: Rounds(c, whole, size, n, k).status == Going
  }

  // There is a whole file in the ROM, or all of the extent.
  predicate Endable(c: Codec, whole: bytes, size: nat) { |whole| == size || c.decode(whole).Some? }

  // With these it ends, whatever the codec.
  lemma EndableReturns(c: Codec, whole: bytes, size: nat, n: nat)
    requires Contract(c) && Headed(c, whole, size, n) && Endable(c, whole, size)
    ensures Returns(c, whole, size, n)
  {
    ReturnsFrom(c, whole, size, n, 0);
  }

  lemma {:induction false} ReturnsFrom(c: Codec, whole: bytes, size: nat, n: nat, k: nat)
    requires Contract(c) && Headed(c, whole, size, n) && Endable(c, whole, size)
    ensures Returns(c, whole, size, n)
    decreases Left(whole, n, Rounds(c, whole, size, n, k))
  {
    var s, t := Rounds(c, whole, size, n, k), Rounds(c, whole, size, n, k + 1);
    if s.status == Going && t.status == Going {
      ReturnsFrom(c, whole, size, n, k + 1);
    }
  }

  // The codec finds that nothing can come of what it has seen.
  ghost predicate GivesUp(c: Codec, whole: bytes, size: nat, n: nat)
    requires Contract(c) && Headed(c, whole, size, n)
  {
    exists k: nat :: Rounds(c, whole, size, n, k).status == Failed
  }

  // Without a whole file it does not end but by giving up.
  lemma ReturnsExactly(c: Codec, whole: bytes, size: nat, n: nat)
    requires Contract(c) && Headed(c, whole, size, n)
    ensures Returns(c, whole, size, n) <==> Endable(c, whole, size) || GivesUp(c, whole, size, n)
  {
    if Endable(c, whole, size) {
      EndableReturns(c, whole, size, n);
    }
  }

  // The reading that has gone so far ends after this many rounds more.
  ghost predicate EndsIn(c: Codec, whole: bytes, size: nat, n: nat, s: Reading, left: nat)
    requires Contract(c) && Headed(c, whole, size, n)
  {
    Unpacking(c, whole, n, s)
    && exists k: nat {:trigger Rounds(c, whole, size, n, k)} ::
      Rounds(c, whole, size, n, k) == s && Rounds(c, whole, size, n, k + left).status != Going
  }

  lemma RoundsLeft(c: Codec, whole: bytes, size: nat, n: nat) returns (left: nat)
    requires Contract(c) && Headed(c, whole, size, n) && Returns(c, whole, size, n)
    ensures EndsIn(c, whole, size, n, Reading(NewStream(0), 0, Going), left)
  {
    left :| Rounds(c, whole, size, n, left).status != Going;
    assert Rounds(c, whole, size, n, 0) == Reading(NewStream(0), 0, Going) && 0 + left == left;
  }

  lemma OneRoundLess(c: Codec, whole: bytes, size: nat, n: nat, s: Reading, left: nat)
    requires Contract(c) && Headed(c, whole, size, n) && EndsIn(c, whole, size, n, s, left) && s.status == Going
    ensures left > 0 && EndsIn(c, whole, size, n, Round(c, whole, size, n, s), left - 1)
  {
    var k: nat :| Rounds(c, whole, size, n, k) == s && Rounds(c, whole, size, n, k + left).status != Going;
    assert Rounds(c, whole, size, n, k + 1) == Round(c, whole, size, n, s);
    assert (k + 1) + (left - 1) == k + left;
  }

  // yaz0_decompress on the next chunk
  method UnpackCall(c: Codec, ghost whole: bytes, ghost size: nat, n: nat, s: Stream, ghost position: nat, input: bytes,
      finish: bool, ghost left: nat)
    returns (r: Call, t: Stream)
    requires Contract(c) && Headed(c, whole, size, n) && position <= |whole|
    requires EndsIn(c, whole, size, n, Reading(s, position, Going), left)
    requires input == NextInput(whole, position) && finish == (position + |input| == size)
    ensures t.sent == s.sent + r.out && |t.sent| <= n && (t.ended <==> r.status == Ended) && left > 0
    ensures match r.status
      case Failed => c.decode(whole) == None
      case Ended => c.decode(whole) == Some(t.sent)
      case Going => EndsIn(c, whole, size, n, Reading(t, position + |input|, Going), left - 1)
  {
    r := c.decompress(s, input, n - |s.sent|, finish);
    OneRound(c, whole, size, n, Reading(s, position, Going), input, finish, r);
    t := Advance(s, input, r);
    OneRoundLess(c, whole, size, n, Reading(s, position, Going), left);
  }
}
