/**
 The CIC-NUS-6105 check code (lib/rom_cic.c).
 */
module Cic {
  import opened Bytes
  import opened Wrappers
  import opened Io
  import opened Dma
  import Crc32c

  const IPL3_START: nat := 0x40
  const IPL3_END: nat := 0x1000
  const IPL3_SIZE: nat := 0xFC0
  const IPL3_CRC: bv32 := 0x5FFC15B9
  const CODE_CHUNK: nat := 1024
  const CODE_START: nat := 0x1000
  const CODE_END: nat := 0x101000
  const CODE_IPL3_SIZE: nat := 0x810
  const CODE_SEED: u32 := 0xDF26F436

  /* One word */

  datatype Acc = Acc(a0: u32, a1: u32, a2: u32, a3: u32, a4: u32, a5: u32)

  const SEEDED: Acc := Acc(CODE_SEED, CODE_SEED, CODE_SEED, CODE_SEED, CODE_SEED, CODE_SEED)

  // a << b, in 32 bits
  function Shl32(a: u32, b: nat): u32
    decreases b
  {
    if b == 0 then a else Shl32(Wrap(2 * a), b - 1)
  }

  lemma {:induction false} ShlMultiplies(a: u32, b: nat)
    ensures Shl32(a, b) == Wrap(a * Pow2(b))
    decreases b
  {
    if b == 0 {
      WrapFits(a);
    } else {
      ShlMultiplies(Wrap(2 * a), b - 1);
      WrapDouble(a, Pow2(b - 1));
    }
  }

  lemma WrapDouble(a: nat, p: nat)
    ensures Wrap(Wrap(2 * a) * p) == Wrap(a * (2 * p))
  {
    assert 2 * a == Wrap(2 * a) + (2 * a / TWO_32) * TWO_32;
    WrapProduct(Wrap(2 * a), 2 * a / TWO_32, p);
    assert a * (2 * p) == (2 * a) * p;
  }

  lemma WrapProduct(r: nat, q: nat, p: nat)
    ensures Wrap((r + q * TWO_32) * p) == Wrap(r * p)
  {
    assert (r + q * TWO_32) * p == r * p + (q * p) * TWO_32;
    WrapShift(r * p, q * p);
  }

  lemma WrapShift(n: nat, q: nat)
    ensures Wrap(n + q * TWO_32) == Wrap(n)
  {
  }

  // a << b | a >> ((32 - b) & 31)
  function Rot32(a: u32, b: nat): u32
    requires b < 32
  {
    var high, low := Shl32(a, b), Shr(a, (32 - b) % 32);
    Pow2Of32();
    ShrShrinks(a, (32 - b) % 32);
    OrFits(high, low, 32);
    Or(high, low)
  }

  // It is a rotation: the low 32 - b digits move up, and the others come in below. Without the mask
  // on the shift to the right a rotation by 0 would not be one.
  lemma RotatesDigits(a: u32, high: nat, low: nat, b: nat)
    requires 0 < b < 32 && low < Pow2(32 - b) && a == high * Pow2(32 - b) + low
    ensures high < Pow2(b) && Rot32(a, b) == low * Pow2(b) + high
  {
    Pow2Adds(32 - b, b);
    Pow2Of32();
    HighDigits(a, high, low, Pow2(32 - b), Pow2(b));
    ShrIsQuotient(a, 32 - b);
    OneQuotient(Pow2(32 - b), Shr(a, 32 - b), high, low);
    ShlMultiplies(a, b);
    ShiftsJoin(a, b);
    DigitsJoin(high, low, Pow2(b), b);
  }

  lemma ShiftsJoin(a: u32, b: nat)
    requires 0 < b < 32
    ensures Rot32(a, b) == Or(Shl32(a, b), Shr(a, 32 - b))
  {
    assert (32 - b) % 32 == 32 - b;
  }

  lemma DigitsJoin(high: nat, low: nat, p: nat, b: nat)
    requires p == Pow2(b) && high < p
    ensures Or(low * p, high) == low * p + high
  {
    OrAbove(low, 0, high, b);
    OrZero(high);
  }

  lemma HighDigits(a: u32, high: nat, low: nat, m: nat, p: nat)
    requires m * p == TWO_32 && low < m && a == high * m + low
    ensures high < p && Wrap(a * p) == low * p
  {
    NextMultiple(m, p, high);
    if high < p {
      assert a * p == high * (m * p) + low * p;
      NextMultiple(p, low, m);
      WrapShift(low * p, high);
      WrapFits(low * p);
    }
  }

  lemma OneQuotient(m: nat, q: nat, high: nat, low: nat)
    requires low < m && m * q <= high * m + low < m * q + m
    ensures q == high
  {
    NextMultiple(m, q, high);
    NextMultiple(m, high, q);
  }

  lemma RotatesByNothing(a: u32)
    ensures Rot32(a, 0) == a
  {
    OrZero(a);
  }

  // The word of the boot code that goes with the word at an offset.
  function BootWord(ipl: bytes, offset: nat): u32 {
    var at := 0x710 + offset % 256;
    if at + 4 <= |ipl| then ReadU32(ipl[at..at + 4]) else 0
  }

  // Offsets are multiples of 4, so the smallest boot code the state accepts holds every such word.
  lemma BootWordInside(ipl: bytes, offset: nat)
    requires |ipl| >= CODE_IPL3_SIZE && offset % 4 == 0
    ensures 0x710 + offset % 256 + 4 <= CODE_IPL3_SIZE
  {
    var q, r := offset / 256, offset % 256;
    assert r == 4 * (offset / 4 - 64 * q);
  }

  function Mix(acc: Acc, d: u32, b: u32): Acc { MixBy(Xor32, acc, d, b, Rot32(d, d % 32)) }

  function MixBy(xor: (u32, u32) -> u32, acc: Acc, d: u32, b: u32, r: u32): Acc {
    var a5 := Wrap(acc.a5 + d);
    Acc(
      Wrap(acc.a0 + xor(b, d)),
      xor(acc.a1, if acc.a1 > d then r else xor(a5, d)),
      xor(acc.a2, d),
      if a5 < acc.a5 then Wrap(acc.a3 + 1) else acc.a3,
      Wrap(acc.a4 + r),
      a5
    )
  }

  function Finish(acc: Acc): u64 { FinishBy(Xor32, acc) }

  function FinishBy(xor: (u32, u32) -> u32, acc: Acc): u64 {
    xor(xor(acc.a5, acc.a3), acc.a2) * TWO_32 + xor(xor(acc.a4, acc.a1), acc.a0)
  }

  /* All words from an offset on, up to the end of the checked range */

  // What `step` makes of the words of `data`, the first of which is at `offset`.
  function Fold<S>(step: (S, u32, nat) -> S, s: S, offset: nat, data: bytes): S
    decreases |data|
  {
    if offset >= CODE_END || |data| < 4 then s
    else Fold(step, step(s, ReadU32(data[..4]), offset), offset + 4, data[4..])
  }

  function MixWith(ipl: bytes): (Acc, u32, nat) -> Acc {
    (acc: Acc, d: u32, offset: nat) => Mix(acc, d, BootWord(ipl, offset))
  }

  // Where the state's offset stands after `size` more bytes.
  function OffsetAfter(offset: nat, size: nat): nat {
    if offset >= CODE_END then offset else Min(offset + size, CODE_END)
  }

  lemma {:induction false} FoldInTwo<S>(step: (S, u32, nat) -> S, s: S, offset: nat, a: bytes, b: bytes)
    requires offset % 4 == 0 && |a| % 4 == 0
    ensures Fold(step, s, offset, a + b) == Fold(step, Fold(step, s, offset, a), offset + |a|, b)
    decreases |a|
  {
    if a == [] {
      assert a + b == b;
    } else if offset < CODE_END {
      FoldInTwo(step, step(s, ReadU32(a[..4]), offset), offset + 4, a[4..], b);
      assert (a + b)[..4] == a[..4] && (a + b)[4..] == a[4..] + b;
    }
  }

  // check_code_state; `mix` takes in a word, given the boot code.
  class CheckCode {
    var acc: Acc
    var offset: nat
    const mix: (Acc, u32, nat) -> Acc

    // check_code_init for the one CIC that has a seed
    constructor (ipl: bytes)
      requires |ipl| >= CODE_IPL3_SIZE
      ensures acc == SEEDED && offset == CODE_START && mix == MixWith(ipl)
    {
      acc := SEEDED;
      offset := CODE_START;
      mix := MixWith(ipl);
    }

    // check_code
    method Absorb(data: bytes, error: Error)
      requires offset % 4 == 0
      modifies this, error
      ensures offset % 4 == 0
      ensures |data| % 4 == 0 ==>
        acc == Fold(mix, old(acc), old(offset), data)
        && offset == OffsetAfter(old(offset), |data|) && error.result == old(error.result)
      ensures |data| % 4 != 0 ==>
        acc == old(acc) && offset == old(offset) && error.result == InvalidParameter
    {
      if |data| % 4 != 0 {
        error.Set(InvalidParameter);
        return;
      }
      acc, offset := FoldWords(mix, acc, offset, data);
    }
  }

  lemma FoldStep<S>(step: (S, u32, nat) -> S, t: S, offset: nat, data: bytes, i: nat)
    requires offset < CODE_END && i + 4 <= |data|
    ensures Fold(step, t, offset, data[i..]) == Fold(step, step(t, ReadU32(data[i..i + 4]), offset), offset + 4, data[i + 4..])
  {
    assert data[i..][..4] == data[i..i + 4] && data[i..][4..] == data[i + 4..];
  }

  // The loop of check_code, for any way to take in a word.
  method FoldWords<S>(step: (S, u32, nat) -> S, s: S, start: nat, data: bytes) returns (t: S, offset: nat)
    requires start % 4 == 0 && |data| % 4 == 0
    ensures t == Fold(step, s, start, data) && offset == OffsetAfter(start, |data|)
  {
    t, offset := s, start;
    var i := 0;
    while offset < CODE_END && i + 4 <= |data|
      invariant i % 4 == 0 && i <= |data| && offset == start + i
      invariant i == 0 || offset <= CODE_END
      invariant Fold(step, t, offset, data[i..]) == Fold(step, s, start, data)
    {
      var d := ReadU32(data[i..i + 4]);
      FoldStep(step, t, offset, data, i);
      t := step(t, d, start + i);
      i := i + 4;
      offset := offset + 4;
    }
  }

  /* The check code of an image */

  // What zelda64_calculate_check_code computes from an image and its first table entry.
  predicate Checksummed(ipl: bytes, crc: bv32) { crc == Crc32c.Crc(0, ipl) }

  // The boot code whose checksum is the known one.
  ghost predicate KnownBootcode(ipl: bytes) {
    forall crc: bv32 {:trigger Checksummed(ipl, crc)} :: Checksummed(ipl, crc) ==> crc == IPL3_CRC
  }

  predicate Accumulated(ipl: bytes, words: bytes, acc: Acc) { acc == Fold(MixWith(ipl), SEEDED, CODE_START, words) }

  ghost predicate IsCodeOf(ipl: bytes, words: bytes, code: u64) {
    forall acc {:trigger Accumulated(ipl, words, acc)} :: Accumulated(ipl, words, acc) ==> code == Finish(acc)
  }

  // The code that the words accumulate to: whatever the accumulators hold in the end, mixed.
  ghost function WordsCode(ipl: bytes, words: bytes): (code: u64)
    ensures IsCodeOf(ipl, words, code)
  {
    var acc := Fold(MixWith(ipl), SEEDED, CODE_START, words);
    assert IsCodeOf(ipl, words, Finish(acc));
    var code: u64 :| IsCodeOf(ipl, words, code);
    code
  }

  // It is the mix of the six accumulators over all words.
  lemma WordsCodeIs(ipl: bytes, words: bytes)
    ensures WordsCode(ipl, words) == Finish(Fold(MixWith(ipl), SEEDED, CODE_START, words))
  {
    assert Accumulated(ipl, words, Fold(MixWith(ipl), SEEDED, CODE_START, words));
  }

  ghost function CheckCodeOf(img: bytes, makerom: Dma): Result<u64, Code> {
    if Wrap(makerom.vromEnd - makerom.vromStart) < IPL3_END then Failure(InvalidRom)
    else if |img| < IPL3_END then Failure(Truncated)
    else if !KnownBootcode(img[IPL3_START..IPL3_END]) then Failure(UnsupportedCic)
    else if |img| < CODE_END then Failure(Truncated)
    else Success(WordsCode(img[IPL3_START..IPL3_END], img[CODE_START..CODE_END]))
  }

  // read_ipl3_bootcode and detect_cic
  method ReadBootcode(io: Buffer, table: seq<Dma>, error: Error) returns (ipl: bytes)
    requires |table| > 0 && error.result == Ok
    modifies error
    ensures Wrap(table[0].vromEnd - table[0].vromStart) < IPL3_END ==> error.result == InvalidRom
    ensures Wrap(table[0].vromEnd - table[0].vromStart) >= IPL3_END ==>
      error.result == if io.data.Length < IPL3_END then Truncated else Ok
    ensures error.result == Ok ==> io.data.Length >= IPL3_END && ipl == io.Bytes()[IPL3_START..IPL3_END]
  {
    if Wrap(table[0].vromEnd - table[0].vromStart) < IPL3_END {
      error.Set(InvalidRom);
      return [];
    }
    var buffer := new byte[IPL3_SIZE];
    var _ := io.ReadExact(buffer, IPL3_SIZE, IPL3_START, error);
    ipl := buffer[..IPL3_SIZE];
  }

  // zelda64_detect_cic
  method DetectCic(io: Buffer, table: seq<Dma>, error: Error) returns (known: bool)
    requires |table| > 0 && error.result == Ok
    modifies error
    ensures known <==> error.result == Ok
    ensures known <==> IsCic6105(io.Bytes(), table[0])
    ensures !known ==>
      error.result == (
        if Wrap(table[0].vromEnd - table[0].vromStart) < 0x1000 then InvalidRom
        else if io.data.Length < 0x1000 then Truncated else UnsupportedCic)
  {
    var ipl := ReadBootcode(io, table, error);
    if error.result != Ok {
      return false;
    }
    var crc := Crc32c.Checksum(0, ipl);
    assert Checksummed(ipl, crc);
    if crc != IPL3_CRC {
      error.Set(UnsupportedCic);
      return false;
    }
    known := true;
  }

  ghost predicate IsCic6105(img: bytes, makerom: Dma) {
    && Wrap(makerom.vromEnd - makerom.vromStart) >= IPL3_END && |img| >= IPL3_END
    && KnownBootcode(img[IPL3_START..IPL3_END])
  }

  // What is known of it is its checksum.
  lemma KnownByChecksum(img: bytes, makerom: Dma)
    ensures IsCic6105(img, makerom) <==>
      Wrap(makerom.vromEnd - makerom.vromStart) >= 0x1000 && |img| >= 0x1000 && Crc32c.Crc(0, img[0x40..0x1000]) == 0x5FFC15B9
  {
    if |img| >= IPL3_END {
      assert Checksummed(img[IPL3_START..IPL3_END], Crc32c.Crc(0, img[IPL3_START..IPL3_END]));
    }
  }

  // zelda64_calculate_check_code
  method CalculateCheckCode(io: Buffer, table: seq<Dma>, error: Error) returns (code: u64)
    requires error.result == Ok
    modifies error
    ensures table == [] ==> error.result == OutOfRange
    ensures table != [] ==>
      match CheckCodeOf(io.Bytes(), table[0])
      case Success(n) => error.result == Ok && code == n
      case Failure(e) => error.result == e
  {
    if |table| == 0 {
      error.Set(OutOfRange);
      return 0;
    }
    var ipl := ReadBootcode(io, table, error);
    if error.result != Ok {
      return 0;
    }
    var crc := Crc32c.Checksum(0, ipl);
    assert Checksummed(ipl, crc);
    if crc != IPL3_CRC {
      error.Set(UnsupportedCic);
      return 0;
    }
    code := CodeOfImage(io, ipl, error);
  }

  method CodeOfImage(io: Buffer, ipl: bytes, error: Error) returns (code: u64)
    requires |ipl| >= CODE_IPL3_SIZE && error.result == Ok
    modifies error
    ensures io.data.Length < CODE_END ==> error.result == Truncated
    ensures io.data.Length >= CODE_END ==>
      error.result == Ok && code == WordsCode(ipl, io.Bytes()[CODE_START..CODE_END])
  {
    var state := new CheckCode(ipl);
    AbsorbImage(io, state, error);
    if error.result != Ok {
      return 0;
    }
    code := Finish(state.acc);
    WordsCodeIs(ipl, io.Bytes()[CODE_START..CODE_END]);
  }

  // The accumulators hold the words up to an offset, if the image reaches that far.
  ghost predicate Folded(step: (Acc, u32, nat) -> Acc, first: Acc, img: bytes, offset: nat, acc: Acc)
    requires CODE_START <= offset
  {
    offset <= |img| ==> acc == Fold(step, first, CODE_START, img[CODE_START..offset])
  }

  lemma FoldOn(step: (Acc, u32, nat) -> Acc, first: Acc, img: bytes, offset: nat, want: nat, acc: Acc)
    requires CODE_START <= offset && offset % 4 == 0 && offset + want <= |img| && Folded(step, first, img, offset, acc)
    ensures Folded(step, first, img, offset + want, Fold(step, acc, offset, img[offset..offset + want]))
  {
    assert img[CODE_START..offset + want] == img[CODE_START..offset] + img[offset..offset + want];
    FoldInTwo(step, first, CODE_START, img[CODE_START..offset], img[offset..offset + want]);
  }

  method AbsorbImage(io: Buffer, state: CheckCode, error: Error)
    requires state.offset == CODE_START && error.result == Ok
    modifies state, error
    ensures io.data.Length < CODE_END ==> error.result == Truncated
    ensures io.data.Length >= CODE_END ==>
      error.result == Ok && state.acc == Fold(state.mix, old(state.acc), CODE_START, io.Bytes()[CODE_START..CODE_END])
  {
    ghost var img := io.Bytes();
    ghost var first := state.acc;
    var chunk := new byte[CODE_CHUNK];
    var offset := CODE_START;
    while offset < CODE_END
      invariant CODE_START <= offset <= CODE_END && offset % CODE_CHUNK == 0
      invariant offset == CODE_START || offset <= |img|
      invariant state.offset == offset && error.result == Ok
      invariant Folded(state.mix, first, img, offset, state.acc)
    {
      var want := Min(CODE_END - offset, CODE_CHUNK);
      var _ := io.ReadExact(chunk, want, offset, error);
      if error.result != Ok {
        return;
      }
      FoldOn(state.mix, first, img, offset, want, state.acc);
      state.Absorb(chunk[..want], error);
      offset := offset + want;
    }
  }

  /* How the words are fed does not matter */

  function Concat(chunks: seq<bytes>): bytes {
    if chunks == [] then [] else chunks[0] + Concat(chunks[1..])
  }

  function FoldChunks<S>(step: (S, u32, nat) -> S, s: S, offset: nat, chunks: seq<bytes>): S
    decreases |chunks|
  {
    if chunks == [] then s
    else FoldChunks(step, Fold(step, s, offset, chunks[0]), offset + |chunks[0]|, chunks[1..])
  }

  // Cutting the same bytes at other word boundaries leaves the accumulators the same.
  lemma {:induction false} ChunkingIsIrrelevant<S>(step: (S, u32, nat) -> S, s: S, offset: nat, chunks: seq<bytes>)
    requires offset % 4 == 0 && forall i :: 0 <= i < |chunks| ==> |chunks[i]| % 4 == 0
    ensures FoldChunks(step, s, offset, chunks) == Fold(step, s, offset, Concat(chunks))
    decreases |chunks|
  {
    if chunks == [] {
    } else {
      FoldInTwo(step, s, offset, chunks[0], Concat(chunks[1..]));
      ChunkingIsIrrelevant(step, Fold(step, s, offset, chunks[0]), offset + |chunks[0]|, chunks[1..]);
    }
  }

  /* The check code in closed form */

  // Word k of the checked range, and the word of the boot code that goes with it, in an image.
  function WordAt(img: bytes, k: nat): u32 {
    if 0x1000 + 4 * k + 4 <= |img| then ReadU32(img[0x1000 + 4 * k..0x1000 + 4 * k + 4]) else 0
  }

  function BootAt(img: bytes, k: nat): u32 {
    if 0x750 + 4 * k % 256 + 4 <= |img| then ReadU32(img[0x750 + 4 * k % 256..0x750 + 4 * k % 256 + 4]) else 0
  }

  const WORDS: nat := 0x40000

  // A word rotated by its own low five bits: what is shifted out on one side comes in on the other.
  function Turn(d: u32): u32 { Wrap(Joined(d, Pow2(d % 32), Pow2(32 - d % 32))) }

  function Joined(d: nat, up: nat, down: nat): nat
    requires down > 0
  {
    d * up % TWO_32 + d / down
  }

  // What a check code is made of: the words, those of the boot code, and two operations on them.
  datatype Source = Source(word: nat -> u32, boot: nat -> u32, turn: u32 -> u32, xor: (u32, u32) -> u32)

  function SourceOf(img: bytes): Source { Source((k: nat) => WordAt(img, k), (k: nat) => BootAt(img, k), Turn, Xor32) }

  // The integer sum of the first n values.
  function Sum(f: nat -> u32, n: nat): nat { if n == 0 then 0 else Sum(f, n - 1) + f(n - 1) }

  function Words(s: Source): nat -> u32 { (k: nat) => s.word(k) }

  function Turned(s: Source): nat -> u32 { (k: nat) => s.turn(s.word(k)) }

  function Masked(s: Source): nat -> u32 { (k: nat) => s.xor(s.boot(k), s.word(k)) }

  function XorAll(s: Source, n: nat): u32 { if n == 0 then 0 else s.xor(XorAll(s, n - 1), s.word(n - 1)) }

  // The second accumulator takes in each word in one of two ways, by how it compares to it: rotated,
  // or against the sum so far.
  function Chosen(seed: u32, s: Source, n: nat): u32 {
    if n == 0 then seed
    else
      var a, d := Chosen(seed, s, n - 1), s.word(n - 1);
      s.xor(a, if a > d then s.turn(d) else s.xor(Wrap(seed + Sum(Words(s), n)), d))
  }

  // The six accumulators after n words. The fourth counts the carries of the sixth, so that together
  // they lose nothing.
  predicate After(seed: u32, s: Source, n: nat, acc: Acc) {
    && Added(seed, Masked(s), n, acc.a0) && Added(seed, Turned(s), n, acc.a4)
    && acc.a1 == Chosen(seed, s, n) && Xored(seed, s, n, acc.a2)
    && Counted(seed, n, acc, Sum(Words(s), n))
  }

  predicate Added(seed: u32, f: nat -> u32, n: nat, a: u32) { a == Wrap(seed + Sum(f, n)) }

  predicate Xored(seed: u32, s: Source, n: nat, a: u32) { a == s.xor(seed, XorAll(s, n)) }

  predicate Counted(seed: u32, n: nat, acc: Acc, sum: nat) {
    Long(acc) == seed * TWO_32 + seed + sum && acc.a3 <= seed + n
  }

  function Long(acc: Acc): nat { acc.a3 * TWO_32 + acc.a5 }

  // The two words of a check code.
  predicate IsClosed(seed: u32, s: Source, n: nat, code: u64) {
    var sum := seed * TWO_32 + seed + Sum(Words(s), n);
    && sum / TWO_32 < TWO_32
    && code / TWO_32 == s.xor(s.xor(sum % TWO_32, sum / TWO_32), s.xor(seed, XorAll(s, n)))
    && code % TWO_32 == s.xor(s.xor(Wrap(seed + Sum(Turned(s), n)), Chosen(seed, s, n)), Wrap(seed + Sum(Masked(s), n)))
  }

  /* One word more */

  ghost predicate XorLaws(xor: (u32, u32) -> u32) {
    && (forall a: u32 {:trigger xor(a, 0)} :: xor(a, 0) == a)
    && (forall a: u32, b: u32, c: u32 {:trigger xor(xor(a, b), c)} :: xor(xor(a, b), c) == xor(a, xor(b, c)))
  }

  lemma XorKeepsLaws()
    ensures XorLaws(Xor32)
  {
    forall a: u32
      ensures Xor32(a, 0) == a
    {
      XorZero(a);
    }
    forall a: u32, b: u32, c: u32
      ensures Xor32(Xor32(a, b), c) == Xor32(a, Xor32(b, c))
    {
      XorAssociates(a, b, c);
    }
  }

  lemma {:induction false} XorZero(a: nat)
    ensures Xor(a, 0) == a
  {
    if a == 0 {
    } else {
      XorZero(a / 2);
    }
  }

  lemma AfterNone(seed: u32, s: Source, acc: Acc)
    requires acc == Acc(seed, seed, seed, seed, seed, seed) && XorLaws(s.xor)
    ensures After(seed, s, 0, acc)
  {
    WrapFits(seed);
  }

  lemma WrapTwice(a: int, b: int)
    ensures Wrap(Wrap(a) + b) == Wrap(a + b)
  {
  }

  lemma AddWithCarry(high: u32, low: u32, d: u32)
    requires high < UINT32_MAX
    ensures (if Wrap(low + d) < low then Wrap(high + 1) else high) * TWO_32 + Wrap(low + d) == high * TWO_32 + low + d
  {
  }

  lemma LowOfLong(seed: u32, high: nat, low: u32, s: nat)
    requires high * TWO_32 + low == seed * TWO_32 + seed + s
    ensures low == Wrap(seed + s)
  {
    WrapFits(low);
    WrapShift(low, high);
    WrapShift(seed + s, seed);
  }

  lemma OneMore(seed: u32, f: nat -> u32, n: nat, sum: u32, x: nat)
    requires Added(seed, f, n, sum) && f(n) == x
    ensures Added(seed, f, n + 1, Wrap(sum + x))
  {
    WrapTwice(seed + Sum(f, n), x);
  }

  lemma OneCountedMore(seed: u32, n: nat, acc: Acc, next: Acc, sum: nat, d: u32)
    requires Counted(seed, n, acc, sum) && seed + n < UINT32_MAX
    requires next.a5 == Wrap(acc.a5 + d) && next.a3 == if next.a5 < acc.a5 then Wrap(acc.a3 + 1) else acc.a3
    ensures Counted(seed, n + 1, next, sum + d) && next.a5 == Wrap(seed + (sum + d))
  {
    AddWithCarry(acc.a3, acc.a5, d);
    WrapFits(acc.a3 + 1);
    LowOfLong(seed, next.a3, next.a5, sum + d);
  }

  lemma AfterOneMore(seed: u32, s: Source, n: nat, acc: Acc, d: u32, b: u32, r: u32)
    requires seed + n < UINT32_MAX && XorLaws(s.xor) && After(seed, s, n, acc)
    requires d == s.word(n) && b == s.boot(n) && r == s.turn(d)
    ensures After(seed, s, n + 1, MixBy(s.xor, acc, d, b, r))
  {
    var next := MixBy(s.xor, acc, d, b, r);
    SumsOneMore(seed, s, n, acc, next, d, b, r);
    OneChosenMore(seed, s, n, acc.a1, next.a5, d, r);
    OneXorMore(seed, s, n, acc.a2, d);
  }

  lemma SumsOneMore(seed: u32, s: Source, n: nat, acc: Acc, next: Acc, d: u32, b: u32, r: u32)
    requires Added(seed, Masked(s), n, acc.a0) && Added(seed, Turned(s), n, acc.a4)
    requires Counted(seed, n, acc, Sum(Words(s), n)) && seed + n < UINT32_MAX
    requires d == s.word(n) && b == s.boot(n) && r == s.turn(d)
    requires next.a0 == Wrap(acc.a0 + s.xor(b, d)) && next.a4 == Wrap(acc.a4 + r)
    requires next.a5 == Wrap(acc.a5 + d) && next.a3 == if next.a5 < acc.a5 then Wrap(acc.a3 + 1) else acc.a3
    ensures Added(seed, Masked(s), n + 1, next.a0) && Added(seed, Turned(s), n + 1, next.a4)
    ensures Counted(seed, n + 1, next, Sum(Words(s), n + 1)) && next.a5 == Wrap(seed + (Sum(Words(s), n) + d))
  {
    OneMore(seed, Masked(s), n, acc.a0, s.xor(b, d));
    OneMore(seed, Turned(s), n, acc.a4, r);
    OneCountedMore(seed, n, acc, next, Sum(Words(s), n), d);
    OneWordMore(s, n, d);
  }

  lemma OneChosenMore(seed: u32, s: Source, n: nat, a: u32, sum: u32, d: u32, r: u32)
    requires a == Chosen(seed, s, n) && sum == Wrap(seed + (Sum(Words(s), n) + d)) && d == s.word(n) && r == s.turn(d)
    ensures s.xor(a, if a > d then r else s.xor(sum, d)) == Chosen(seed, s, n + 1)
  {
  }

  lemma OneWordMore(s: Source, n: nat, d: u32)
    requires d == s.word(n)
    ensures Sum(Words(s), n + 1) == Sum(Words(s), n) + d
  {
  }

  lemma OneXorMore(seed: u32, s: Source, n: nat, a: u32, d: u32)
    requires XorLaws(s.xor) && Xored(seed, s, n, a) && d == s.word(n)
    ensures Xored(seed, s, n + 1, s.xor(a, d))
  {
  }

  lemma ClosesAfter(seed: u32, s: Source, n: nat, acc: Acc)
    requires After(seed, s, n, acc)
    ensures IsClosed(seed, s, n, FinishBy(s.xor, acc))
  {
  }

  lemma RotIsTurn(d: u32)
    ensures Rot32(d, d % 32) == Turn(d)
  {
    RotJoins(d, d % 32, Pow2(d % 32), Pow2(32 - d % 32));
    WrapFits(Rot32(d, d % 32));
  }

  lemma RotJoins(d: u32, b: nat, up: nat, down: nat)
    requires b < 32 && up == Pow2(b) && down == Pow2(32 - b)
    ensures Rot32(d, b) == Joined(d, up, down)
  {
    PowersMeet(b, up, down);
    if b == 0 {
      RotatesByNothing(d);
      JoinedWhole(d, up, down);
    } else {
      TwoParts(d, down);
      RotParts(d, d / down, d % down, b, up, down);
    }
  }

  lemma PowersMeet(b: nat, up: nat, down: nat)
    requires b <= 32 && up == Pow2(b) && down == Pow2(32 - b)
    ensures down * up == TWO_32 && (b == 0 ==> up == 1 && down == TWO_32)
  {
    Pow2Adds(32 - b, b);
    Pow2Of32();
  }

  lemma RotParts(d: u32, high: nat, low: nat, b: nat, up: nat, down: nat)
    requires 0 < b < 32 && up == Pow2(b) && down == Pow2(32 - b) && down * up == TWO_32
    requires low < down && d == high * down + low
    ensures Rot32(d, b) == Wrap(d * up) + high
  {
    RotatesDigits(d, high, low, b);
    HighDigits(d, high, low, down, up);
  }

  lemma JoinedWhole(d: u32, up: nat, down: nat)
    requires up == 1 && down == TWO_32
    ensures Joined(d, up, down) == d
  {
  }

  lemma TwoParts(d: nat, m: nat)
    requires m > 0
    ensures d == d / m * m + d % m && d % m < m
  {
  }

  /* All words */

  // What a step makes of the first n words, one after the other.
  function Run<S>(step: (S, u32, nat) -> S, s: S, img: bytes, n: nat): S {
    if n == 0 then s else Stepped(step, Run(step, s, img, n - 1), img, n - 1)
  }

  function Stepped<S>(step: (S, u32, nat) -> S, s: S, img: bytes, k: nat): S {
    step(s, WordAt(img, k), CODE_START + 4 * k)
  }

  ghost predicate MixesIn(step: (Acc, u32, nat) -> Acc, img: bytes, s: Source) {
    forall acc: Acc, k: nat {:trigger Stepped(step, acc, img, k)} ::
      Stepped(step, acc, img, k) == MixBy(s.xor, acc, s.word(k), s.boot(k), s.turn(s.word(k)))
  }

  lemma MixMixesIn(img: bytes, ipl: bytes)
    requires |img| >= IPL3_END && ipl == img[IPL3_START..IPL3_END]
    ensures MixesIn(MixWith(ipl), img, SourceOf(img))
  {
    forall acc: Acc, k: nat
      ensures Stepped(MixWith(ipl), acc, img, k) == MixBy(Xor32, acc, WordAt(img, k), BootAt(img, k), Turn(WordAt(img, k)))
    {
      BootWordInImage(img, k);
      RotIsTurn(WordAt(img, k));
    }
  }

  lemma {:induction false} RunsThrough(seed: u32, img: bytes, s: Source, n: nat, first: Acc, step: (Acc, u32, nat) -> Acc)
    requires seed + n < UINT32_MAX && XorLaws(s.xor) && MixesIn(step, img, s)
    requires first == Acc(seed, seed, seed, seed, seed, seed)
    ensures After(seed, s, n, Run(step, first, img, n))
  {
    if n == 0 {
      AfterNone(seed, s, first);
    } else {
      RunsThrough(seed, img, s, n - 1, first, step);
      StepKeeps(seed, img, s, n - 1, Run(step, first, img, n - 1), step);
    }
  }

  lemma StepKeeps(seed: u32, img: bytes, s: Source, n: nat, acc: Acc, step: (Acc, u32, nat) -> Acc)
    requires seed + n < UINT32_MAX && XorLaws(s.xor) && MixesIn(step, img, s) && After(seed, s, n, acc)
    ensures After(seed, s, n + 1, Stepped(step, acc, img, n))
  {
    AfterOneMore(seed, s, n, acc, s.word(n), s.boot(n), s.turn(s.word(n)));
  }

  lemma {:induction false} FoldRuns<S>(step: (S, u32, nat) -> S, s: S, img: bytes, n: nat, start: nat)
    requires n <= WORDS && start + 4 * n <= |img| && start == CODE_START
    ensures Fold(step, s, start, img[start..start + 4 * n]) == Run(step, s, img, n)
  {
    if n == 0 {
    } else {
      var from, to := start + 4 * (n - 1), start + 4 * n;
      FoldRuns(step, s, img, n - 1, start);
      assert img[start..to] == img[start..from] + img[from..to];
      FoldInTwo(step, s, start, img[start..from], img[from..to]);
      FoldOne(step, Fold(step, s, start, img[start..from]), from, img[from..to]);
    }
  }

  lemma FoldOne<S>(step: (S, u32, nat) -> S, s: S, offset: nat, word: bytes)
    requires |word| == 4 && offset < CODE_END
    ensures Fold(step, s, offset, word) == step(s, ReadU32(word), offset)
  {
    assert word[..4] == word;
  }

  lemma BootWordInImage(img: bytes, k: nat)
    requires |img| >= IPL3_END
    ensures BootWord(img[IPL3_START..IPL3_END], CODE_START + 4 * k) == BootAt(img, k)
  {
    assert (CODE_START + 4 * k) % 256 == 4 * k % 256;
    BootWordInside(img[IPL3_START..IPL3_END], CODE_START + 4 * k);
    SubSlice(img, IPL3_START, IPL3_END, 0x710 + 4 * k % 256, 0x710 + 4 * k % 256 + 4);
  }

  // The check code of an image, without its accumulators: from the seed, over the words of 1 MiB.
  ghost predicate IsCheckCode(img: bytes, code: u64) {
    forall seed: u32 {:trigger IsSeed(seed)} :: IsSeed(seed) ==> IsClosed(seed, SourceOf(img), 0x40000, code)
  }

  predicate IsSeed(n: u32) { n == 0xDF26F436 }

  lemma CheckCodeIsClosed(img: bytes, makerom: Dma)
    requires CheckCodeOf(img, makerom).Success?
    ensures IsCheckCode(img, CheckCodeOf(img, makerom).value)
  {
    var ipl, words := img[IPL3_START..IPL3_END], img[CODE_START..CODE_END];
    WordsCodeIs(ipl, words);
    forall seed: u32 | IsSeed(seed)
      ensures IsClosed(seed, SourceOf(img), WORDS, CheckCodeOf(img, makerom).value)
    {
      CodeIsClosed(seed, img, WORDS, SEEDED, CODE_START, ipl, words);
    }
  }

  lemma CodeIsClosed(seed: u32, img: bytes, n: nat, first: Acc, start: nat, ipl: bytes, words: bytes)
    requires n == WORDS && start == CODE_START && start + 4 * n <= |img| && words == img[start..start + 4 * n]
    requires first == Acc(seed, seed, seed, seed, seed, seed) && ipl == img[IPL3_START..IPL3_END]
    requires seed + n < UINT32_MAX
    ensures IsClosed(seed, SourceOf(img), n, Finish(Fold(MixWith(ipl), first, start, words)))
  {
    FoldRuns(MixWith(ipl), first, img, n, start);
    MixMixesIn(img, ipl);
    XorKeepsLaws();
    RunsThrough(seed, img, SourceOf(img), n, first, MixWith(ipl));
    ClosesAfter(seed, SourceOf(img), n, Run(MixWith(ipl), first, img, n));
  }

  /* The check code looks at nothing it is stored in */

  // A check code is only ever computed for a large enough MAKEROM in a large enough image.
  lemma CheckCodeNeeds(img: bytes, makerom: Dma)
    requires CheckCodeOf(img, makerom).Success?
    ensures Wrap(makerom.vromEnd - makerom.vromStart) >= IPL3_END && |img| >= CODE_END
  {
  }

  // Why there is none: MAKEROM or the image does not hold a boot code, it is not the known one, or
  // the image does not hold the range that is checked, in this order.
  lemma CheckCodeErrors(img: bytes, makerom: Dma)
    ensures CheckCodeOf(img, makerom) == Failure(InvalidRom) <==> Wrap(makerom.vromEnd - makerom.vromStart) < 0x1000
    ensures CheckCodeOf(img, makerom) == Failure(Truncated) <==>
      Wrap(makerom.vromEnd - makerom.vromStart) >= 0x1000
      && (|img| < 0x1000 || (|img| < 0x10_1000 && IsCic6105(img, makerom)))
    ensures CheckCodeOf(img, makerom) == Failure(UnsupportedCic) <==>
      Wrap(makerom.vromEnd - makerom.vromStart) >= 0x1000 && |img| >= 0x1000 && !IsCic6105(img, makerom)
    ensures CheckCodeOf(img, makerom).Success? <==> IsCic6105(img, makerom) && |img| >= 0x10_1000
  {
  }

  lemma CheckCodeDependsOn(img: bytes, img': bytes, makerom: Dma)
    requires |img| == |img'|
    requires forall k :: IPL3_START <= k < CODE_END && k < |img| ==> img[k] == img'[k]
    ensures CheckCodeOf(img, makerom) == CheckCodeOf(img', makerom)
    ensures IsCic6105(img, makerom) <==> IsCic6105(img', makerom)
  {
    if |img| >= IPL3_END {
      assert img[IPL3_START..IPL3_END] == img'[IPL3_START..IPL3_END];
    }
    if |img| >= CODE_END {
      assert img[CODE_START..CODE_END] == img'[CODE_START..CODE_END];
    }
  }
}
