/**
 Fixed-width integers, big-endian words and the rounding helpers of lib/bytes.h.
 */
module Bytes {

  const TWO_32 := 0x1_0000_0000
  const UINT32_MAX := 0xFFFF_FFFF

  type byte = x: int | 0 <= x < 256
  type u32 = x: int | 0 <= x < TWO_32
  type u64 = x: int | 0 <= x < TWO_32 * TWO_32
  type bytes = seq<byte>

  function Min(a: nat, b: nat): nat { if a < b then a else b }

  // What is left of a C integer after it is stored in 32 unsigned bits.
  function Wrap(n: int): u32 { n % TWO_32 }

  /* Parts of byte strings */

  lemma SubSlice(b: bytes, lo: nat, hi: nat, i: nat, j: nat)
    requires lo <= hi <= |b| && i <= j <= hi - lo
    ensures b[lo..hi][i..j] == b[lo + i..lo + j]
  {
    assert forall k :: 0 <= k < j - i ==> b[lo..hi][i..j][k] == b[lo + i + k];
  }

  function Splice(b: bytes, off: nat, d: bytes): (r: bytes)
    requires off + |d| <= |b|
    ensures |r| == |b|
    ensures r[off..off + |d|] == d
    ensures forall k :: 0 <= k < |b| && !(off <= k < off + |d|) ==> r[k] == b[k]
  {
    b[..off] + d + b[off + |d|..]
  }

  // Two adjacent overwrites are one.
  lemma SpliceAppend(b: bytes, off: nat, d: bytes, e: bytes)
    requires off + |d| + |e| <= |b|
    ensures Splice(Splice(b, off, d), off + |d|, e) == Splice(b, off, d + e)
  {
    var l, r := Splice(Splice(b, off, d), off + |d|, e), Splice(b, off, d + e);
    assert l == b[..off] + d + e + b[off + |d| + |e|..];
  }

  // An overwrite leaves alone every range it does not touch.
  lemma SpliceElsewhere(b: bytes, off: nat, d: bytes, lo: nat, hi: nat)
    requires off + |d| <= |b| && lo <= hi <= |b|
    requires hi <= off || off + |d| <= lo
    ensures Splice(b, off, d)[lo..hi] == b[lo..hi]
  {
  }

  /* Big-endian words */

  function ReadU32(p: bytes): u32
    requires |p| >= 4
  {
    p[0] as int * 0x100_0000 + p[1] as int * 0x1_0000 + p[2] as int * 0x100 + p[3]
  }

  function BigEndian32(n: u32): (p: bytes)
    ensures |p| == 4
  {
    [n / 0x100_0000, n / 0x1_0000 % 256, n / 0x100 % 256, n % 256]
  }

  function BigEndian64(n: u64): (p: bytes)
    ensures |p| == 8
  {
    BigEndian32(n / TWO_32) + BigEndian32(n % TWO_32)
  }

  // The first byte that differs decides, as it does of the numbers: the high byte comes first.
  lemma WordsCompareAsBytes(p: bytes, q: bytes, i: nat)
    requires |p| == |q| == 4 && i < 4 && p[..i] == q[..i] && p[i] < q[i]
    ensures ReadU32(p) < ReadU32(q)
  {
    forall k | 0 <= k < i
      ensures p[k] == q[k]
    {
      assert p[k] == p[..i][k] == q[..i][k];
    }
  }

  lemma ReadBigEndian(n: u32)
    ensures ReadU32(BigEndian32(n)) == n
  {
    var a, b := n / 0x1_0000, n / 0x100;
    assert a == (n / 0x100_0000) * 0x100 + a % 256;
    assert b == a * 0x100 + b % 256;
    assert n == b * 0x100 + n % 256;
  }

  lemma BigEndianRead(p: bytes)
    requires |p| == 4
    ensures BigEndian32(ReadU32(p)) == p
  {
    var n, a := ReadU32(p), p[0] as int * 0x100 + p[1];
    var b := a * 0x100 + p[2];
    assert n == b * 0x100 + p[3];
    OneDigit(n, b, p[3]);
    OneDigit(b, a, p[2]);
    OneDigit(a, p[0], p[1]);
    assert n / 0x1_0000 == n / 0x100 / 0x100 && n / 0x100_0000 == n / 0x1_0000 / 0x100;
  }

  lemma OneDigit(n: nat, high: nat, low: nat)
    requires n == high * 0x100 + low && low < 0x100
    ensures n / 0x100 == high && n % 0x100 == low
  {
  }

  method WriteU32(p: array<byte>, at: nat, n: u32)
    requires at + 4 <= p.Length
    modifies p
    ensures p[..] == Splice(old(p[..]), at, BigEndian32(n))
  {
    p[at] := n / 0x100_0000;
    p[at + 1] := n / 0x1_0000 % 256;
    p[at + 2] := n / 0x100 % 256;
    p[at + 3] := n % 256;
  }

  method WriteU64(p: array<byte>, at: nat, n: u64)
    requires at + 8 <= p.Length
    modifies p
    ensures p[..] == Splice(old(p[..]), at, BigEndian64(n))
    ensures ReadU32(p[at..at + 4]) == n / TWO_32 && ReadU32(p[at + 4..at + 8]) == n % TWO_32
  {
    // n >> 56, ..., n >> 32 are the bytes of the high word.
    WriteU32(p, at, n / TWO_32);
    WriteU32(p, at + 4, n % TWO_32);
    SpliceAppend(old(p[..]), at, BigEndian32(n / TWO_32), BigEndian32(n % TWO_32));
    ReadTwoWords(p[at..at + 8], n);
    SubSlice(p[..], at, at + 8, 0, 4);
    SubSlice(p[..], at, at + 8, 4, 8);
  }

  // The high word comes first.
  function ReadU64(p: bytes): u64
    requires |p| == 8
  {
    ReadU32(p[..4]) * TWO_32 + ReadU32(p[4..])
  }

  lemma ReadTwoWords(p: bytes, n: u64)
    requires p == BigEndian64(n)
    ensures ReadU32(p[..4]) == n / TWO_32 && ReadU32(p[4..8]) == n % TWO_32 && ReadU64(p) == n
  {
    ReadBigEndian(n / TWO_32);
    ReadBigEndian(n % TWO_32);
    assert p[..4] == BigEndian32(n / TWO_32) && p[4..8] == BigEndian32(n % TWO_32);
  }

  /* Alignment: zelda64_align16 */

  function Align16(n: u32): u32 {
    // (n + 15u) & 0xFFFFFFF0, in 32-bit arithmetic
    var m := Wrap(n + 15);
    m - m % 16
  }

  // Exact rounding up to a multiple of 16, and the one range where the addition wraps.
  lemma Align16Rounds(n: u32)
    ensures Align16(n) % 16 == 0
    ensures n <= 0xFFFF_FFF0 <==> n <= Align16(n)
    ensures n <= 0xFFFF_FFF0 ==> Align16(n) < n + 16
    ensures n > 0xFFFF_FFF0 ==> Align16(n) == 0
  {
  }

  /* Powers of two */

  function Pow2(k: nat): (p: nat)
    ensures p >= 1
  {
    if k == 0 then 1 else 2 * Pow2(k - 1)
  }

  lemma {:induction false} Pow2Adds(a: nat, b: nat)
    ensures Pow2(a + b) == Pow2(a) * Pow2(b)
  {
    if a == 0 {
    } else {
      Pow2Adds(a - 1, b);
      assert (a + b) - 1 == (a - 1) + b;
    }
  }

  lemma {:induction false} Pow2Grows(a: nat, b: nat)
    requires a <= b
    ensures Pow2(a) <= Pow2(b)
  {
    if a == b {
    } else {
      Pow2Grows(a, b - 1);
    }
  }

  lemma Pow2Of32()
    ensures Pow2(31) == 0x8000_0000 && Pow2(32) == TWO_32
  {
    assert Pow2(4) == 16;
    Pow2Adds(4, 4);
    Pow2Adds(8, 8);
    Pow2Adds(16, 16);
  }

  /* Bitwise operators on the binary digits of natural numbers */

  function Or(a: nat, b: nat): nat {
    if a == 0 && b == 0 then 0
    else 2 * Or(a / 2, b / 2) + if a % 2 == 1 || b % 2 == 1 then 1 else 0
  }

  function Xor(a: nat, b: nat): nat {
    if a == 0 && b == 0 then 0
    else 2 * Xor(a / 2, b / 2) + if a % 2 != b % 2 then 1 else 0
  }

  lemma {:induction false} OrFits(a: nat, b: nat, k: nat)
    requires a < Pow2(k) && b < Pow2(k)
    ensures Or(a, b) < Pow2(k) && Xor(a, b) < Pow2(k)
  {
    if k > 0 && (a > 0 || b > 0) {
      OrFits(a / 2, b / 2, k - 1);
    }
  }

  lemma {:induction false} OrCovers(a: nat, b: nat)
    ensures Or(a, b) >= a && Or(a, b) >= b
  {
    if a == 0 && b == 0 {
    } else {
      OrCovers(a / 2, b / 2);
    }
  }

  // Digits of h above position j are untouched by a low operand.
  lemma {:induction false} OrAbove(h: nat, low: nat, y: nat, j: nat)
    requires low < Pow2(j) && y < Pow2(j)
    ensures Or(h * Pow2(j) + low, y) == h * Pow2(j) + Or(low, y)
  {
    if j == 0 {
      OrZero(h);
    } else {
      var p := h * Pow2(j - 1);
      assert h * Pow2(j) == 2 * p;
      OrAbove(h, low / 2, y / 2, j - 1);
      assert (2 * p + low) / 2 == p + low / 2 && (2 * p + low) % 2 == low % 2;
    }
  }

  lemma {:induction false} OrZero(a: nat)
    ensures Or(a, 0) == a && Or(0, a) == a && Or(a, a) == a
  {
    if a == 0 {
    } else {
      OrZero(a / 2);
    }
  }

  function Xor32(a: u32, b: u32): u32 { Pow2Of32(); OrFits(a, b, 32); Xor(a, b) }

  lemma {:induction false} XorAssociates(a: nat, b: nat, c: nat)
    ensures Xor(Xor(a, b), c) == Xor(a, Xor(b, c))
  {
    if a == 0 && b == 0 && c == 0 {
    } else {
      XorAssociates(a / 2, b / 2, c / 2);
      XorDigits(a, b);
      XorDigits(b, c);
      XorDigits(Xor(a, b), c);
      XorDigits(a, Xor(b, c));
    }
  }

  lemma XorDigits(a: nat, b: nat)
    ensures Xor(a, b) / 2 == Xor(a / 2, b / 2)
    ensures Xor(a, b) % 2 == if a % 2 != b % 2 then 1 else 0
  {
  }

  // Digit by digit, either and not both.
  lemma {:induction false} OrByDigits(a: nat, b: nat, k: nat)
    ensures Digit(Or(a, b), k) == if Digit(a, k) == 1 || Digit(b, k) == 1 then 1 else 0
    ensures Digit(Xor(a, b), k) == if Digit(a, k) != Digit(b, k) then 1 else 0
  {
    if k == 0 {
      assert Pow2(0) == 1;
    } else {
      OrByDigits(a / 2, b / 2, k - 1);
      NextDigit(a, k);
      NextDigit(b, k);
      NextDigit(Or(a, b), k);
      NextDigit(Xor(a, b), k);
    }
  }

  function Digit(n: nat, k: nat): nat { n / Pow2(k) % 2 }

  lemma NextDigit(n: nat, k: nat)
    requires k > 0
    ensures Digit(n, k) == Digit(n / 2, k - 1)
  {
    QuotientIsShr(n, k);
    QuotientIsShr(n / 2, k - 1);
  }

  lemma QuotientIsShr(n: nat, k: nat)
    ensures n / Pow2(k) == Shr(n, k)
  {
    ShrIsQuotient(n, k);
    Quotient(n, Pow2(k), Shr(n, k));
  }

  lemma Quotient(n: nat, p: nat, q: nat)
    requires p > 0 && p * q <= n < p * q + p
    ensures n / p == q && n % p == n - p * q
  {
    assert n == p * (n / p) + n % p;
    NextMultiple(p, n / p, q);
    NextMultiple(p, q, n / p);
  }

  lemma NextMultiple(m: nat, i: nat, j: nat)
    ensures i < j ==> m * i + m <= m * j
    ensures i == j ==> m * i == m * j
  {
    if i < j {
      assert m * (i + 1) <= m * j;
    }
  }

  /* Rounding up to a power of two: zelda64_ceil_pow2 */

  // The least power of two not below n; 0 where 32 bits cannot hold one, and for 0.
  function CeilPow2(n: u32): u32 {
    if n == 0 || n > 0x8000_0000 then 0
    else
      Pow2Of32();
      Log2UpFits(n, 31);
      Pow2Grows(Log2Up(n), 31);
      Pow2(Log2Up(n))
  }

  function Log2Up(n: nat): (k: nat)
    requires n >= 1
  {
    if n == 1 then 0 else 1 + Log2Up((n + 1) / 2)
  }

  // 2^(Log2Up(n) - 1) < n <= 2^Log2Up(n)
  lemma {:induction false} Log2UpBounds(n: nat)
    requires n >= 1
    ensures n <= Pow2(Log2Up(n)) && (n > 1 ==> Pow2(Log2Up(n)) < 2 * n)
  {
    if n <= 1 {
    } else {
      Log2UpBounds((n + 1) / 2);
    }
  }

  lemma {:induction false} Log2UpFits(n: nat, k: nat)
    requires 1 <= n <= Pow2(k)
    ensures Log2Up(n) <= k
  {
    if n <= 1 {
    } else {
      Log2UpFits((n + 1) / 2, k - 1);
    }
  }

  // CeilPow2 is the least power of two at or above its argument.
  lemma CeilPow2IsLeast(n: u32, k: nat)
    requires 1 <= n <= 0x8000_0000
    ensures n <= CeilPow2(n) < 2 * n
    ensures exists j: nat :: CeilPow2(n) == Pow2(j)
    ensures n <= Pow2(k) ==> CeilPow2(n) <= Pow2(k)
  {
    Log2UpBounds(n);
    if n <= Pow2(k) {
      Log2UpFits(n, k);
      Pow2Grows(Log2Up(n), k);
    }
  }

  lemma CeilPow2Monotone(m: u32, n: u32)
    requires 1 <= m <= n <= 0x8000_0000
    ensures CeilPow2(m) <= CeilPow2(n)
  {
    CeilPow2IsLeast(n, 0);
    CeilPow2IsLeast(m, Log2Up(n));
  }

  function Shr(x: nat, m: nat): nat {
    if m == 0 then x else Shr(x / 2, m - 1)
  }

  // x has k digits, and its top m digits (all of them, if there are no more) are ones.
  ghost predicate TopOnes(x: nat, k: nat, m: nat) {
    if k <= m then x == Pow2(k) - 1 else TopOnes(x / 2, k - 1, m)
  }

  // One smearing step doubles the run of leading ones.
  lemma {:induction false} SmearDoubles(x: nat, k: nat, m: nat)
    requires m >= 1 && TopOnes(x, k, m)
    ensures TopOnes(Or(x, Shr(x, m)), k, 2 * m)
  {
    var y := Shr(x, m);
    if k <= m {
      ShrShrinks(x, m);
      OrFits(x, y, k);
      OrCovers(x, y);
    } else {
      SmearDoubles(x / 2, k - 1, m);
      ShrHalves(x, m);
      assert Or(x, y) / 2 == Or(x / 2, y / 2);
      if k <= 2 * m {
        TopDigit(x, k, m, m);
      }
    }
  }

  lemma {:induction false} ShrShrinks(x: nat, m: nat)
    ensures Shr(x, m) <= x
  {
    if m == 0 {
    } else {
      ShrShrinks(x / 2, m - 1);
    }
  }

  lemma {:induction false} ShrHalves(x: nat, m: nat)
    ensures Shr(x, m) / 2 == Shr(x / 2, m)
  {
    if m == 0 {
    } else {
      ShrHalves(x / 2, m - 1);
    }
  }

  lemma {:induction false} TopDigit(x: nat, k: nat, m: nat, i: nat)
    requires TopOnes(x, k, m) && i < k <= m + i
    ensures Shr(x, i) % 2 == 1
  {
    if i == 0 {
    } else {
      if k <= m {
        assert x / 2 == Pow2(k - 1) - 1;
      }
      TopDigit(x / 2, k - 1, m, i - 1);
    }
  }

  lemma {:induction false} ShrIsQuotient(x: nat, m: nat)
    ensures Pow2(m) * Shr(x, m) <= x < Pow2(m) * Shr(x, m) + Pow2(m)
  {
    if m == 0 {
    } else {
      ShrIsQuotient(x / 2, m - 1);
      var q, p := Shr(x, m), Pow2(m - 1);
      assert Pow2(m) * q == 2 * (p * q);
    }
  }

  // Shifting right is dividing.
  lemma ShrDivides(x: nat)
    ensures Shr(x, 1) == x / 2 && Shr(x, 2) == x / 4 && Shr(x, 4) == x / 16
    ensures Shr(x, 8) == x / 256 && Shr(x, 16) == x / 65536
  {
    ShrFour(x);
    ShrFour(x / 16);
    ShrFour(x / 256);
    ShrFour(x / 4096);
  }

  lemma ShrFour(x: nat)
    ensures Shr(x, 1) == x / 2 && Shr(x, 2) == x / 4
    ensures forall m: nat :: m >= 4 ==> Shr(x, m) == Shr(x / 16, m - 4)
  {
    assert x / 2 / 2 == x / 4 && x / 4 / 2 == x / 8 && x / 8 / 2 == x / 16;
    forall m: nat | m >= 4
      ensures Shr(x, m) == Shr(x / 16, m - 4)
    {
      assert Shr(x, m) == Shr(x / 2, m - 1) == Shr(x / 4, m - 2) == Shr(x / 8, m - 3);
    }
  }

  // zelda64_ceil_pow2 itself: the bit-smearing code computes CeilPow2.
  method CeilPow2BySmearing(size: u32) returns (r: u32)
    ensures r == CeilPow2(size)
    ensures size == 0 || size > 0x8000_0000 ==> r == 0
  {
    ghost var k := SmearWidth(size);
    var s: nat := Wrap(size - 1);
    s := SmearStep(s, 2, k, 1);
    s := SmearStep(s, 4, k, 2);
    s := SmearStep(s, 16, k, 4);
    s := SmearStep(s, 256, k, 8);
    s := SmearStep(s, 65536, k, 16);
    r := Wrap(s + 1);
  }

  // size |= size >> m, with the shift written as a division
  method SmearStep(s: nat, divisor: nat, ghost k: nat, ghost m: nat) returns (r: nat)
    requires (m, divisor) in {(1, 2), (2, 4), (4, 16), (8, 256), (16, 65536)}
    requires TopOnes(s, k, m)
    ensures r == Or(s, s / divisor)
    ensures TopOnes(r, k, 2 * m)
  {
    ShrDivides(s);
    SmearDoubles(s, k, m);
    r := Or(s, s / divisor);
  }

  // The number of digits the smeared pattern will have.
  lemma SmearWidth(size: u32) returns (k: nat)
    ensures k <= 32 && TopOnes(Wrap(size - 1), k, 1)
    ensures Wrap(Pow2(k)) == CeilPow2(size)
  {
    if size == 0 || size > 0x8000_0000 {
      k := 32;
      SmearWidthOverflow(size);
    } else {
      k := Log2Up(size);
      SmearWidthOf(size, k);
      Pow2Of32();
      Log2UpFits(size, 31);
      assert CeilPow2(size) == Pow2(k);
      WrapFits(Pow2(k));
      WrapFits(size - 1);
    }
  }

  lemma WrapFits(n: nat)
    ensures n < TWO_32 ==> Wrap(n) == n
    ensures n == TWO_32 ==> Wrap(n) == 0
  {
  }

  lemma SmearWidthOverflow(size: u32)
    requires size == 0 || size > 0x8000_0000
    ensures TopOnes(Wrap(size - 1), 32, 1) && Wrap(Pow2(32)) == 0
  {
    Pow2Of32();
    LeadingOne(if size == 0 then UINT32_MAX else size - 1, 32);
  }

  lemma SmearWidthOf(size: u32, k: nat)
    requires 1 <= size && k == Log2Up(size)
    ensures TopOnes(size - 1, k, 1)
  {
    Log2UpBounds(size);
    if k > 0 {
      LeadingOne(size - 1, k);
    }
  }

  lemma {:induction false} LeadingOne(x: nat, k: nat)
    requires k >= 1 && Pow2(k - 1) <= x < Pow2(k)
    ensures TopOnes(x, k, 1)
  {
    if k <= 1 {
    } else {
      LeadingOne(x / 2, k - 1);
    }
  }
}
