/**
 CRC-32C of lib/crc32c.c against its definition in section 12.1 of RFC 3720: division by the
 Castagnoli polynomial, here in its reflected form, one bit at a time.
 */
module Crc32c {
  import opened Bytes

  const POLYNOMIAL: bv32 := 0x82F63B78

  /* The definition */

  // One bit of polynomial division.
  function Bit(c: bv32): bv32 {
    if c & 1 == 1 then (c >> 1) ^ POLYNOMIAL else c >> 1
  }

  function Iterate<T>(f: T -> T, c: T, n: nat): T
    decreases n
  {
    if n == 0 then c else Iterate(f, f(c), n - 1)
  }

  function EightBits(c: bv32): bv32 { Iterate(Bit, c, 8) }

  function XorBits(a: bv32, b: bv32): bv32 { a ^ b }

  function Not(a: bv32): bv32 { !a }

  // One byte up.
  function Up(d: bv32): bv32 { d << 8 }

  function Octet(b: byte): bv32 { (b as bv8) as bv32 }

  // What is left after a byte string, least significant bit of each byte first, when `divide`
  // takes out eight bits.
  function Remainder(divide: bv32 -> bv32, c: bv32, data: bytes): bv32
    decreases |data|
  {
    if data == [] then c else Remainder(divide, divide(XorBits(c, Octet(data[0]))), data[1..])
  }

  function CrcBy(divide: bv32 -> bv32, start: bv32, data: bytes): bv32 { Not(Remainder(divide, Not(start), data)) }

  function Crc(start: bv32, data: bytes): bv32 { CrcBy(EightBits, start, data) }

  /* The table crc32c_table, eight entries to a row */

  const ROW_00: seq<bv32> := [
    0x00000000, 0xF26B8303, 0xE13B70F7, 0x1350F3F4,
    0xC79A971F, 0x35F1141C, 0x26A1E7E8, 0xD4CA64EB
  ]
  const ROW_01: seq<bv32> := [
    0x8AD958CF, 0x78B2DBCC, 0x6BE22838, 0x9989AB3B,
    0x4D43CFD0, 0xBF284CD3, 0xAC78BF27, 0x5E133C24
  ]
  const ROW_02: seq<bv32> := [
    0x105EC76F, 0xE235446C, 0xF165B798, 0x030E349B,
    0xD7C45070, 0x25AFD373, 0x36FF2087, 0xC494A384
  ]
  const ROW_03: seq<bv32> := [
    0x9A879FA0, 0x68EC1CA3, 0x7BBCEF57, 0x89D76C54,
    0x5D1D08BF, 0xAF768BBC, 0xBC267848, 0x4E4DFB4B
  ]
  const ROW_04: seq<bv32> := [
    0x20BD8EDE, 0xD2D60DDD, 0xC186FE29, 0x33ED7D2A,
    0xE72719C1, 0x154C9AC2, 0x061C6936, 0xF477EA35
  ]
  const ROW_05: seq<bv32> := [
    0xAA64D611, 0x580F5512, 0x4B5FA6E6, 0xB93425E5,
    0x6DFE410E, 0x9F95C20D, 0x8CC531F9, 0x7EAEB2FA
  ]
  const ROW_06: seq<bv32> := [
    0x30E349B1, 0xC288CAB2, 0xD1D83946, 0x23B3BA45,
    0xF779DEAE, 0x05125DAD, 0x1642AE59, 0xE4292D5A
  ]
  const ROW_07: seq<bv32> := [
    0xBA3A117E, 0x4851927D, 0x5B016189, 0xA96AE28A,
    0x7DA08661, 0x8FCB0562, 0x9C9BF696, 0x6EF07595
  ]
  const ROW_08: seq<bv32> := [
    0x417B1DBC, 0xB3109EBF, 0xA0406D4B, 0x522BEE48,
    0x86E18AA3, 0x748A09A0, 0x67DAFA54, 0x95B17957
  ]
  const ROW_09: seq<bv32> := [
    0xCBA24573, 0x39C9C670, 0x2A993584, 0xD8F2B687,
    0x0C38D26C, 0xFE53516F, 0xED03A29B, 0x1F682198
  ]
  const ROW_10: seq<bv32> := [
    0x5125DAD3, 0xA34E59D0, 0xB01EAA24, 0x42752927,
    0x96BF4DCC, 0x64D4CECF, 0x77843D3B, 0x85EFBE38
  ]
  const ROW_11: seq<bv32> := [
    0xDBFC821C, 0x2997011F, 0x3AC7F2EB, 0xC8AC71E8,
    0x1C661503, 0xEE0D9600, 0xFD5D65F4, 0x0F36E6F7
  ]
  const ROW_12: seq<bv32> := [
    0x61C69362, 0x93AD1061, 0x80FDE395, 0x72966096,
    0xA65C047D, 0x5437877E, 0x4767748A, 0xB50CF789
  ]
  const ROW_13: seq<bv32> := [
    0xEB1FCBAD, 0x197448AE, 0x0A24BB5A, 0xF84F3859,
    0x2C855CB2, 0xDEEEDFB1, 0xCDBE2C45, 0x3FD5AF46
  ]
  const ROW_14: seq<bv32> := [
    0x7198540D, 0x83F3D70E, 0x90A324FA, 0x62C8A7F9,
    0xB602C312, 0x44694011, 0x5739B3E5, 0xA55230E6
  ]
  const ROW_15: seq<bv32> := [
    0xFB410CC2, 0x092A8FC1, 0x1A7A7C35, 0xE811FF36,
    0x3CDB9BDD, 0xCEB018DE, 0xDDE0EB2A, 0x2F8B6829
  ]
  const ROW_16: seq<bv32> := [
    0x82F63B78, 0x709DB87B, 0x63CD4B8F, 0x91A6C88C,
    0x456CAC67, 0xB7072F64, 0xA457DC90, 0x563C5F93
  ]
  const ROW_17: seq<bv32> := [
    0x082F63B7, 0xFA44E0B4, 0xE9141340, 0x1B7F9043,
    0xCFB5F4A8, 0x3DDE77AB, 0x2E8E845F, 0xDCE5075C
  ]
  const ROW_18: seq<bv32> := [
    0x92A8FC17, 0x60C37F14, 0x73938CE0, 0x81F80FE3,
    0x55326B08, 0xA759E80B, 0xB4091BFF, 0x466298FC
  ]
  const ROW_19: seq<bv32> := [
    0x1871A4D8, 0xEA1A27DB, 0xF94AD42F, 0x0B21572C,
    0xDFEB33C7, 0x2D80B0C4, 0x3ED04330, 0xCCBBC033
  ]
  const ROW_20: seq<bv32> := [
    0xA24BB5A6, 0x502036A5, 0x4370C551, 0xB11B4652,
    0x65D122B9, 0x97BAA1BA, 0x84EA524E, 0x7681D14D
  ]
  const ROW_21: seq<bv32> := [
    0x2892ED69, 0xDAF96E6A, 0xC9A99D9E, 0x3BC21E9D,
    0xEF087A76, 0x1D63F975, 0x0E330A81, 0xFC588982
  ]
  const ROW_22: seq<bv32> := [
    0xB21572C9, 0x407EF1CA, 0x532E023E, 0xA145813D,
    0x758FE5D6, 0x87E466D5, 0x94B49521, 0x66DF1622
  ]
  const ROW_23: seq<bv32> := [
    0x38CC2A06, 0xCAA7A905, 0xD9F75AF1, 0x2B9CD9F2,
    0xFF56BD19, 0x0D3D3E1A, 0x1E6DCDEE, 0xEC064EED
  ]
  const ROW_24: seq<bv32> := [
    0xC38D26C4, 0x31E6A5C7, 0x22B65633, 0xD0DDD530,
    0x0417B1DB, 0xF67C32D8, 0xE52CC12C, 0x1747422F
  ]
  const ROW_25: seq<bv32> := [
    0x49547E0B, 0xBB3FFD08, 0xA86F0EFC, 0x5A048DFF,
    0x8ECEE914, 0x7CA56A17, 0x6FF599E3, 0x9D9E1AE0
  ]
  const ROW_26: seq<bv32> := [
    0xD3D3E1AB, 0x21B862A8, 0x32E8915C, 0xC083125F,
    0x144976B4, 0xE622F5B7, 0xF5720643, 0x07198540
  ]
  const ROW_27: seq<bv32> := [
    0x590AB964, 0xAB613A67, 0xB831C993, 0x4A5A4A90,
    0x9E902E7B, 0x6CFBAD78, 0x7FAB5E8C, 0x8DC0DD8F
  ]
  const ROW_28: seq<bv32> := [
    0xE330A81A, 0x115B2B19, 0x020BD8ED, 0xF0605BEE,
    0x24AA3F05, 0xD6C1BC06, 0xC5914FF2, 0x37FACCF1
  ]
  const ROW_29: seq<bv32> := [
    0x69E9F0D5, 0x9B8273D6, 0x88D28022, 0x7AB90321,
    0xAE7367CA, 0x5C18E4C9, 0x4F48173D, 0xBD23943E
  ]
  const ROW_30: seq<bv32> := [
    0xF36E6F75, 0x0105EC76, 0x12551F82, 0xE03E9C81,
    0x34F4F86A, 0xC69F7B69, 0xD5CF889D, 0x27A40B9E
  ]
  const ROW_31: seq<bv32> := [
    0x79B737BA, 0x8BDCB4B9, 0x988C474D, 0x6AE7C44E,
    0xBE2DA0A5, 0x4C4623A6, 0x5F16D052, 0xAD7D5351
  ]

  function Quarter0(r: nat): seq<bv32> {
    match r
    case 0 => ROW_00
    case 1 => ROW_01
    case 2 => ROW_02
    case 3 => ROW_03
    case 4 => ROW_04
    case 5 => ROW_05
    case 6 => ROW_06
    case _ => ROW_07
  }

  function Quarter1(r: nat): seq<bv32> {
    match r
    case 0 => ROW_08
    case 1 => ROW_09
    case 2 => ROW_10
    case 3 => ROW_11
    case 4 => ROW_12
    case 5 => ROW_13
    case 6 => ROW_14
    case _ => ROW_15
  }

  function Quarter2(r: nat): seq<bv32> {
    match r
    case 0 => ROW_16
    case 1 => ROW_17
    case 2 => ROW_18
    case 3 => ROW_19
    case 4 => ROW_20
    case 5 => ROW_21
    case 6 => ROW_22
    case _ => ROW_23
  }

  function Quarter3(r: nat): seq<bv32> {
    match r
    case 0 => ROW_24
    case 1 => ROW_25
    case 2 => ROW_26
    case 3 => ROW_27
    case 4 => ROW_28
    case 5 => ROW_29
    case 6 => ROW_30
    case _ => ROW_31
  }

  type Quarter = nat -> seq<bv32>

  function TableEntry(i: byte): bv32 { TableOf(Quarter0, Quarter1, Quarter2, Quarter3, i) }

  function TableOf(q0: Quarter, q1: Quarter, q2: Quarter, q3: Quarter, i: byte): bv32 {
    if i < 64 then Cell(q0, i)
    else if i < 128 then Cell(q1, i - 64)
    else if i < 192 then Cell(q2, i - 128)
    else Cell(q3, i - 192)
  }

  function Cell(quarter: Quarter, i: nat): bv32 {
    if |quarter(i / 8)| == 8 then quarter(i / 8)[i % 8] else 0
  }

  /* Polynomial division is linear, loses nothing, and only shifts out zeros */

  ghost predicate Linear<T(!new)>(f: T -> T, op: (T, T) -> T) {
    forall a, b {:trigger f(op(a, b))} :: f(op(a, b)) == op(f(a), f(b))
  }

  ghost predicate Injective<T(!new)>(f: T -> T) {
    forall a, b :: f(a) == f(b) ==> a == b
  }

  ghost predicate ShiftsZeros(f: bv32 -> bv32) {
    forall d :: d <= 0xFF_FFFF ==> f(Up(d)) == d
  }

  ghost predicate Divides(f: bv32 -> bv32) {
    Linear(f, XorBits) && Injective(f) && ShiftsZeros(f)
  }

  lemma {:induction false} IterateLinear<T(!new)>(f: T -> T, op: (T, T) -> T, x: T, y: T, n: nat)
    requires Linear(f, op)
    ensures Iterate(f, op(x, y), n) == op(Iterate(f, x, n), Iterate(f, y, n))
    decreases n
  {
    if n == 0 {
    } else {
      IterateLinear(f, op, f(x), f(y), n - 1);
    }
  }

  lemma {:induction false} IterateInjective<T(!new)>(f: T -> T, x: T, y: T, n: nat)
    requires Injective(f) && Iterate(f, x, n) == Iterate(f, y, n)
    ensures x == y
    decreases n
  {
    if n == 0 {
    } else {
      IterateInjective(f, f(x), f(y), n - 1);
    }
  }

  lemma BitIsLinear(x: bv32, y: bv32)
    ensures Bit(x ^ y) == Bit(x) ^ Bit(y)
  {
    assert (x ^ y) >> 1 == (x >> 1) ^ (y >> 1);
    assert ((x ^ y) & 1 == 1) <==> ((x & 1 == 1) != (y & 1 == 1));
    MoveXor(x >> 1, y >> 1, POLYNOMIAL);
  }

  lemma MoveXor(a: bv32, b: bv32, p: bv32)
    ensures (a ^ p) ^ (b ^ p) == a ^ b
    ensures (a ^ p) ^ b == (a ^ b) ^ p == a ^ (b ^ p)
  {
  }

  lemma BitIsInjective(x: bv32, y: bv32)
    requires Bit(x) == Bit(y)
    ensures x == y
  {
  }

  lemma BitLaws()
    ensures Linear(Bit, XorBits) && Injective(Bit)
  {
    forall a, b
      ensures Bit(XorBits(a, b)) == XorBits(Bit(a), Bit(b))
    {
      BitIsLinear(a, b);
    }
    forall a, b | Bit(a) == Bit(b)
      ensures a == b
    {
      BitIsInjective(a, b);
    }
  }

  lemma EightZeros(x: bv32)
    requires x & 0xFF == 0
    ensures EightBits(x) == x >> 8
  {
    FourZeros(x, 4);
    assert (x >> 4) & 0xF == 0;
    FourZeros(x >> 4, 0);
    assert (x >> 4) >> 4 == x >> 8;
  }

  lemma FourZeros(x: bv32, n: nat)
    requires x & 0xF == 0
    ensures Iterate(Bit, x, n + 4) == Iterate(Bit, x >> 4, n)
  {
    assert Bit(x) == x >> 1 && Bit(x >> 1) == x >> 2 && Bit(x >> 2) == x >> 3 && Bit(x >> 3) == x >> 4;
    assert Iterate(Bit, x, n + 4) == Iterate(Bit, x >> 1, n + 3)
        == Iterate(Bit, x >> 2, n + 2) == Iterate(Bit, x >> 3, n + 1);
  }

  lemma EightBitsLinear(a: bv32, b: bv32)
    ensures EightBits(XorBits(a, b)) == XorBits(EightBits(a), EightBits(b))
  {
    BitLaws();
    IterateLinear(Bit, XorBits, a, b, 8);
  }

  lemma EightBitsInjective(a: bv32, b: bv32)
    requires EightBits(a) == EightBits(b)
    ensures a == b
  {
    BitLaws();
    IterateInjective(Bit, a, b, 8);
  }

  lemma UpAndBack(d: bv32)
    requires d <= 0xFF_FFFF
    ensures Up(d) & 0xFF == 0 && Up(d) >> 8 == d
  {
  }

  lemma EightBitsDivides()
    ensures Divides(EightBits)
  {
    forall a, b
      ensures EightBits(XorBits(a, b)) == XorBits(EightBits(a), EightBits(b))
    {
      EightBitsLinear(a, b);
    }
    forall a, b | EightBits(a) == EightBits(b)
      ensures a == b
    {
      EightBitsInjective(a, b);
    }
    forall d: bv32 | d <= 0xFF_FFFF
      ensures EightBits(Up(d)) == d
    {
      UpAndBack(d);
      EightZeros(Up(d));
    }
  }

  /* Every table entry is the eight-step remainder of its index */

  function RemainderOf(i: byte): bv32 { EightBits(Octet(i)) }

  ghost predicate Entries(row: seq<bv32>, f: byte -> bv32, from: nat) {
    |row| == 8 && from + 8 <= 256 &&
    row[0] == f(from + 0) &&
    row[1] == f(from + 1) &&
    row[2] == f(from + 2) &&
    row[3] == f(from + 3) &&
    row[4] == f(from + 4) &&
    row[5] == f(from + 5) &&
    row[6] == f(from + 6) &&
    row[7] == f(from + 7)
  }

  lemma Row00()
    ensures Entries(ROW_00, RemainderOf, 0)
  {
  }

  lemma Row01()
    ensures Entries(ROW_01, RemainderOf, 8)
  {
  }

  lemma Row02()
    ensures Entries(ROW_02, RemainderOf, 16)
  {
  }

  lemma Row03()
    ensures Entries(ROW_03, RemainderOf, 24)
  {
  }

  lemma Row04()
    ensures Entries(ROW_04, RemainderOf, 32)
  {
  }

  lemma Row05()
    ensures Entries(ROW_05, RemainderOf, 40)
  {
  }

  lemma Row06()
    ensures Entries(ROW_06, RemainderOf, 48)
  {
  }

  lemma Row07()
    ensures Entries(ROW_07, RemainderOf, 56)
  {
  }

  lemma Row08()
    ensures Entries(ROW_08, RemainderOf, 64)
  {
  }

  lemma Row09()
    ensures Entries(ROW_09, RemainderOf, 72)
  {
  }

  lemma Row10()
    ensures Entries(ROW_10, RemainderOf, 80)
  {
  }

  lemma Row11()
    ensures Entries(ROW_11, RemainderOf, 88)
  {
  }

  lemma Row12()
    ensures Entries(ROW_12, RemainderOf, 96)
  {
  }

  lemma Row13()
    ensures Entries(ROW_13, RemainderOf, 104)
  {
  }

  lemma Row14()
    ensures Entries(ROW_14, RemainderOf, 112)
  {
  }

  lemma Row15()
    ensures Entries(ROW_15, RemainderOf, 120)
  {
  }

  lemma Row16()
    ensures Entries(ROW_16, RemainderOf, 128)
  {
  }

  lemma Row17()
    ensures Entries(ROW_17, RemainderOf, 136)
  {
  }

  lemma Row18()
    ensures Entries(ROW_18, RemainderOf, 144)
  {
  }

  lemma Row19()
    ensures Entries(ROW_19, RemainderOf, 152)
  {
  }

  lemma Row20()
    ensures Entries(ROW_20, RemainderOf, 160)
  {
  }

  lemma Row21()
    ensures Entries(ROW_21, RemainderOf, 168)
  {
  }

  lemma Row22()
    ensures Entries(ROW_22, RemainderOf, 176)
  {
  }

  lemma Row23()
    ensures Entries(ROW_23, RemainderOf, 184)
  {
  }

  lemma Row24()
    ensures Entries(ROW_24, RemainderOf, 192)
  {
  }

  lemma Row25()
    ensures Entries(ROW_25, RemainderOf, 200)
  {
  }

  lemma Row26()
    ensures Entries(ROW_26, RemainderOf, 208)
  {
  }

  lemma Row27()
    ensures Entries(ROW_27, RemainderOf, 216)
  {
  }

  lemma Row28()
    ensures Entries(ROW_28, RemainderOf, 224)
  {
  }

  lemma Row29()
    ensures Entries(ROW_29, RemainderOf, 232)
  {
  }

  lemma Row30()
    ensures Entries(ROW_30, RemainderOf, 240)
  {
  }

  lemma Row31()
    ensures Entries(ROW_31, RemainderOf, 248)
  {
  }

  lemma Quarter0Entries(f: byte -> bv32, r: nat)
    requires r < 8
    requires Entries(ROW_00, f, 0) && Entries(ROW_01, f, 8)
    requires Entries(ROW_02, f, 16) && Entries(ROW_03, f, 24)
    requires Entries(ROW_04, f, 32) && Entries(ROW_05, f, 40)
    requires Entries(ROW_06, f, 48) && Entries(ROW_07, f, 56)
    ensures Entries(Quarter0(r), f, 8 * r)
  {
  }

  lemma Quarter0IsRemainders(r: nat)
    requires r < 8
    ensures Entries(Quarter0(r), RemainderOf, 8 * r)
  {
    Row00();
    Row01();
    Row02();
    Row03();
    Row04();
    Row05();
    Row06();
    Row07();
    Quarter0Entries(RemainderOf, r);
  }

  lemma Quarter1Entries(f: byte -> bv32, r: nat)
    requires r < 8
    requires Entries(ROW_08, f, 64) && Entries(ROW_09, f, 72)
    requires Entries(ROW_10, f, 80) && Entries(ROW_11, f, 88)
    requires Entries(ROW_12, f, 96) && Entries(ROW_13, f, 104)
    requires Entries(ROW_14, f, 112) && Entries(ROW_15, f, 120)
    ensures Entries(Quarter1(r), f, 64 + 8 * r)
  {
  }

  lemma Quarter1IsRemainders(r: nat)
    requires r < 8
    ensures Entries(Quarter1(r), RemainderOf, 64 + 8 * r)
  {
    Row08();
    Row09();
    Row10();
    Row11();
    Row12();
    Row13();
    Row14();
    Row15();
    Quarter1Entries(RemainderOf, r);
  }

  lemma Quarter2Entries(f: byte -> bv32, r: nat)
    requires r < 8
    requires Entries(ROW_16, f, 128) && Entries(ROW_17, f, 136)
    requires Entries(ROW_18, f, 144) && Entries(ROW_19, f, 152)
    requires Entries(ROW_20, f, 160) && Entries(ROW_21, f, 168)
    requires Entries(ROW_22, f, 176) && Entries(ROW_23, f, 184)
    ensures Entries(Quarter2(r), f, 128 + 8 * r)
  {
  }

  lemma Quarter2IsRemainders(r: nat)
    requires r < 8
    ensures Entries(Quarter2(r), RemainderOf, 128 + 8 * r)
  {
    Row16();
    Row17();
    Row18();
    Row19();
    Row20();
    Row21();
    Row22();
    Row23();
    Quarter2Entries(RemainderOf, r);
  }

  lemma Quarter3Entries(f: byte -> bv32, r: nat)
    requires r < 8
    requires Entries(ROW_24, f, 192) && Entries(ROW_25, f, 200)
    requires Entries(ROW_26, f, 208) && Entries(ROW_27, f, 216)
    requires Entries(ROW_28, f, 224) && Entries(ROW_29, f, 232)
    requires Entries(ROW_30, f, 240) && Entries(ROW_31, f, 248)
    ensures Entries(Quarter3(r), f, 192 + 8 * r)
  {
  }

  lemma Quarter3IsRemainders(r: nat)
    requires r < 8
    ensures Entries(Quarter3(r), RemainderOf, 192 + 8 * r)
  {
    Row24();
    Row25();
    Row26();
    Row27();
    Row28();
    Row29();
    Row30();
    Row31();
    Quarter3Entries(RemainderOf, r);
  }

  ghost predicate QuarterHolds(quarter: Quarter, f: byte -> bv32, from: nat) {
    forall r: nat :: r < 8 ==> Entries(quarter(r), f, from + 8 * r)
  }

  lemma CellHolds(quarter: Quarter, f: byte -> bv32, from: nat, i: nat)
    requires QuarterHolds(quarter, f, from) && i < 64 && from + 64 <= 256
    ensures Cell(quarter, i) == f(from + i)
  {
    Pick(quarter(i / 8), f, from + 8 * (i / 8), i % 8);
  }

  lemma Pick(row: seq<bv32>, f: byte -> bv32, from: nat, j: nat)
    requires Entries(row, f, from) && j < 8
    ensures row[j] == f(from + j)
  {
  }

  lemma QuartersHold()
    ensures QuarterHolds(Quarter0, RemainderOf, 0) && QuarterHolds(Quarter1, RemainderOf, 64)
    ensures QuarterHolds(Quarter2, RemainderOf, 128) && QuarterHolds(Quarter3, RemainderOf, 192)
  {
    forall r: nat | r < 8
      ensures Entries(Quarter0(r), RemainderOf, 8 * r)
      ensures Entries(Quarter1(r), RemainderOf, 64 + 8 * r)
      ensures Entries(Quarter2(r), RemainderOf, 128 + 8 * r)
      ensures Entries(Quarter3(r), RemainderOf, 192 + 8 * r)
    {
      Quarter0IsRemainders(r);
      Quarter1IsRemainders(r);
      Quarter2IsRemainders(r);
      Quarter3IsRemainders(r);
    }
  }

  lemma TableOfHolds(q0: Quarter, q1: Quarter, q2: Quarter, q3: Quarter, f: byte -> bv32, i: byte)
    requires QuarterHolds(q0, f, 0) && QuarterHolds(q1, f, 64)
    requires QuarterHolds(q2, f, 128) && QuarterHolds(q3, f, 192)
    ensures TableOf(q0, q1, q2, q3, i) == f(i)
  {
    if i < 64 {
      CellHolds(q0, f, 0, i);
    } else if i < 128 {
      CellHolds(q1, f, 64, i - 64);
    } else if i < 192 {
      CellHolds(q2, f, 128, i - 128);
    } else {
      CellHolds(q3, f, 192, i - 192);
    }
  }

  // Every entry is the eight-step remainder of its index.
  lemma TableIsRemainders(i: byte)
    ensures TableEntry(i) == EightBits(Octet(i))
  {
    QuartersHold();
    TableOfHolds(Quarter0, Quarter1, Quarter2, Quarter3, RemainderOf, i);
  }

  /* zelda64_crc32c */

  method Checksum(start: bv32, data: bytes) returns (crc: bv32)
    ensures crc == Crc(start, data)
  {
    EightBitsDivides();
    forall i: byte
      ensures TableEntry(i) == EightBits(Octet(i))
    {
      TableIsRemainders(i);
    }
    crc := ChecksumBy(TableEntry, EightBits, start, data);
  }

  // The loop, for any table of the remainders that `divide` leaves.
  method ChecksumBy(table: byte -> bv32, ghost divide: bv32 -> bv32, start: bv32, data: bytes) returns (crc: bv32)
    requires Divides(divide) && forall i: byte :: table(i) == divide(Octet(i))
    ensures crc == CrcBy(divide, start, data)
  {
    crc := Not(start);
    var k := 0;
    while k < |data|
      invariant k <= |data|
      invariant Remainder(divide, crc, data[k..]) == Remainder(divide, Not(start), data)
    {
      ByteStep(divide, crc, data[k]);
      crc := XorBits(crc >> 8, table((XorBits(crc, Octet(data[k])) & 0xFF) as nat));
      assert data[k..][1..] == data[k + 1..];
      k := k + 1;
    }
    crc := Not(crc);
  }

  // Taking eight bits out of the state plus a byte needs only the low byte of the sum.
  lemma ByteStep(f: bv32 -> bv32, c: bv32, b: byte)
    requires Divides(f)
    ensures var v := XorBits(c, Octet(b)) & 0xFF;
      v as nat < 256 && f(XorBits(c, Octet(b))) == XorBits(c >> 8, f(Octet(v as nat)))
  {
    var v := XorBits(c, Octet(b)) & 0xFF;
    OctetIsLow(b);
    HighAndLow(c, Octet(b));
    LowByte(v);
    SplitStep(f, c >> 8, v);
  }

  lemma SplitStep(f: bv32 -> bv32, h: bv32, v: bv32)
    requires Linear(f, XorBits) && ShiftsZeros(f) && h <= 0xFF_FFFF
    ensures f(XorBits(Up(h), v)) == XorBits(h, f(v))
  {
  }

  lemma OctetIsLow(b: byte)
    ensures Octet(b) <= 0xFF
  {
  }

  lemma HighAndLow(c: bv32, o: bv32)
    requires o <= 0xFF
    ensures XorBits(c, o) == XorBits(Up(c >> 8), XorBits(c, o) & 0xFF)
    ensures XorBits(c, o) & 0xFF <= 0xFF && c >> 8 <= 0xFF_FFFF
  {
    SplitByte(c ^ o);
    HighPart(c, o, c ^ o);
  }

  lemma SplitByte(x: bv32)
    ensures x == ((x >> 8) << 8) ^ (x & 0xFF)
  {
  }

  lemma HighPart(c: bv32, o: bv32, x: bv32)
    requires o <= 0xFF && x == c ^ o
    ensures x >> 8 == c >> 8
  {
    assert (c ^ o) >> 8 == (c >> 8) ^ (o >> 8);
  }

  lemma LowByte(v: bv32)
    requires v <= 0xFF
    ensures v as nat < 256 && Octet(v as nat) == v
  {
    LowByteBits(v as bv8, v);
  }

  lemma LowByteBits(u: bv8, v: bv32)
    requires v <= 0xFF && u == v as bv8
    ensures v as nat == u as nat && (u as nat) as bv8 == u
  {
  }

  /* The checksum of a string is the checksum of its pieces, continued */

  lemma {:induction false} RemainderContinues(f: bv32 -> bv32, c: bv32, a: bytes, b: bytes)
    ensures Remainder(f, c, a + b) == Remainder(f, Remainder(f, c, a), b)
    decreases |a|
  {
    if a == [] {
      assert a + b == b;
    } else {
      RemainderContinues(f, f(XorBits(c, Octet(a[0]))), a[1..], b);
      assert (a + b)[1..] == a[1..] + b;
    }
  }

  lemma CrcContinues(c: bv32, a: bytes, b: bytes)
    ensures Crc(Crc(c, a), b) == Crc(c, a + b)
  {
    CrcByContinues(EightBits, c, a, b);
  }

  lemma CrcByContinues(f: bv32 -> bv32, c: bv32, a: bytes, b: bytes)
    ensures CrcBy(f, CrcBy(f, c, a), b) == CrcBy(f, c, a + b)
  {
    RemainderContinues(f, Not(c), a, b);
    NotNot(Remainder(f, Not(c), a));
  }

  lemma NotNot(c: bv32)
    ensures Not(Not(c)) == c
  {
  }

  /* Burst detection */

  lemma {:induction false} RemainderKeepsState(f: bv32 -> bv32, c: bv32, d: bv32, data: bytes)
    requires Injective(f) && Remainder(f, c, data) == Remainder(f, d, data)
    ensures c == d
    decreases |data|
  {
    if data == [] {
    } else {
      var o := Octet(data[0]);
      RemainderKeepsState(f, f(XorBits(c, o)), f(XorBits(d, o)), data[1..]);
      assert XorBits(c, o) == XorBits(d, o);
      CancelXor(c, d, o);
    }
  }

  lemma CancelXor(c: bv32, d: bv32, o: bv32)
    requires XorBits(c, o) == XorBits(d, o)
    ensures c == d
  {
  }

  // How two states differ that agree after reading a and b respectively.
  ghost function Difference(a: bytes, b: bytes): bv32
    requires |a| == |b|
  {
    if a == [] then 0 else XorBits(XorBits(Up(Difference(a[1..], b[1..])), Octet(a[0])), Octet(b[0]))
  }

  lemma {:induction false} DifferenceFits(a: bytes, b: bytes)
    requires |a| == |b|
    ensures |a| == 0 ==> Difference(a, b) == 0
    ensures |a| == 1 ==> Difference(a, b) <= 0xFF
    ensures |a| == 2 ==> Difference(a, b) <= 0xFFFF
    ensures |a| == 3 ==> Difference(a, b) <= 0xFF_FFFF
  {
    if a == [] {
    } else {
      DifferenceFits(a[1..], b[1..]);
      OctetIsLow(a[0]);
      OctetIsLow(b[0]);
      OneByteMore(Difference(a[1..], b[1..]), Octet(a[0]), Octet(b[0]));
    }
  }

  lemma OneByteMore(d: bv32, x: bv32, y: bv32)
    requires x <= 0xFF && y <= 0xFF
    ensures d == 0 ==> XorBits(XorBits(Up(d), x), y) <= 0xFF
    ensures d <= 0xFF ==> XorBits(XorBits(Up(d), x), y) <= 0xFFFF
    ensures d <= 0xFFFF ==> XorBits(XorBits(Up(d), x), y) <= 0xFF_FFFF
    ensures d <= 0xFF_FFFF && XorBits(XorBits(Up(d), x), y) == 0 ==> d == 0 && x == y
  {
  }

  lemma {:induction false} StatesDiffer(f: bv32 -> bv32, p: bv32, q: bv32, a: bytes, b: bytes)
    requires Divides(f) && |a| == |b| <= 4 && Remainder(f, p, a) == Remainder(f, q, b)
    ensures XorBits(p, q) == Difference(a, b)
    decreases |a|
  {
    if a == [] {
      XorSelf(p);
    } else {
      var x, y := XorBits(p, Octet(a[0])), XorBits(q, Octet(b[0]));
      StatesDiffer(f, f(x), f(y), a[1..], b[1..]);
      DifferenceFits(a[1..], b[1..]);
      Preimage(f, x, y, Difference(a[1..], b[1..]));
      MoveAcross(p, Octet(a[0]), y, Up(Difference(a[1..], b[1..])));
      MoveBack(p, q, Octet(b[0]));
    }
  }

  // Remainders that differ only in low bits come from values that differ in those bits, one byte up.
  lemma Preimage(f: bv32 -> bv32, x: bv32, y: bv32, d: bv32)
    requires Divides(f) && XorBits(f(x), f(y)) == d && d <= 0xFF_FFFF
    ensures XorBits(x, y) == Up(d)
  {
    PreimageBy(f, XorBits, XorBits(x, y), x, y, Up(d), d);
  }

  lemma PreimageBy<T(!new)>(f: T -> T, op: (T, T) -> T, z: T, x: T, y: T, u: T, d: T)
    requires Linear(f, op) && Injective(f) && z == op(x, y) && op(f(x), f(y)) == d == f(u)
    ensures z == u
  {
    assert f(op(x, y)) == f(u);
  }

  lemma XorSelf(p: bv32)
    ensures XorBits(p, p) == 0
  {
  }

  lemma MoveAcross(p: bv32, o: bv32, q: bv32, d: bv32)
    requires XorBits(XorBits(p, o), q) == d
    ensures XorBits(p, q) == XorBits(d, o)
  {
    XorBitsAssociates(p, o, q);
    XorCommutes(o, q);
    XorBitsAssociates(p, q, o);
    XorCancels(XorBits(p, q), o);
    MoveAcrossBy(XorBits, p, o, q, d);
  }

  lemma MoveAcrossBy<T>(op: (T, T) -> T, p: T, o: T, q: T, d: T)
    requires op(op(p, o), q) == d == op(p, op(o, q)) && op(o, q) == op(q, o)
    requires op(op(p, q), o) == op(p, op(q, o)) && op(op(op(p, q), o), o) == op(p, q)
    ensures op(p, q) == op(d, o)
  {
  }

  lemma MoveBack(p: bv32, q: bv32, o: bv32)
    ensures XorBits(p, q) == XorBits(XorBits(p, XorBits(q, o)), o)
  {
    XorBitsAssociates(p, q, o);
    XorCancels(XorBits(p, q), o);
  }

  lemma XorBitsAssociates(a: bv32, b: bv32, c: bv32)
    ensures XorBits(XorBits(a, b), c) == XorBits(a, XorBits(b, c))
  {
  }

  lemma XorCommutes(a: bv32, b: bv32)
    ensures XorBits(a, b) == XorBits(b, a)
  {
  }

  lemma XorCancels(a: bv32, b: bv32)
    ensures XorBits(XorBits(a, b), b) == a
  {
  }

  lemma {:induction false} NoDifference(a: bytes, b: bytes)
    requires |a| == |b| <= 4 && Difference(a, b) == 0
    ensures a == b
    decreases |a|
  {
    if a == [] {
    } else {
      OctetIsLow(a[0]);
      OctetIsLow(b[0]);
      DifferenceFits(a[1..], b[1..]);
      OneByteMore(Difference(a[1..], b[1..]), Octet(a[0]), Octet(b[0]));
      NoDifference(a[1..], b[1..]);
      OctetIsInjective(a[0], b[0]);
      assert a == [a[0]] + a[1..] && b == [b[0]] + b[1..];
    }
  }

  lemma OctetIsInjective(a: byte, b: byte)
    requires Octet(a) == Octet(b)
    ensures a == b
  {
    ByteOf(a);
    ByteOf(b);
    SameOctet(a as bv8, b as bv8);
  }

  // A byte survives the way into eight bits and back: it is the sum of its binary digits.
  lemma ByteOf(a: byte)
    ensures (a as bv8) as int == a
  {
    if a < 128 {
      LowerByteOf(a);
    } else {
      UpperByteOf(a);
    }
  }

  lemma LowerByteOf(a: byte)
    requires a < 128
    ensures (a as bv8) as int == a
  {
    Digits(a);
  }

  lemma UpperByteOf(a: byte)
    requires a >= 128
    ensures (a as bv8) as int == a
  {
    Digits(a);
  }

  lemma Digits(a: byte)
    ensures a == a % 2 + 2 * (a / 2 % 2) + 4 * (a / 4 % 2) + 8 * (a / 8 % 2)
      + 16 * (a / 16 % 2) + 32 * (a / 32 % 2) + 64 * (a / 64 % 2) + 128 * (a / 128 % 2)
  {
    assert a / 2 / 2 == a / 4 && a / 4 / 2 == a / 8 && a / 8 / 2 == a / 16 && a / 16 / 2 == a / 32;
    assert a / 32 / 2 == a / 64 && a / 64 / 2 == a / 128 && a / 128 / 2 == 0;
  }

  lemma SameOctet(u: bv8, v: bv8)
    requires u as bv32 == v as bv32
    ensures u == v
  {
  }

  // Strings that differ only inside four consecutive bytes never share a checksum.
  lemma BurstIsDetected(c: bv32, head: bytes, a: bytes, b: bytes, tail: bytes)
    requires |a| == |b| <= 4 && a != b
    ensures Crc(c, head + a + tail) != Crc(c, head + b + tail)
  {
    EightBitsDivides();
    BurstIsDetectedBy(EightBits, c, head, a, b, tail);
  }

  lemma BurstIsDetectedBy(f: bv32 -> bv32, c: bv32, head: bytes, a: bytes, b: bytes, tail: bytes)
    requires Divides(f) && |a| == |b| <= 4 && a != b
    ensures CrcBy(f, c, head + a + tail) != CrcBy(f, c, head + b + tail)
  {
    BurstLeavesTrace(f, Not(c), head, a, b, tail);
    NotNot(Remainder(f, Not(c), head + a + tail));
    NotNot(Remainder(f, Not(c), head + b + tail));
  }

  lemma BurstLeavesTrace(f: bv32 -> bv32, c: bv32, head: bytes, a: bytes, b: bytes, tail: bytes)
    requires Divides(f) && |a| == |b| <= 4 && a != b
    ensures Remainder(f, c, head + a + tail) != Remainder(f, c, head + b + tail)
  {
    if Remainder(f, c, head + a + tail) == Remainder(f, c, head + b + tail) {
      RemainderContinues(f, c, head + a, tail);
      RemainderContinues(f, c, head + b, tail);
      RemainderContinues(f, c, head, a);
      RemainderContinues(f, c, head, b);
      var r := Remainder(f, c, head);
      RemainderKeepsState(f, Remainder(f, r, a), Remainder(f, r, b), tail);
      StatesDiffer(f, r, r, a, b);
      XorSelf(r);
      NoDifference(a, b);
    }
  }

  /* Every checksum is reached */

  // One bit of polynomial division, undone.
  function BackBit(c: bv32): bv32 {
    if c & 0x8000_0000 != 0 then ((c ^ POLYNOMIAL) << 1) | 1 else c << 1
  }

  lemma BitOfBack(c: bv32)
    ensures Bit(BackBit(c)) == c
  {
    if c & 0x8000_0000 != 0 {
      TopBit(c);
      ShiftBack(c ^ POLYNOMIAL);
      XorCancels(c, POLYNOMIAL);
    } else {
      ShiftBack(c);
    }
  }

  lemma TopBit(c: bv32)
    requires c & 0x8000_0000 != 0
    ensures (c ^ POLYNOMIAL) & 0x8000_0000 == 0
  {
  }

  lemma ShiftBack(y: bv32)
    requires y & 0x8000_0000 == 0
    ensures (y << 1) & 1 == 0 && (y << 1) >> 1 == y
    ensures ((y << 1) | 1) & 1 == 1 && ((y << 1) | 1) >> 1 == y
  {
  }

  ghost predicate Undoes<T(!new)>(f: T -> T, g: T -> T) {
    forall c {:trigger g(c)} :: f(g(c)) == c
  }

  lemma {:induction false} IterateLast<T>(g: T -> T, c: T, n: nat)
    ensures Iterate(g, c, n + 1) == g(Iterate(g, c, n))
    decreases n
  {
    if n == 0 {
    } else {
      IterateLast(g, g(c), n - 1);
    }
  }

  lemma {:induction false} IterateBack<T(!new)>(f: T -> T, g: T -> T, c: T, n: nat)
    requires Undoes(f, g)
    ensures Iterate(f, Iterate(g, c, n), n) == c
    decreases n
  {
    if n == 0 {
    } else {
      IterateLast(g, c, n - 1);
      IterateBack(f, g, c, n - 1);
    }
  }

  lemma EightBitsIsOnto(t: bv32) returns (c: bv32)
    ensures EightBits(c) == t
  {
    forall d
      ensures Bit(BackBit(d)) == d
    {
      BitOfBack(d);
    }
    IterateBack(Bit, BackBit, t, 8);
    c := Iterate(BackBit, t, 8);
  }

  // States that differ by the difference of what they are fed meet.
  lemma {:induction false} StatesMeet(f: bv32 -> bv32, p: bv32, q: bv32, a: bytes, b: bytes)
    requires Divides(f) && |a| == |b| <= 4 && XorBits(p, q) == Difference(a, b)
    ensures Remainder(f, p, a) == Remainder(f, q, b)
    decreases |a|
  {
    if a == [] {
      NoXor(p, q);
    } else {
      var x, y, d := XorBits(p, Octet(a[0])), XorBits(q, Octet(b[0])), Difference(a[1..], b[1..]);
      DifferenceFits(a[1..], b[1..]);
      MoveOctets(p, q, Octet(a[0]), Octet(b[0]), Up(d));
      Postimage(f, x, y, d);
      StatesMeet(f, f(x), f(y), a[1..], b[1..]);
    }
  }

  lemma Postimage(f: bv32 -> bv32, x: bv32, y: bv32, d: bv32)
    requires Divides(f) && XorBits(x, y) == Up(d) && d <= 0xFF_FFFF
    ensures XorBits(f(x), f(y)) == d
  {
    PostimageBy(f, XorBits, x, y, Up(d), d);
  }

  lemma PostimageBy<T(!new)>(f: T -> T, op: (T, T) -> T, x: T, y: T, u: T, d: T)
    requires Linear(f, op) && op(x, y) == u && f(u) == d
    ensures op(f(x), f(y)) == d
  {
    assert f(op(x, y)) == op(f(x), f(y));
  }

  lemma NoXor(p: bv32, q: bv32)
    requires XorBits(p, q) == 0
    ensures p == q
  {
  }

  lemma MoveOctets(p: bv32, q: bv32, a: bv32, b: bv32, u: bv32)
    requires XorBits(p, q) == XorBits(XorBits(u, a), b)
    ensures XorBits(XorBits(p, a), XorBits(q, b)) == u
  {
    XorBitsAssociates(XorBits(p, a), q, b);
    XorSwap(p, a, q);
    XorSwap(XorBits(u, a), b, a);
    XorCancels(u, a);
    XorCancels(u, b);
    MoveOctetsBy(XorBits, p, q, a, b, u);
  }

  lemma XorSwap(x: bv32, a: bv32, b: bv32)
    ensures XorBits(XorBits(x, a), b) == XorBits(XorBits(x, b), a)
  {
    XorBitsAssociates(x, a, b);
    XorCommutes(a, b);
    XorBitsAssociates(x, b, a);
  }

  lemma MoveOctetsBy<T>(op: (T, T) -> T, p: T, q: T, a: T, b: T, u: T)
    requires op(p, q) == op(op(u, a), b) && op(op(op(p, a), q), b) == op(op(p, a), op(q, b))
    requires op(op(p, a), q) == op(op(p, q), a) && op(op(op(u, a), b), a) == op(op(op(u, a), a), b)
    requires op(op(u, a), a) == u && op(op(u, b), b) == u
    ensures op(op(p, a), op(q, b)) == u
  {
  }

  const FOUR_ZEROS: bytes := [0, 0, 0, 0]

  // The four bytes of a word, lowest first.
  ghost predicate IsLowFirst(b: bytes, c: bv32) {
    && |b| == 4 && Octet(b[0]) == c & 0xFF && Octet(b[1]) == (c >> 8) & 0xFF
    && Octet(b[2]) == (c >> 16) & 0xFF && Octet(b[3]) == c >> 24
  }

  // Any difference is one of four bytes from four zeros: those of the difference itself.
  lemma FourBytes(d: bv32) returns (b: bytes)
    ensures IsLowFirst(b, d) && Difference(FOUR_ZEROS, b) == d
  {
    QuartersAreBytes(d);
    var b0 := AsByte(d & 0xFF);
    var b1 := AsByte((d >> 8) & 0xFF);
    var b2 := AsByte((d >> 16) & 0xFF);
    var b3 := AsByte(d >> 24);
    b := [b0, b1, b2, b3];
    FourSteps(b0, b1, b2, b3);
    JoinBytes(d);
  }

  lemma AsByte(v: bv32) returns (b: byte)
    requires v <= 0xFF
    ensures Octet(b) == v
  {
    LowByte(v);
    b := v as nat;
  }

  lemma FourSteps(b0: byte, b1: byte, b2: byte, b3: byte)
    ensures Difference(FOUR_ZEROS, [b0, b1, b2, b3])
         == XorBits(Up(XorBits(Up(XorBits(Up(Octet(b3)), Octet(b2))), Octet(b1))), Octet(b0))
  {
    OctetOfZero();
    ZeroIsNothing(Octet(b3));
    DifferenceStep([0], [b3], 0);
    DifferenceStep([0, 0], [b2, b3], Octet(b3));
    DifferenceStep([0, 0, 0], [b1, b2, b3], XorBits(Up(Octet(b3)), Octet(b2)));
    DifferenceStep(FOUR_ZEROS, [b0, b1, b2, b3], XorBits(Up(XorBits(Up(Octet(b3)), Octet(b2))), Octet(b1)));
  }

  lemma QuartersAreBytes(d: bv32)
    ensures d & 0xFF <= 0xFF && (d >> 8) & 0xFF <= 0xFF && (d >> 16) & 0xFF <= 0xFF && d >> 24 <= 0xFF
  {
  }

  lemma OctetOfZero()
    ensures Octet(0) == 0
  {
  }

  lemma DifferenceStep(a: bytes, b: bytes, d: bv32)
    requires |a| == |b| > 0 && a[0] == 0 && Octet(0) == 0 && Difference(a[1..], b[1..]) == d
    ensures Difference(a, b) == XorBits(Up(d), Octet(b[0]))
  {
    ZeroIsNothing(Up(d));
  }

  lemma ZeroIsNothing(u: bv32)
    ensures XorBits(u, 0) == u && XorBits(0, u) == u && Up(0) == 0
  {
  }

  lemma JoinBytes(d: bv32)
    ensures XorBits(Up(XorBits(Up(XorBits(Up(d >> 24), (d >> 16) & 0xFF)), (d >> 8) & 0xFF)), d & 0xFF) == d
  {
  }

  // Some state comes to t over four zeros.
  lemma BeforeZeros(t: bv32) returns (p: bv32)
    ensures Remainder(EightBits, p, FOUR_ZEROS) == t
  {
    var p3 := EightBitsIsOnto(t);
    var p2 := EightBitsIsOnto(p3);
    var p1 := EightBitsIsOnto(p2);
    p := EightBitsIsOnto(p1);
    OctetOfZero();
    OverZero(EightBits, p, FOUR_ZEROS);
    OverZero(EightBits, p1, [0, 0, 0]);
    OverZero(EightBits, p2, [0, 0]);
    OverZero(EightBits, p3, [0]);
  }

  lemma OverZero(f: bv32 -> bv32, c: bv32, data: bytes)
    requires data != [] && data[0] == 0 && Octet(0) == 0
    ensures Remainder(f, c, data) == Remainder(f, f(c), data[1..])
  {
    ZeroIsNothing(c);
  }

  // Any string can be completed by four bytes to have any checksum.
  lemma AnyChecksum(start: bv32, head: bytes, crc: bv32) returns (tail: bytes)
    ensures |tail| == 4 && Crc(start, head + tail) == crc
  {
    var r := Remainder(EightBits, Not(start), head);
    var p := BeforeZeros(Not(crc));
    tail := FourBytes(XorBits(p, r));
    EightBitsDivides();
    StatesMeet(EightBits, p, r, FOUR_ZEROS, tail);
    RemainderContinues(EightBits, Not(start), head, tail);
    NotNot(crc);
  }

  /* The two inversions */

  const ONES: bv32 := 0xFFFF_FFFF

  // A string with its own checksum behind it always has the same checksum.
  lemma ResidueIsFixed(d: bytes) returns (tail: bytes)
    ensures IsLowFirst(tail, Crc(0, d)) && Crc(0, d + tail) == 0x4867_4BC7
  {
    var r, crc := Remainder(EightBits, ONES, d), Crc(0, d);
    tail := FourBytes(crc);
    Inverted(r);
    EightBitsDivides();
    StatesMeet(EightBits, ONES, r, FOUR_ZEROS, tail);
    RemainderContinues(EightBits, ONES, d, tail);
    OnesOverZeros();
  }

  lemma Inverted(r: bv32)
    ensures Not(0) == ONES && Not(r) == XorBits(ONES, r) == XorBits(r, ONES) && XorBits(ONES, 0) == ONES
  {
  }

  lemma OnesOverZeros()
    ensures Remainder(EightBits, ONES, FOUR_ZEROS) == 0xB798_B438
  {
    OctetOfZero();
    OverZero(EightBits, ONES, FOUR_ZEROS);
    OverZero(EightBits, 0xAD82_ACAE, [0, 0, 0]);
    OverZero(EightBits, 0x0E9E_882D, [0, 0]);
    OverZero(EightBits, 0x9F9B_5C85, [0]);
    FirstZeros();
  }

  lemma FirstZeros()
    ensures EightBits(0xFFFF_FFFF) == 0xAD82_ACAE && EightBits(0xAD82_ACAE) == 0x0E9E_882D
    ensures EightBits(0x0E9E_882D) == 0x9F9B_5C85 && EightBits(0x9F9B_5C85) == 0xB798_B438
  {
  }

  function Flip(b: byte): byte { ((b as bv8) ^ 0xFF) as nat }

  function Flipped(b: bytes): bytes { seq(|b|, i requires 0 <= i < |b| => Flip(b[i])) }

  lemma FlipIsOnes(b: byte)
    ensures XorBits(Octet(b), Octet(Flip(b))) == 0xFF
  {
    var u := b as bv8;
    BackAgain(u ^ 0xFF, (u ^ 0xFF) as bv32, Flip(b));
    WideFlip(u);
  }

  lemma BackAgain(w: bv8, v: bv32, b: byte)
    requires v == w as bv32 && b == w as nat
    ensures Octet(b) == v
  {
    NarrowFits(w, v);
    LowByteBits(w, v);
  }

  lemma NarrowFits(w: bv8, v: bv32)
    requires v == w as bv32
    ensures v <= 0xFF && w == v as bv8
  {
  }

  lemma WideFlip(u: bv8)
    ensures (u as bv32) ^ ((u ^ 0xFF) as bv32) == 0xFF
  {
  }

  lemma FlippedDiffers(b: bytes)
    requires |b| == 4
    ensures Difference(b, Flipped(b)) == ONES
  {
    var c := Flipped(b);
    OneFlipped(b[3..], c[3..], 0);
    OneFlipped(b[2..], c[2..], 0xFF);
    OneFlipped(b[1..], c[1..], 0xFFFF);
    OneFlipped(b, c, 0xFF_FFFF);
  }

  lemma OneFlipped(a: bytes, b: bytes, d: bv32)
    requires |a| == |b| > 0 && b[0] == Flip(a[0]) && Difference(a[1..], b[1..]) == d
    ensures Difference(a, b) == XorBits(Up(d), 0xFF)
  {
    FlipIsOnes(a[0]);
    XorBitsAssociates(Up(d), Octet(a[0]), Octet(b[0]));
  }

  // The rule of section 12.1 of RFC 3720: the first 32 bits are complemented, and so is what is left
  // of the division.
  lemma ComplementedRemainder(d: bytes)
    requires |d| >= 4
    ensures Crc(0, d) == XorBits(Remainder(EightBits, 0, Flipped(d[..4]) + d[4..]), 0xFFFF_FFFF)
  {
    EightBitsDivides();
    ComplementedBy(EightBits, d);
  }

  lemma ComplementedBy(f: bv32 -> bv32, d: bytes)
    requires Divides(f) && |d| >= 4
    ensures CrcBy(f, 0, d) == XorBits(Remainder(f, 0, Flipped(d[..4]) + d[4..]), 0xFFFF_FFFF)
  {
    Inverted(Remainder(f, ONES, d));
    ComplementedStart(f, d[..4], d[4..]);
    assert d == d[..4] + d[4..];
  }

  lemma ComplementedStart(f: bv32 -> bv32, a: bytes, b: bytes)
    requires Divides(f) && |a| == 4
    ensures Remainder(f, ONES, a + b) == Remainder(f, 0, Flipped(a) + b)
  {
    FlippedDiffers(a);
    StatesMeet(f, ONES, 0, a, Flipped(a));
    RemainderContinues(f, ONES, a, b);
    RemainderContinues(f, 0, Flipped(a), b);
  }

  /* The first example of section B.4 of RFC 3720: 32 bytes of zeros */

  const EIGHT_ZEROS: bytes := [0, 0, 0, 0, 0, 0, 0, 0]

  lemma OverEightZeros(f: bv32 -> bv32, c0: bv32, c1: bv32, c2: bv32, c3: bv32, c4: bv32, c5: bv32, c6: bv32, c7: bv32, c8: bv32)
    requires f(c0) == c1 && f(c1) == c2 && f(c2) == c3 && f(c3) == c4
    requires f(c4) == c5 && f(c5) == c6 && f(c6) == c7 && f(c7) == c8
    ensures Remainder(f, c0, EIGHT_ZEROS) == c8
  {
    OctetOfZero();
    OverZero(f, c0, EIGHT_ZEROS);
    OverZero(f, c1, [0, 0, 0, 0, 0, 0, 0]);
    OverZero(f, c2, [0, 0, 0, 0, 0, 0]);
    OverZero(f, c3, [0, 0, 0, 0, 0]);
    OverZero(f, c4, [0, 0, 0, 0]);
    OverZero(f, c5, [0, 0, 0]);
    OverZero(f, c6, [0, 0]);
    OverZero(f, c7, [0]);
  }

  lemma Zeros0()
    ensures Remainder(EightBits, 0xFFFF_FFFF, EIGHT_ZEROS) == 0x73D7_4D75
  {
    Steps0();
    OverEightZeros(EightBits, 0xFFFF_FFFF, 0xAD82_ACAE, 0x0E9E_882D, 0x9F9B_5C85, 0xB798_B438,
      0xBA8D_89CA, 0xA8D5_8375, 0x44C1_9592, 0x73D7_4D75);
  }

  lemma Steps0()
    ensures EightBits(0xFFFF_FFFF) == 0xAD82_ACAE && EightBits(0xAD82_ACAE) == 0x0E9E_882D
    ensures EightBits(0x0E9E_882D) == 0x9F9B_5C85 && EightBits(0x9F9B_5C85) == 0xB798_B438
    ensures EightBits(0xB798_B438) == 0xBA8D_89CA && EightBits(0xBA8D_89CA) == 0xA8D5_8375
    ensures EightBits(0xA8D5_8375) == 0x44C1_9592 && EightBits(0x44C1_9592) == 0x73D7_4D75
  {
  }

  lemma Zeros1()
    ensures Remainder(EightBits, 0x73D7_4D75, EIGHT_ZEROS) == 0xBD8F_6515
  {
    Steps1();
    OverEightZeros(EightBits, 0x73D7_4D75, 0x441A_975C, 0x1C22_0F94, 0x552E_4907, 0xD49F_4AA2,
      0x43A4_5A1B, 0x8994_C80E, 0xACF1_2BEF, 0xBD8F_6515);
  }

  lemma Steps1()
    ensures EightBits(0x73D7_4D75) == 0x441A_975C && EightBits(0x441A_975C) == 0x1C22_0F94
    ensures EightBits(0x1C22_0F94) == 0x552E_4907 && EightBits(0x552E_4907) == 0xD49F_4AA2
    ensures EightBits(0xD49F_4AA2) == 0x43A4_5A1B && EightBits(0x43A4_5A1B) == 0x8994_C80E
    ensures EightBits(0x8994_C80E) == 0xACF1_2BEF && EightBits(0xACF1_2BEF) == 0xBD8F_6515
  {
  }

  lemma Zeros2()
    ensures Remainder(EightBits, 0xBD8F_6515, EIGHT_ZEROS) == 0x7B04_1311
  {
    Steps2();
    OverEightZeros(EightBits, 0xBD8F_6515, 0x2512_5C16, 0x36DA_32DB, 0x4A6C_90A2, 0x433A_A9C1,
      0x31A5_9F6E, 0xCD8F_89DA, 0xB8FC_461A, 0x7B04_1311);
  }

  lemma Steps2()
    ensures EightBits(0xBD8F_6515) == 0x2512_5C16 && EightBits(0x2512_5C16) == 0x36DA_32DB
    ensures EightBits(0x36DA_32DB) == 0x4A6C_90A2 && EightBits(0x4A6C_90A2) == 0x433A_A9C1
    ensures EightBits(0x433A_A9C1) == 0x31A5_9F6E && EightBits(0x31A5_9F6E) == 0xCD8F_89DA
    ensures EightBits(0xCD8F_89DA) == 0xB8FC_461A && EightBits(0xB8FC_461A) == 0x7B04_1311
  {
  }

  lemma Zeros3()
    ensures Remainder(EightBits, 0x7B04_1311, EIGHT_ZEROS) == 0x756E_C955
  {
    Steps3();
    OverEightZeros(EightBits, 0x7B04_1311, 0xE24E_407F, 0x2F69_2669, 0x195B_2188, 0x0836_3896,
      0xB401_2DC7, 0x17F3_4302, 0xE12C_83B4, 0x756E_C955);
  }

  lemma Steps3()
    ensures EightBits(0x7B04_1311) == 0xE24E_407F && EightBits(0xE24E_407F) == 0x2F69_2669
    ensures EightBits(0x2F69_2669) == 0x195B_2188 && EightBits(0x195B_2188) == 0x0836_3896
    ensures EightBits(0x0836_3896) == 0xB401_2DC7 && EightBits(0xB401_2DC7) == 0x17F3_4302
    ensures EightBits(0x17F3_4302) == 0xE12C_83B4 && EightBits(0xE12C_83B4) == 0x756E_C955
  {
  }

  lemma ZerosExample()
    ensures Crc(0, EIGHT_ZEROS + EIGHT_ZEROS + EIGHT_ZEROS + EIGHT_ZEROS) == 0x8A91_36AA
  {
    Zeros0();
    Zeros1();
    Zeros2();
    Zeros3();
    RemainderContinues(EightBits, ONES, EIGHT_ZEROS + EIGHT_ZEROS + EIGHT_ZEROS, EIGHT_ZEROS);
    RemainderContinues(EightBits, ONES, EIGHT_ZEROS + EIGHT_ZEROS, EIGHT_ZEROS);
    RemainderContinues(EightBits, ONES, EIGHT_ZEROS, EIGHT_ZEROS);
    Inverted(0x756E_C955);
  }
}
