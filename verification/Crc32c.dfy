/**
  stress_hash_crc32c: the table-driven Castagnoli CRC.  The reference is the
  bit-at-a-time reflected register of section 12.1 of RFC 3720; the printed
  table is checked against it entry by entry.
 */
module Crc32c {
  import opened CStrings

  const POLYNOMIAL: bv32 := 0x82f63b78
  const ONES: bv32 := 0xffffffff

  // The 256 printed entries; row r holds entries 16*r .. 16*r+15.
  const ROW_0: seq<bv32> := [
    0x00000000, 0xf26b8303, 0xe13b70f7, 0x1350f3f4, 0xc79a971f, 0x35f1141c, 0x26a1e7e8, 0xd4ca64eb,
    0x8ad958cf, 0x78b2dbcc, 0x6be22838, 0x9989ab3b, 0x4d43cfd0, 0xbf284cd3, 0xac78bf27, 0x5e133c24]
  const ROW_1: seq<bv32> := [
    0x105ec76f, 0xe235446c, 0xf165b798, 0x030e349b, 0xd7c45070, 0x25afd373, 0x36ff2087, 0xc494a384,
    0x9a879fa0, 0x68ec1ca3, 0x7bbcef57, 0x89d76c54, 0x5d1d08bf, 0xaf768bbc, 0xbc267848, 0x4e4dfb4b]
  const ROW_2: seq<bv32> := [
    0x20bd8ede, 0xd2d60ddd, 0xc186fe29, 0x33ed7d2a, 0xe72719c1, 0x154c9ac2, 0x061c6936, 0xf477ea35,
    0xaa64d611, 0x580f5512, 0x4b5fa6e6, 0xb93425e5, 0x6dfe410e, 0x9f95c20d, 0x8cc531f9, 0x7eaeb2fa]
  const ROW_3: seq<bv32> := [
    0x30e349b1, 0xc288cab2, 0xd1d83946, 0x23b3ba45, 0xf779deae, 0x05125dad, 0x1642ae59, 0xe4292d5a,
    0xba3a117e, 0x4851927d, 0x5b016189, 0xa96ae28a, 0x7da08661, 0x8fcb0562, 0x9c9bf696, 0x6ef07595]
  const ROW_4: seq<bv32> := [
    0x417b1dbc, 0xb3109ebf, 0xa0406d4b, 0x522bee48, 0x86e18aa3, 0x748a09a0, 0x67dafa54, 0x95b17957,
    0xcba24573, 0x39c9c670, 0x2a993584, 0xd8f2b687, 0x0c38d26c, 0xfe53516f, 0xed03a29b, 0x1f682198]
  const ROW_5: seq<bv32> := [
    0x5125dad3, 0xa34e59d0, 0xb01eaa24, 0x42752927, 0x96bf4dcc, 0x64d4cecf, 0x77843d3b, 0x85efbe38,
    0xdbfc821c, 0x2997011f, 0x3ac7f2eb, 0xc8ac71e8, 0x1c661503, 0xee0d9600, 0xfd5d65f4, 0x0f36e6f7]
  const ROW_6: seq<bv32> := [
    0x61c69362, 0x93ad1061, 0x80fde395, 0x72966096, 0xa65c047d, 0x5437877e, 0x4767748a, 0xb50cf789,
    0xeb1fcbad, 0x197448ae, 0x0a24bb5a, 0xf84f3859, 0x2c855cb2, 0xdeeedfb1, 0xcdbe2c45, 0x3fd5af46]
  const ROW_7: seq<bv32> := [
    0x7198540d, 0x83f3d70e, 0x90a324fa, 0x62c8a7f9, 0xb602c312, 0x44694011, 0x5739b3e5, 0xa55230e6,
    0xfb410cc2, 0x092a8fc1, 0x1a7a7c35, 0xe811ff36, 0x3cdb9bdd, 0xceb018de, 0xdde0eb2a, 0x2f8b6829]
  const ROW_8: seq<bv32> := [
    0x82f63b78, 0x709db87b, 0x63cd4b8f, 0x91a6c88c, 0x456cac67, 0xb7072f64, 0xa457dc90, 0x563c5f93,
    0x082f63b7, 0xfa44e0b4, 0xe9141340, 0x1b7f9043, 0xcfb5f4a8, 0x3dde77ab, 0x2e8e845f, 0xdce5075c]
  const ROW_9: seq<bv32> := [
    0x92a8fc17, 0x60c37f14, 0x73938ce0, 0x81f80fe3, 0x55326b08, 0xa759e80b, 0xb4091bff, 0x466298fc,
    0x1871a4d8, 0xea1a27db, 0xf94ad42f, 0x0b21572c, 0xdfeb33c7, 0x2d80b0c4, 0x3ed04330, 0xccbbc033]
  const ROW_A: seq<bv32> := [
    0xa24bb5a6, 0x502036a5, 0x4370c551, 0xb11b4652, 0x65d122b9, 0x97baa1ba, 0x84ea524e, 0x7681d14d,
    0x2892ed69, 0xdaf96e6a, 0xc9a99d9e, 0x3bc21e9d, 0xef087a76, 0x1d63f975, 0x0e330a81, 0xfc588982]
  const ROW_B: seq<bv32> := [
    0xb21572c9, 0x407ef1ca, 0x532e023e, 0xa145813d, 0x758fe5d6, 0x87e466d5, 0x94b49521, 0x66df1622,
    0x38cc2a06, 0xcaa7a905, 0xd9f75af1, 0x2b9cd9f2, 0xff56bd19, 0x0d3d3e1a, 0x1e6dcdee, 0xec064eed]
  const ROW_C: seq<bv32> := [
    0xc38d26c4, 0x31e6a5c7, 0x22b65633, 0xd0ddd530, 0x0417b1db, 0xf67c32d8, 0xe52cc12c, 0x1747422f,
    0x49547e0b, 0xbb3ffd08, 0xa86f0efc, 0x5a048dff, 0x8ecee914, 0x7ca56a17, 0x6ff599e3, 0x9d9e1ae0]
  const ROW_D: seq<bv32> := [
    0xd3d3e1ab, 0x21b862a8, 0x32e8915c, 0xc083125f, 0x144976b4, 0xe622f5b7, 0xf5720643, 0x07198540,
    0x590ab964, 0xab613a67, 0xb831c993, 0x4a5a4a90, 0x9e902e7b, 0x6cfbad78, 0x7fab5e8c, 0x8dc0dd8f]
  const ROW_E: seq<bv32> := [
    0xe330a81a, 0x115b2b19, 0x020bd8ed, 0xf0605bee, 0x24aa3f05, 0xd6c1bc06, 0xc5914ff2, 0x37faccf1,
    0x69e9f0d5, 0x9b8273d6, 0x88d28022, 0x7ab90321, 0xae7367ca, 0x5c18e4c9, 0x4f48173d, 0xbd23943e]
  const ROW_F: seq<bv32> := [
    0xf36e6f75, 0x0105ec76, 0x12551f82, 0xe03e9c81, 0x34f4f86a, 0xc69f7b69, 0xd5cf889d, 0x27a40b9e,
    0x79b737ba, 0x8bdcb4b9, 0x988c474d, 0x6ae7c44e, 0xbe2da0a5, 0x4c4623a6, 0x5f16d052, 0xad7d5351]

  function TableRow(row: bv8): seq<bv32> {
    match row
    case 0 => ROW_0
    case 1 => ROW_1
    case 2 => ROW_2
    case 3 => ROW_3
    case 4 => ROW_4
    case 5 => ROW_5
    case 6 => ROW_6
    case 7 => ROW_7
    case 8 => ROW_8
    case 9 => ROW_9
    case 10 => ROW_A
    case 11 => ROW_B
    case 12 => ROW_C
    case 13 => ROW_D
    case 14 => ROW_E
    case _ => ROW_F
  }

  function Lookup(index: bv8): bv32 {
    TableRow(index >> 4)[(index & 15) as int]
  }

  // ---------- the bit-at-a-time reference ----------

  function Shift(crc: bv32): bv32 {
    if crc & 1 == 1 then (crc >> 1) ^ POLYNOMIAL else crc >> 1
  }

  function Shifts(crc: bv32, n: nat): bv32
    decreases n
  {
    if n == 0 then crc else Shifts(Shift(crc), n - 1)
  }

  /** One byte: xored into the low end, then eight shifts. */
  function Feed(crc: bv32, byte: Byte): bv32 {
    Shifts(Xor(crc, byte as bv32), 8)
  }

  function Register(crc: bv32, message: seq<Byte>): bv32
    decreases |message|
  {
    if message == [] then crc else Register(Feed(crc, message[0]), message[1..])
  }

  function Crc(message: seq<Byte>): bv32 {
    !Register(ONES, message)
  }

  function Xor(a: bv32, b: bv32): bv32 {
    a ^ b
  }

  // ---------- the register is linear and injective ----------

  function Iterate<T>(f: T -> T, x: T, n: nat): T
    decreases n
  {
    if n == 0 then x else Iterate(f, f(x), n - 1)
  }

  lemma {:induction false} IterateHomomorphism<T(!new)>(f: T -> T, op: (T, T) -> T, a: T, b: T, n: nat)
    requires forall x, y :: f(op(x, y)) == op(f(x), f(y))
    ensures Iterate(f, op(a, b), n) == op(Iterate(f, a, n), Iterate(f, b, n))
    decreases n
  {
    if n > 0 {
      IterateHomomorphism(f, op, f(a), f(b), n - 1);
    }
  }

  lemma {:induction false} ShiftsIsIterate(crc: bv32, n: nat)
    ensures Shifts(crc, n) == Iterate(Shift, crc, n)
    decreases n
  {
    if n > 0 {
      ShiftsIsIterate(Shift(crc), n - 1);
    }
  }

  lemma ShiftLinearEvenEven(a: bv32, b: bv32)
    requires a & 1 == 0 && b & 1 == 0
    ensures Shift(Xor(a, b)) == Xor(Shift(a), Shift(b))
  {
  }

  lemma ShiftLinearEvenOdd(a: bv32, b: bv32)
    requires a & 1 == 0 && b & 1 == 1
    ensures Shift(Xor(a, b)) == Xor(Shift(a), Shift(b))
  {
  }

  lemma ShiftLinearOddOdd(a: bv32, b: bv32)
    requires a & 1 == 1 && b & 1 == 1
    ensures Shift(Xor(a, b)) == Xor(Shift(a), Shift(b))
  {
  }

  lemma XorCommutes(a: bv32, b: bv32)
    ensures Xor(a, b) == Xor(b, a)
  {
  }

  lemma LowBit(a: bv32)
    ensures a & 1 == 0 || a & 1 == 1
  {
  }

  lemma ShiftLinear(a: bv32, b: bv32)
    ensures Shift(Xor(a, b)) == Xor(Shift(a), Shift(b))
  {
    hide *;
    LowBit(a);
    LowBit(b);
    if a & 1 == 0 {
      if b & 1 == 0 {
        ShiftLinearEvenEven(a, b);
      } else {
        ShiftLinearEvenOdd(a, b);
      }
    } else if b & 1 == 0 {
      XorCommutes(a, b);
      XorCommutes(Shift(a), Shift(b));
      ShiftLinearEvenOdd(b, a);
    } else {
      ShiftLinearOddOdd(a, b);
    }
  }

  /** Shifting is linear over exclusive or. */
  lemma ShiftsLinear(a: bv32, b: bv32, n: nat)
    ensures Shifts(Xor(a, b), n) == Xor(Shifts(a, n), Shifts(b, n))
  {
    hide *;
    forall x, y ensures Shift(Xor(x, y)) == Xor(Shift(x), Shift(y)) {
      ShiftLinear(x, y);
    }
    IterateHomomorphism(Shift, Xor, a, b, n);
    ShiftsIsIterate(Xor(a, b), n);
    ShiftsIsIterate(a, n);
    ShiftsIsIterate(b, n);
  }

  lemma ShiftInjective(a: bv32, b: bv32)
    requires Shift(a) == Shift(b)
    ensures a == b
  {
  }

  lemma {:induction false} ShiftsInjective(a: bv32, b: bv32, n: nat)
    requires Shifts(a, n) == Shifts(b, n)
    ensures a == b
    decreases n
  {
    if n > 0 {
      hide Shift;
      ShiftsInjective(Shift(a), Shift(b), n - 1);
      ShiftInjective(a, b);
    }
  }

  // ---------- the printed table ----------

  function Row(f: bv32 -> bv32, high: bv32): seq<bv32> {
    [f(high), f(high | 1), f(high | 2), f(high | 3), f(high | 4), f(high | 5), f(high | 6), f(high | 7),
     f(high | 8), f(high | 9), f(high | 10), f(high | 11), f(high | 12), f(high | 13), f(high | 14), f(high | 15)]
  }

  lemma RowAt(f: bv32 -> bv32, high: bv32, low: bv8)
    requires low < 16
    ensures Row(f, high)[low as int] == f(high | low as bv32)
  {
    var i := low as int;
    assert 0 <= i < 16;
    assert low == i as bv8;
  }

  function ShiftRow(high: bv32): seq<bv32> {
    [Shifts(high, 8), Shifts(high | 1, 8), Shifts(high | 2, 8), Shifts(high | 3, 8),
     Shifts(high | 4, 8), Shifts(high | 5, 8), Shifts(high | 6, 8), Shifts(high | 7, 8),
     Shifts(high | 8, 8), Shifts(high | 9, 8), Shifts(high | 10, 8), Shifts(high | 11, 8),
     Shifts(high | 12, 8), Shifts(high | 13, 8), Shifts(high | 14, 8), Shifts(high | 15, 8)]
  }

  lemma ShiftRowIsRow(high: bv32)
    ensures ShiftRow(high) == Row((c: bv32) => Shifts(c, 8), high)
  {
  }

  lemma ShiftRowAt(high: bv32, index: bv8)
    requires index as bv32 & 0xf0 == high
    ensures ShiftRow(high)[(index & 15) as int] == Shifts(index as bv32, 8)
  {
    ShiftRowIsRow(high);
    RowAt((c: bv32) => Shifts(c, 8), high, index & 15);
    assert (index as bv32 & 0xf0) | (index & 15) as bv32 == index as bv32;
  }

  // Each printed row, evaluated.

  lemma Printed0()
    ensures ROW_0 == ShiftRow(0x00)
  {
  }

  lemma Printed1()
    ensures ROW_1 == ShiftRow(0x10)
  {
  }

  lemma Printed2()
    ensures ROW_2 == ShiftRow(0x20)
  {
  }

  lemma Printed3()
    ensures ROW_3 == ShiftRow(0x30)
  {
  }

  lemma Printed4()
    ensures ROW_4 == ShiftRow(0x40)
  {
  }

  lemma Printed5()
    ensures ROW_5 == ShiftRow(0x50)
  {
  }

  lemma Printed6()
    ensures ROW_6 == ShiftRow(0x60)
  {
  }

  lemma Printed7()
    ensures ROW_7 == ShiftRow(0x70)
  {
  }

  lemma Printed8()
    ensures ROW_8 == ShiftRow(0x80)
  {
  }

  lemma Printed9()
    ensures ROW_9 == ShiftRow(0x90)
  {
  }

  lemma PrintedA()
    ensures ROW_A == ShiftRow(0xa0)
  {
  }

  lemma PrintedB()
    ensures ROW_B == ShiftRow(0xb0)
  {
  }

  lemma PrintedC()
    ensures ROW_C == ShiftRow(0xc0)
  {
  }

  lemma PrintedD()
    ensures ROW_D == ShiftRow(0xd0)
  {
  }

  lemma PrintedE()
    ensures ROW_E == ShiftRow(0xe0)
  {
  }

  lemma PrintedF()
    ensures ROW_F == ShiftRow(0xf0)
  {
  }

  lemma Row0(index: bv8)
    requires index >> 4 == 0
    ensures ROW_0[(index & 15) as int] == Shifts(index as bv32, 8)
  {
    hide ShiftRow, Shifts;
    Printed0();
    ShiftRowAt(0x00, index);
  }

  lemma Row1(index: bv8)
    requires index >> 4 == 1
    ensures ROW_1[(index & 15) as int] == Shifts(index as bv32, 8)
  {
    hide ShiftRow, Shifts;
    Printed1();
    ShiftRowAt(0x10, index);
  }

  lemma Row2(index: bv8)
    requires index >> 4 == 2
    ensures ROW_2[(index & 15) as int] == Shifts(index as bv32, 8)
  {
    hide ShiftRow, Shifts;
    Printed2();
    ShiftRowAt(0x20, index);
  }

  lemma Row3(index: bv8)
    requires index >> 4 == 3
    ensures ROW_3[(index & 15) as int] == Shifts(index as bv32, 8)
  {
    hide ShiftRow, Shifts;
    Printed3();
    ShiftRowAt(0x30, index);
  }

  lemma Row4(index: bv8)
    requires index >> 4 == 4
    ensures ROW_4[(index & 15) as int] == Shifts(index as bv32, 8)
  {
    hide ShiftRow, Shifts;
    Printed4();
    ShiftRowAt(0x40, index);
  }

  lemma Row5(index: bv8)
    requires index >> 4 == 5
    ensures ROW_5[(index & 15) as int] == Shifts(index as bv32, 8)
  {
    hide ShiftRow, Shifts;
    Printed5();
    ShiftRowAt(0x50, index);
  }

  lemma Row6(index: bv8)
    requires index >> 4 == 6
    ensures ROW_6[(index & 15) as int] == Shifts(index as bv32, 8)
  {
    hide ShiftRow, Shifts;
    Printed6();
    ShiftRowAt(0x60, index);
  }

  lemma Row7(index: bv8)
    requires index >> 4 == 7
    ensures ROW_7[(index & 15) as int] == Shifts(index as bv32, 8)
  {
    hide ShiftRow, Shifts;
    Printed7();
    ShiftRowAt(0x70, index);
  }

  lemma Row8(index: bv8)
    requires index >> 4 == 8
    ensures ROW_8[(index & 15) as int] == Shifts(index as bv32, 8)
  {
    hide ShiftRow, Shifts;
    Printed8();
    ShiftRowAt(0x80, index);
  }

  lemma Row9(index: bv8)
    requires index >> 4 == 9
    ensures ROW_9[(index & 15) as int] == Shifts(index as bv32, 8)
  {
    hide ShiftRow, Shifts;
    Printed9();
    ShiftRowAt(0x90, index);
  }

  lemma RowA(index: bv8)
    requires index >> 4 == 10
    ensures ROW_A[(index & 15) as int] == Shifts(index as bv32, 8)
  {
    hide ShiftRow, Shifts;
    PrintedA();
    ShiftRowAt(0xa0, index);
  }

  lemma RowB(index: bv8)
    requires index >> 4 == 11
    ensures ROW_B[(index & 15) as int] == Shifts(index as bv32, 8)
  {
    hide ShiftRow, Shifts;
    PrintedB();
    ShiftRowAt(0xb0, index);
  }

  lemma RowC(index: bv8)
    requires index >> 4 == 12
    ensures ROW_C[(index & 15) as int] == Shifts(index as bv32, 8)
  {
    hide ShiftRow, Shifts;
    PrintedC();
    ShiftRowAt(0xc0, index);
  }

  lemma RowD(index: bv8)
    requires index >> 4 == 13
    ensures ROW_D[(index & 15) as int] == Shifts(index as bv32, 8)
  {
    hide ShiftRow, Shifts;
    PrintedD();
    ShiftRowAt(0xd0, index);
  }

  lemma RowE(index: bv8)
    requires index >> 4 == 14
    ensures ROW_E[(index & 15) as int] == Shifts(index as bv32, 8)
  {
    hide ShiftRow, Shifts;
    PrintedE();
    ShiftRowAt(0xe0, index);
  }

  lemma RowF(index: bv8)
    requires index >> 4 == 15
    ensures ROW_F[(index & 15) as int] == Shifts(index as bv32, 8)
  {
    hide ShiftRow, Shifts;
    PrintedF();
    ShiftRowAt(0xf0, index);
  }

  /** Every printed entry is eight shifts of its index. */
  lemma TableIsShifts(index: bv8)
    ensures Lookup(index) == Shifts(index as bv32, 8)
  {
    match index >> 4
    case 0 => Row0(index);
    case 1 => Row1(index);
    case 2 => Row2(index);
    case 3 => Row3(index);
    case 4 => Row4(index);
    case 5 => Row5(index);
    case 6 => Row6(index);
    case 7 => Row7(index);
    case 8 => Row8(index);
    case 9 => Row9(index);
    case 10 => RowA(index);
    case 11 => RowB(index);
    case 12 => RowC(index);
    case 13 => RowD(index);
    case 14 => RowE(index);
    case _ => RowF(index);
  }

  // ---------- a table step is eight shifts ----------

  lemma Halve(crc: bv32, half: bv32, n: nat)
    requires crc & 1 == 0 && half == crc >> 1 && n > 0
    ensures Shifts(crc, n) == Shifts(half, n - 1)
  {
  }

  // The facts about bits alone sit in lemmas of their own, on named words:
  // the solver is slow when they meet the recursive register.
  lemma LowZeros(c0: bv32, c1: bv32, c2: bv32, c3: bv32, c4: bv32, c5: bv32, c6: bv32, c7: bv32, c8: bv32)
    requires c0 & 0xff == 0
    requires c1 == c0 >> 1 && c2 == c1 >> 1 && c3 == c2 >> 1 && c4 == c3 >> 1
    requires c5 == c4 >> 1 && c6 == c5 >> 1 && c7 == c6 >> 1 && c8 == c7 >> 1
    ensures c0 & 1 == 0 && c1 & 1 == 0 && c2 & 1 == 0 && c3 & 1 == 0
    ensures c4 & 1 == 0 && c5 & 1 == 0 && c6 & 1 == 0 && c7 & 1 == 0
    ensures c8 == c0 >> 8
  {
  }

  lemma NoShifts(crc: bv32)
    ensures Shifts(crc, 0) == crc
  {
  }

  lemma ShiftsOfLowZeros(crc: bv32)
    requires crc & 0xff == 0
    ensures Shifts(crc, 8) == crc >> 8
  {
    hide *;
    var c1 := crc >> 1;
    var c2 := c1 >> 1;
    var c3 := c2 >> 1;
    var c4 := c3 >> 1;
    var c5 := c4 >> 1;
    var c6 := c5 >> 1;
    var c7 := c6 >> 1;
    var c8 := c7 >> 1;
    LowZeros(crc, c1, c2, c3, c4, c5, c6, c7, c8);
    Halve(crc, c1, 8); Halve(c1, c2, 7); Halve(c2, c3, 6); Halve(c3, c4, 5);
    Halve(c4, c5, 4); Halve(c5, c6, 3); Halve(c6, c7, 2); Halve(c7, c8, 1);
    NoShifts(c8);
  }

  lemma HighAndLow(crc: bv32, high: bv32, low: bv32)
    requires high == crc & 0xffffff00 && low == crc & 0xff
    ensures Xor(high, low) == crc
    ensures high & 0xff == 0
    ensures high >> 8 == crc >> 8
    ensures low < 256
  {
  }

  lemma NarrowAndWiden(low: bv32, index: bv8)
    requires low < 256 && index == low as bv8
    ensures index as bv32 == low
  {
  }

  lemma SplitShifts(crc: bv32, index: bv8, high: bv32, low: bv32)
    requires high == crc & 0xffffff00 && low == crc & 0xff && index == low as bv8
    ensures Shifts(crc, 8) == Xor(high >> 8, Lookup(index))
  {
    hide *;
    HighAndLow(crc, high, low);
    NarrowAndWiden(low, index);
    ShiftsLinear(high, low, 8);
    ShiftsOfLowZeros(high);
    TableIsShifts(index);
  }

  lemma TopBytes(crc: bv32, byte: Byte, x: bv32, high: bv32)
    requires x == Xor(crc, byte as bv32) && high == x & 0xffffff00
    ensures high >> 8 == crc >> 8
  {
  }

  /** One pass of the loop body is one byte fed to the reference register. */
  lemma TableStep(crc: bv32, byte: Byte, low: bv32)
    requires low == (crc ^ byte as bv32) & 0xff && low < 256
    ensures Xor(crc >> 8, Lookup(low as bv8)) == Feed(crc, byte)
  {
    hide *;
    XorIs(crc, byte as bv32);
    var x := Xor(crc, byte as bv32);
    SplitStep(crc, byte, x, x & 0xffffff00, low, low as bv8);
  }

  lemma SplitStep(crc: bv32, byte: Byte, x: bv32, high: bv32, low: bv32, index: bv8)
    requires x == Xor(crc, byte as bv32) && high == x & 0xffffff00 && low == x & 0xff && low < 256 && index == low as bv8
    ensures Xor(crc >> 8, Lookup(index)) == Feed(crc, byte)
  {
    hide *;
    FeedIs(crc, byte, x);
    TopBytes(crc, byte, x, high);
    SplitShifts(x, index, high, low);
  }

  lemma XorIs(a: bv32, b: bv32)
    ensures Xor(a, b) == a ^ b
  {
  }

  lemma FeedIs(crc: bv32, byte: Byte, x: bv32)
    requires x == Xor(crc, byte as bv32)
    ensures Feed(crc, byte) == Shifts(x, 8)
  {
    hide Shifts, Xor;
  }

  lemma {:induction false} RegisterAppend(crc: bv32, message: seq<Byte>, byte: Byte)
    ensures Register(crc, message + [byte]) == Feed(Register(crc, message), byte)
    decreases |message|
  {
    hide Feed;
    if message == [] {
      assert [byte][1..] == [];
    } else {
      assert (message + [byte])[1..] == message[1..] + [byte];
      RegisterAppend(Feed(crc, message[0]), message[1..], byte);
    }
  }

  lemma RegisterPrefix(str: seq<Byte>, n: nat)
    requires n < |str|
    ensures Register(ONES, str[..n + 1]) == Feed(Register(ONES, str[..n]), str[n])
  {
    hide *;
    assert str[..n + 1] == str[..n] + [str[n]];
    RegisterAppend(ONES, str[..n], str[n]);
  }

  lemma LowByte(x: bv32)
    ensures x & 0xff < 256
  {
  }

  /** The table-driven loop computes the bit-at-a-time CRC of the string. */
  method HashCrc32c(str: seq<Byte>) returns (hash: bv32)
    requires Terminated(str)
    ensures hash == Crc(Text(str))
  {
    hide Shifts, Lookup, Feed, Register;
    var crc := ONES;
    var ptr := 0;
    var val := str[ptr];
    ptr := ptr + 1;
    EmptyRegister(str);
    while val != 0
      invariant 1 <= ptr <= Length(str) + 1
      invariant val == str[ptr - 1]
      invariant crc == Register(ONES, str[..ptr - 1])
      decreases |str| - ptr
    {
      var low := (crc ^ val as bv32) & 0xff;
      LowByte(crc ^ val as bv32);
      TableStep(crc, val, low);
      RegisterPrefix(str, ptr - 1);
      crc := (crc >> 8) ^ Lookup(low as bv8);
      val := str[ptr];
      ptr := ptr + 1;
    }
    LengthIsUnique(str, ptr - 1);
    hash := !crc;
  }

  lemma EmptyRegister(str: seq<Byte>)
    ensures Register(ONES, str[..0]) == ONES
  {
  }

  /** The usual check value, of the string "123456789", and the CRC of nothing. */
  lemma CheckValue()
    ensures Crc([0x31, 0x32, 0x33, 0x34, 0x35, 0x36, 0x37, 0x38, 0x39]) == 0xe3069283
    ensures Crc([]) == 0
  {
    hide Feed, Register;
    FeedOne(0xffffffff, 0x31, 0x6f0a661c);
    FeedOne(0x6f0a661c, 0x32, 0x8caa3b9f);
    FeedOne(0x8caa3b9f, 0x33, 0xef84d04d);
    FeedOne(0xef84d04d, 0x34, 0x09c50b11);
    FeedOne(0x09c50b11, 0x35, 0xe72edcca);
    FeedOne(0xe72edcca, 0x36, 0xbeca8e79);
    FeedOne(0xbeca8e79, 0x37, 0xedbd6815);
    FeedOne(0xedbd6815, 0x38, 0x9f787f65);
    FeedOne(0x9f787f65, 0x39, 0x1cf96d7c);
    EmptyRegister([]);
    var m: seq<Byte> := [0x31, 0x32, 0x33, 0x34, 0x35, 0x36, 0x37, 0x38, 0x39];
    assert m[..0] == [] && m[..9] == m;
    RegisterPrefix(m, 0);
    RegisterPrefix(m, 1);
    RegisterPrefix(m, 2);
    RegisterPrefix(m, 3);
    RegisterPrefix(m, 4);
    RegisterPrefix(m, 5);
    RegisterPrefix(m, 6);
    RegisterPrefix(m, 7);
    RegisterPrefix(m, 8);
  }

  lemma FeedOne(crc: bv32, byte: Byte, next: bv32)
    requires next == Shifts(crc ^ byte as bv32, 8)
    ensures Feed(crc, byte) == next
  {
    hide Shifts;
  }

  // ---------- every burst of up to 32 bits is detected ----------

  /** The difference d of two registers fits in the low n bytes. */
  predicate Fits(d: bv32, n: nat) {
    match n
    case 0 => d == 0
    case 1 => d & 0xff == d
    case 2 => d & 0xffff == d
    case 3 => d & 0xffffff == d
    case _ => true
  }

  lemma Grow1(dx: bv32, after: bv32, before: bv32)
    requires dx & 0xff == dx && after == 0 && before == dx ^ (after << 8)
    ensures before & 0xff == before
  {
  }

  lemma Grow2(dx: bv32, after: bv32, before: bv32)
    requires dx & 0xff == dx && after & 0xff == after && before == dx ^ (after << 8)
    ensures before & 0xffff == before
  {
  }

  lemma Grow3(dx: bv32, after: bv32, before: bv32)
    requires dx & 0xff == dx && after & 0xffff == after && before == dx ^ (after << 8)
    ensures before & 0xffffff == before
  {
  }

  lemma FitsGrows(n: nat, dx: bv32, after: bv32, before: bv32)
    requires dx & 0xff == dx && Fits(after, n) && before == dx ^ (after << 8)
    ensures Fits(before, n + 1)
  {
    match n
    case 0 => Grow1(dx, after, before);
    case 1 => Grow2(dx, after, before);
    case 2 => Grow3(dx, after, before);
    case _ =>
  }

  lemma Below1(d: bv32)
    requires d & 0xff == d
    ensures d & 0xffffff == d
  {
  }

  lemma Below2(d: bv32)
    requires d & 0xffff == d
    ensures d & 0xffffff == d
  {
  }

  lemma FitsBelow4(d: bv32, n: nat)
    requires n < 4 && Fits(d, n)
    ensures d & 0xffffff == d
  {
    match n
    case 0 => assert d & 0xffffff == 0;
    case 1 => Below1(d);
    case 2 => Below2(d);
    case 3 =>
  }

  lemma ZeroBefore(dx: bv32, after: bv32, before: bv32)
    requires dx & 0xff == dx && after & 0xffffff == after && before == dx ^ (after << 8)
    requires before == 0
    ensures dx == 0
    ensures after == 0
  {
  }

  lemma MovedUp(after: bv32, moved: bv32)
    requires after & 0xffffff == after && moved == after << 8
    ensures moved & 0xff == 0
    ensures moved >> 8 == after
  {
  }

  lemma XorAssociates(a: bv32, b: bv32, c: bv32)
    ensures Xor(Xor(a, b), c) == Xor(a, Xor(b, c))
  {
  }

  lemma XorExchanges(a: bv32, x: bv32, b: bv32, y: bv32)
    ensures Xor(Xor(a, x), Xor(b, y)) == Xor(Xor(a, b), Xor(x, y))
  {
    hide *;
    XorAssociates(a, x, Xor(b, y));
    XorAssociates(x, b, y);
    XorCommutes(x, b);
    XorAssociates(b, x, y);
    XorAssociates(a, b, Xor(x, y));
  }

  lemma MoveAcross(d: bv32, dx: bv32, moved: bv32)
    requires Xor(d, dx) == moved
    ensures d == dx ^ moved
  {
  }

  lemma ByteDifference(x: Byte, y: Byte, dx: bv32)
    requires dx == Xor(x as bv32, y as bv32)
    ensures dx & 0xff == dx
    ensures dx == 0 ==> x == y
  {
  }

  lemma NoDifference(a: bv32)
    ensures Xor(a, a) == 0
  {
  }

  lemma FeedsMeet(p: bv32, q: bv32, after: bv32, moved: bv32)
    requires after == Xor(Shifts(p, 8), Shifts(q, 8)) && after & 0xffffff == after && moved == after << 8
    ensures Xor(p, q) == moved
  {
    hide *;
    ShiftsLinear(p, q, 8);
    MovedUp(after, moved);
    ShiftsOfLowZeros(moved);
    ShiftsInjective(Xor(p, q), moved, 8);
  }

  /** A difference that fits in three bytes pins the difference one byte earlier. */
  lemma FeedBackward(a: bv32, x: Byte, b: bv32, y: Byte, after: bv32, dx: bv32, d: bv32, moved: bv32)
    requires after == Xor(Feed(a, x), Feed(b, y)) && after & 0xffffff == after
    requires dx == Xor(x as bv32, y as bv32) && d == Xor(a, b) && moved == after << 8
    ensures d == dx ^ moved
  {
    hide Shifts, Xor;
    FeedsMeet(Xor(a, x as bv32), Xor(b, y as bv32), after, moved);
    XorExchanges(a, x as bv32, b, y as bv32);
    MoveAcross(d, dx, moved);
  }

  lemma MeetOneByteBack(a: bv32, x: Byte, b: bv32, y: Byte, n: nat, after: bv32, d: bv32)
    requires n < 4 && after == Xor(Feed(a, x), Feed(b, y)) && d == Xor(a, b) && Fits(after, n)
    ensures Fits(d, n + 1)
    ensures d == 0 ==> x == y && after == 0
  {
    hide *;
    var dx := Xor(x as bv32, y as bv32);
    FitsBelow4(after, n);
    ByteDifference(x, y, dx);
    FeedBackward(a, x, b, y, after, dx, d, after << 8);
    FitsGrows(n, dx, after, d);
    if d == 0 {
      ZeroBefore(dx, after, d);
    }
  }

  /** Registers that meet after n <= 4 bytes differed in the low n bytes only, and not at all if the bytes agree. */
  lemma {:induction false} MeetBackward(a: bv32, xs: seq<Byte>, b: bv32, ys: seq<Byte>)
    requires |xs| == |ys| <= 4
    requires Register(a, xs) == Register(b, ys)
    ensures Fits(Xor(a, b), |xs|)
    ensures Xor(a, b) == 0 ==> xs == ys
    decreases |xs|
  {
    hide Feed, Xor, Fits;
    if xs == [] {
      NoDifference(a);
      NothingFits(Xor(a, b));
    } else {
      var a', b' := Feed(a, xs[0]), Feed(b, ys[0]);
      MeetBackward(a', xs[1..], b', ys[1..]);
      MeetOneByteBack(a, xs[0], b, ys[0], |xs| - 1, Xor(a', b'), Xor(a, b));
      assert xs == [xs[0]] + xs[1..];
      assert ys == [ys[0]] + ys[1..];
    }
  }

  lemma NothingFits(d: bv32)
    requires d == 0
    ensures Fits(d, 0)
  {
  }

  lemma {:induction false} RegisterConcat(crc: bv32, a: seq<Byte>, b: seq<Byte>)
    ensures Register(crc, a + b) == Register(Register(crc, a), b)
    decreases |a|
  {
    hide Feed;
    if a == [] {
      assert a + b == b;
    } else {
      assert (a + b)[1..] == a[1..] + b;
      RegisterConcat(Feed(crc, a[0]), a[1..], b);
    }
  }

  lemma FeedInjective(a: bv32, b: bv32, byte: Byte)
    requires Feed(a, byte) == Feed(b, byte)
    ensures a == b
  {
    hide Shifts, Xor;
    ShiftsInjective(Xor(a, byte as bv32), Xor(b, byte as bv32), 8);
    XorInjective(a, b, byte as bv32);
  }

  lemma XorInjective(a: bv32, b: bv32, c: bv32)
    requires Xor(a, c) == Xor(b, c)
    ensures a == b
  {
  }

  lemma {:induction false} RegisterInjective(a: bv32, b: bv32, message: seq<Byte>)
    requires Register(a, message) == Register(b, message)
    ensures a == b
    decreases |message|
  {
    if message != [] {
      hide Feed;
      RegisterInjective(Feed(a, message[0]), Feed(b, message[0]), message[1..]);
      FeedInjective(a, b, message[0]);
    }
  }

  lemma CrcDeterminesRegister(m: seq<Byte>, n: seq<Byte>)
    requires Crc(m) == Crc(n)
    ensures Register(ONES, m) == Register(ONES, n)
  {
    hide Register;
  }

  /** Strings that differ only inside four consecutive bytes never share a CRC. */
  lemma DetectsBurst(before: seq<Byte>, x: seq<Byte>, y: seq<Byte>, after: seq<Byte>)
    requires |x| == |y| <= 4 && x != y
    ensures Crc(before + x + after) != Crc(before + y + after)
  {
    hide *;
    if Crc(before + x + after) == Crc(before + y + after) {
      CrcDeterminesRegister(before + x + after, before + y + after);
      var start := Register(ONES, before);
      RegisterConcat(ONES, before, x);
      RegisterConcat(ONES, before, y);
      RegisterConcat(ONES, before + x, after);
      RegisterConcat(ONES, before + y, after);
      RegisterInjective(Register(start, x), Register(start, y), after);
      MeetBackward(start, x, start, y);
      NoDifference(start);
    }
  }
}
