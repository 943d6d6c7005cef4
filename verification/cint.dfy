/** The C integer semantics the driver relies on, on the 32-bit big-endian
    PowerPC the LinkStation runs: bytes, 32-bit unsigned wrap-around, signed
    32-bit `int` arithmetic, truncating division and the `slw`-style shift
    that `1 << s` compiles to. */
module CInt {

  type Byte = b: int | 0 <= b < 0x100

  const TWO32: int := 0x1_0000_0000

  type U32 = x: int | 0 <= x < TWO32

  /** 2 to the power k. */
  function Pow2(k: nat): (r: nat)
    ensures r >= 1
  {
    if k == 0 then 1 else 2 * Pow2(k - 1)
  }

  lemma {:induction false} Pow2Add(a: nat, b: nat)
    ensures Pow2(a) * Pow2(b) == Pow2(a + b)
  {
    if a > 0 {
      Pow2Add(a - 1, b);
      MulTwo(Pow2(a - 1), Pow2(b));
    }
  }

  lemma MulTwo(p: int, q: int)
    ensures (2 * p) * q == 2 * (p * q)
  {
  }

  lemma {:induction false} Pow2Monotone(a: nat, b: nat)
    requires a <= b
    ensures Pow2(a) <= Pow2(b)
  {
    if a < b {
      Pow2Monotone(a, b - 1);
    }
  }

  /** Reduction of an integer to an `unsigned long` (32 bits). */
  function Wrap32(x: int): U32
  {
    x % TWO32
  }

  /** A value already in range is unchanged by the reduction. */
  lemma Wrap32Id(x: int)
    requires 0 <= x < TWO32
    ensures Wrap32(x) == x
  {
    DivModUnique(x, TWO32, 0, x);
  }

  /** Reinterpretation of the low 32 bits of x as a signed `int`. */
  function Signed32(x: int): (r: int)
    ensures -0x8000_0000 <= r < 0x8000_0000
    ensures Wrap32(r) == Wrap32(x)
  {
    var u := Wrap32(x);
    if u < 0x8000_0000 then u else u - TWO32
  }

  /** The `int` value of `1 << s`: the PowerPC shift takes the amount modulo
      64 and yields 0 for amounts 32..63. */
  function Shl1(s: nat): int
  {
    var k := s % 64;
    if k < 32 then Signed32(Pow2(k)) else 0
  }

  /** C division of an `int` by a positive constant: rounds toward zero. */
  function CDiv(a: int, b: int): int
    requires b > 0
  {
    if a >= 0 then a / b else -((-a) / b)
  }

  /** `x & ~(m - 1)` for a power of two m: clears the bits below m. */
  function AlignDown(x: nat, m: nat): (r: nat)
    requires m >= 1
    ensures r <= x < r + m
    ensures r % m == 0
  {
    DivModUnique(x - x % m, m, x / m, 0);
    x - x % m
  }

  /** AlignDown gives the largest multiple of m not above x. */
  lemma AlignDownMax(x: nat, m: nat, a: nat)
    requires m >= 1 && a % m == 0 && a <= x
    ensures a <= AlignDown(x, m)
  {
    var r := AlignDown(x, m);
    var qa, qr := a / m, r / m;
    assert a == qa * m && r == qr * m;
    if qa > qr {
      MulAtLeast(qa - qr, m);
      MulSub(qa, qr, m);
    } else {
      MulMonotone(qa, qr, m);
    }
  }

  lemma MulSub(x: int, y: int, m: int)
    ensures (x - y) * m == x * m - y * m
  {
  }

  lemma MulMonotone(x: int, y: int, m: int)
    requires x <= y && m >= 0
    ensures x * m <= y * m
  {
    MulSub(y, x, m);
  }

  lemma MulAtLeast(d: int, m: int)
    requires d >= 1 && m >= 1
    ensures d * m >= m
  {
  }

  /** Quotient and remainder are determined by x == q * m + r, 0 <= r < m. */
  lemma DivModUnique(x: int, m: int, q: int, r: int)
    requires m >= 1 && 0 <= r < m && x == q * m + r
    ensures x / m == q && x % m == r
  {
    var q', r' := x / m, x % m;
    assert q' * m + r' == q * m + r;
    if q > q' {
      MulAtLeast(q - q', m);
      assert false;
    } else if q < q' {
      MulAtLeast(q' - q, m);
      assert false;
    }
  }

  /** Bit 7 (DQ7) and bit 5 (DQ5) of a byte. */
  predicate Bit7(x: nat)
  {
    (x / 0x80) % 2 == 1
  }

  predicate Bit5(x: nat)
  {
    (x / 0x20) % 2 == 1
  }

  /** Bitwise and of two naturals. */
  function BitAnd(a: nat, b: nat): nat
    decreases a
  {
    if a == 0 || b == 0 then 0
    else 2 * BitAnd(a / 2, b / 2) + (if a % 2 == 1 && b % 2 == 1 then 1 else 0)
  }

  /** Little-endian assembly of two and four bytes (the CFI wire format). */
  function Le16(b0: Byte, b1: Byte): (r: nat)
    ensures r < 0x1_0000
  {
    b0 + 0x100 * b1
  }

  function Le32(b0: Byte, b1: Byte, b2: Byte, b3: Byte): (r: nat)
    ensures r < TWO32
  {
    b0 + 0x100 * b1 + 0x1_0000 * b2 + 0x100_0000 * b3
  }

  /** Big-endian assembly of four bytes (a `long` read on PowerPC). */
  function Be32(b0: Byte, b1: Byte, b2: Byte, b3: Byte): (r: nat)
    ensures r < TWO32
  {
    0x100_0000 * b0 + 0x1_0000 * b1 + 0x100 * b2 + b3
  }

  /** Big-endian assembly of two bytes (an `unsigned short`). */
  function Be16(b0: Byte, b1: Byte): (r: nat)
    ensures r < 0x1_0000
  {
    0x100 * b0 + b1
  }

  /** The big-endian 32-bit and 16-bit fields at byte i of s. */
  function Be32At(s: seq<Byte>, i: nat): (r: nat)
    requires i + 4 <= |s|
    ensures r < TWO32
  {
    Be32(s[i], s[i + 1], s[i + 2], s[i + 3])
  }

  function Be16At(s: seq<Byte>, i: nat): (r: nat)
    requires i + 2 <= |s|
    ensures r < 0x1_0000
  {
    Be16(s[i], s[i + 1])
  }

  /** The four big-endian bytes of a 32-bit value. */
  function BeBytes(x: U32): (r: seq<Byte>)
    ensures |r| == 4 && Be32(r[0], r[1], r[2], r[3]) == x
  {
    var b0, m0 := x / 0x100_0000, x % 0x100_0000;
    var b1, m1 := m0 / 0x1_0000, m0 % 0x1_0000;
    var b2, b3 := m1 / 0x100, m1 % 0x100;
    [b0, b1, b2, b3]
  }

  /** The two big-endian bytes of a 16-bit value. */
  function BeBytes16(x: nat): (r: seq<Byte>)
    requires x < 0x1_0000
    ensures |r| == 2 && Be16(r[0], r[1]) == x
  {
    [x / 0x100, x % 0x100]
  }

  /** Four bytes are determined by their big-endian value. */
  lemma Be32Injective(a: seq<Byte>)
    requires |a| == 4
    ensures BeBytes(Be32(a[0], a[1], a[2], a[3])) == a
  {
    var x := Be32(a[0], a[1], a[2], a[3]);
    var b0, b1, b2, b3: int := a[0], a[1], a[2], a[3];
    DivModUnique(x, 0x100_0000, b0, 0x1_0000 * b1 + 0x100 * b2 + b3);
    DivModUnique(x % 0x100_0000, 0x1_0000, b1, 0x100 * b2 + b3);
    DivModUnique(x % 0x100_0000 % 0x1_0000, 0x100, b2, b3);
  }

  lemma Be16Injective(a: seq<Byte>)
    requires |a| == 2
    ensures BeBytes16(Be16(a[0], a[1])) == a
  {
    var b0, b1: int := a[0], a[1];
    DivModUnique(Be16(a[0], a[1]), 0x100, b0, b1);
  }

  datatype Option<+T> = None | Some(value: T)

  datatype Result<+T, +E> = Ok(value: T) | Err(error: E)
}
