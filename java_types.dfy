/** Java's fixed-width integer types and the narrowing casts the bitmap code relies on. */
module JavaTypes {

  const TWO_8: int := 0x100
  const TWO_16: int := 0x1_0000
  const TWO_32: int := 0x1_0000_0000

  /** Java `byte`: signed, two's complement. */
  type Byte = x: int | -0x80 <= x < 0x80
  /** Java `short`. */
  type JShort = x: int | -0x8000 <= x < 0x8000
  /** Java `int`. */
  type JInt = x: int | -0x8000_0000 <= x < 0x8000_0000
  /** Java `char`: an unsigned 16-bit code unit. */
  type JChar = x: int | 0 <= x < 0x1_0000

  /** The unsigned reading 0..255 of a byte: the `if (b < 0) b += 256` correction. */
  function Unsigned(b: Byte): (u: int)
    ensures 0 <= u < TWO_8
    ensures (u - b) % TWO_8 == 0
  {
    if b < 0 then b + TWO_8 else b
  }

  /** Java's `(byte) x`: keeps the low 8 bits of any int, as a signed value. */
  function ToByte(x: int): (b: Byte)
    ensures (b - x) % TWO_8 == 0
  {
    (x + 0x80) % TWO_8 - 0x80
  }

  /** Java's `(short) x`. */
  function ToShort(x: int): (s: JShort)
    ensures (s - x) % TWO_16 == 0
  {
    (x + 0x8000) % TWO_16 - 0x8000
  }

  /** Java's `(char) x`. */
  function ToChar(x: int): (c: JChar)
    ensures (c - x) % TWO_16 == 0
  {
    x % TWO_16
  }

  /** Java's int arithmetic: the 32-bit two's complement wrap of an exact value. */
  function ToInt(x: int): (i: JInt)
    ensures (i - x) % TWO_32 == 0
  {
    (x + 0x8000_0000) % TWO_32 - 0x8000_0000
  }

  /** Two values congruent modulo m whose difference is below m are equal. */
  lemma CongruentEqual(a: int, b: int, m: int)
    requires 0 < m && -m < a - b < m && (a - b) % m == 0
    ensures a == b
  {
    if a - b > 0 {
      DivModUnique(a - b, m, 0, a - b);
    } else if a - b < 0 {
      DivModUnique(b - a, m, 0, b - a);
      assert (b - a) % m == 0 by { ModNegate(a - b, m); }
    }
  }

  lemma ModNegate(x: int, m: int)
    requires 0 < m && x % m == 0
    ensures (-x) % m == 0
  {
    var q := x / m;
    assert x == q * m;
    DivModUnique(-x, m, -q, 0);
  }

  /** Euclidean division is determined by its quotient and remainder. */
  lemma DivModUnique(n: int, d: int, q: int, r: int)
    requires 0 < d && 0 <= r < d && n == q * d + r
    ensures n / d == q && n % d == r
  {
    var q0, r0 := n / d, n % d;
    assert (q - q0) * d == r0 - r;
    if q > q0 {
      MulAtLeast(q - q0, d);
    } else if q < q0 {
      MulAtLeast(q0 - q, d);
    }
  }

  lemma MulAtLeast(a: int, d: int)
    requires 1 <= a && 0 < d
    ensures a * d >= d
  {
  }

  /** A signed byte survives widening to its unsigned reading and narrowing back. */
  lemma ToByteUnsigned(b: Byte)
    ensures ToByte(Unsigned(b)) == b
  {
    CongruentEqual(ToByte(Unsigned(b)), b, TWO_8);
  }

  /** Narrowing then widening a value in 0..255 gives it back. */
  lemma UnsignedToByte(u: int)
    requires 0 <= u < TWO_8
    ensures Unsigned(ToByte(u)) == u
  {
    CongruentEqual(Unsigned(ToByte(u)), u, TWO_8);
  }

  /** `(byte)` is the identity on values that already are bytes. */
  lemma ToByteOfByte(b: Byte)
    ensures ToByte(b) == b
  {
    CongruentEqual(ToByte(b), b, TWO_8);
  }

  /** `(int)` is the identity on values that already are ints. */
  lemma ToIntOfInt(i: JInt)
    ensures ToInt(i) == i
  {
    CongruentEqual(ToInt(i), i, TWO_32);
  }

  /** `(short)` is the identity on values that already are shorts. */
  lemma ToShortOfShort(s: JShort)
    ensures ToShort(s) == s
  {
    CongruentEqual(ToShort(s), s, TWO_16);
  }

  /** `(byte)` depends only on the value modulo 256. */
  lemma ToByteMod(x: int, y: int)
    requires (x - y) % TWO_8 == 0
    ensures ToByte(x) == ToByte(y)
  {
    var d := (x - y) / TWO_8;
    DivModUnique(x - y, TWO_8, d, 0);
    assert ToByte(x) - ToByte(y) == (ToByte(x) - x) - (ToByte(y) - y) + d * TWO_8;
    ModDiffMultiple(ToByte(x) - x, ToByte(y) - y, d, TWO_8);
    CongruentEqual(ToByte(x), ToByte(y), TWO_8);
  }

  lemma ModDiffMultiple(a: int, b: int, d: int, m: int)
    requires 0 < m && a % m == 0 && b % m == 0
    ensures (a - b + d * m) % m == 0
  {
    var qa, qb := a / m, b / m;
    assert a == qa * m && b == qb * m;
    assert a - b + d * m == (qa - qb + d) * m;
    DivModUnique(a - b + d * m, m, qa - qb + d, 0);
  }
}
