/** The little-endian number conversions of Bitmap.java (bytesToNumber, numberToBytes). */
module NumberCodec {
  import opened JavaTypes

  /** 256^k, the weight of byte k of a little-endian number. */
  function Pow256(k: nat): (p: nat)
    ensures p >= 1
  {
    if k == 0 then 1 else TWO_8 * Pow256(k - 1)
  }

  /** The value of a little-endian byte string, every byte read unsigned. */
  function LittleEndian(s: seq<Byte>): (n: nat)
    ensures n < Pow256(|s|)
  {
    if s == [] then 0
    else
      var k := |s| - 1;
      var low := LittleEndian(s[..k]);
      var top := Unsigned(s[k]);
      assert top * Pow256(k) <= (TWO_8 - 1) * Pow256(k) by {
        MulLeft(top, TWO_8 - 1, Pow256(k));
      }
      low + top * Pow256(k)
  }

  /** The k least significant base-256 digits of u, least significant first, each narrowed to a byte. */
  function LeBytes(u: nat, k: nat): (s: seq<Byte>)
    ensures |s| == k
  {
    seq(k, i requires 0 <= i < k => ToByte(Digit(u, i)))
  }

  /** Digit i of u in base 256: `(u >>> 8*i) & 0xFF`. */
  function Digit(u: nat, i: nat): (d: int)
    ensures 0 <= d < TWO_8
  {
    (u / Pow256(i)) % TWO_8
  }

  /** The bytes numberToBytes(number, size) produces: digits of the 32-bit pattern of number. */
  function NumberBytes(number: int, size: nat): (s: seq<Byte>)
    ensures |s| == size
  {
    LeBytes(number % TWO_32, size)
  }

  /**
   * bytesToNumber: sums each byte, widened to 0..255, shifted by 8*i, in Java int arithmetic.
   * The source only calls it with 1, 2 or 4 bytes.
   */
  method BytesToNumber(data: seq<Byte>) returns (sum: JInt)
    requires |data| <= 4
    ensures sum == ToInt(LittleEndian(data))
  {
    sum := 0;
    var i := 0;
    while i < |data|
      invariant 0 <= i <= |data|
      invariant sum == ToInt(LittleEndian(data[..i]))
    {
      var temp2: int := data[i];
      if temp2 < 0 {
        temp2 := temp2 + TWO_8;
      }
      ghost var before := sum;
      sum := ToInt(sum + ToInt(temp2 * Pow256(i)));
      assert data[..i + 1][..i] == data[..i];
      ghost var exact := LittleEndian(data[..i]) + temp2 * Pow256(i);
      assert LittleEndian(data[..i + 1]) == exact;
      ToIntMod(before, LittleEndian(data[..i]));
      ToIntPlus(before, temp2 * Pow256(i), LittleEndian(data[..i]));
      i := i + 1;
    }
    assert data[..i] == data;
  }

  /**
   * numberToBytes: from the most significant position down, takes the digit `number >>> 8*i`,
   * subtracts it back out, folds digits above 127 into the signed range and stores `(byte) digit`.
   * The source only calls it with size 1, 2 or 4.
   */
  method NumberToBytes(number: JInt, size: nat) returns (data: seq<Byte>)
    requires size <= 4
    ensures data == NumberBytes(number, size)
    ensures forall i | 0 <= i < size :: Unsigned(data[i]) == (number % TWO_32 / Pow256(i)) % TWO_8
  {
    var a := new Byte[size](_ => 0);
    // the 32-bit pattern that `>>>` reads; after the first step it is below 2^31
    var n: int := number % TWO_32;
    ghost var u := n;
    var i := size - 1;
    while i >= 0
      invariant -1 <= i < size
      invariant 0 <= n && (u - n) % Pow256(i + 1) == 0
      invariant forall k | i < k < size :: a[k] == ToByte(Digit(u, k))
    {
      var p := Pow256(i);
      var digit := n / p;
      ghost var n0 := n;
      n := n - digit * p;
      NumberStep(u, n0, i);
      if digit > 127 {
        digit := digit - TWO_8;
      }
      a[i] := ToByte(digit);
      i := i - 1;
    }
    data := a[..];
    forall k | 0 <= k < size
      ensures Unsigned(data[k]) == (number % TWO_32 / Pow256(k)) % TWO_8
    {
      UnsignedToByte(Digit(u, k));
    }
  }

  /** One iteration of numberToBytes: what it stores at position i and what it leaves in `number`. */
  lemma NumberStep(u: int, n: nat, i: nat)
    requires 0 <= u && (u - n) % Pow256(i + 1) == 0
    ensures var p := Pow256(i); var digit := n / p;
      && 0 <= n - digit * p
      && (u - (n - digit * p)) % p == 0
      && ToByte(digit) == ToByte(Digit(u, i))
      && ToByte(digit - TWO_8) == ToByte(Digit(u, i))
  {
    var p := Pow256(i);
    assert Pow256(i + 1) == TWO_8 * p;
    StepDigit(u, n, p);
    DigitByte(n / p - TWO_8, u / p);
    assert n - (n / p) * p == n % p;
  }

  /** One step of numberToBytes keeps the digits above position i and the residue below it. */
  lemma StepDigit(u: int, n: int, p: int)
    requires 0 < p && 0 <= n && (u - n) % (TWO_8 * p) == 0
    ensures (u / p - n / p) % TWO_8 == 0
    ensures (u - (n - (n / p) * p)) % p == 0
  {
    var t := (u - n) / (TWO_8 * p);
    DivModUnique(u - n, TWO_8 * p, t, 0);
    assert u == (n / p + TWO_8 * t) * p + n % p;
    DivModUnique(u, p, n / p + TWO_8 * t, n % p);
    DivModUnique(u / p - n / p, TWO_8, t, 0);
    DivModUnique(u - (n - (n / p) * p), p, n / p + TWO_8 * t, 0);
  }

  /** A digit congruent to d modulo 256 narrows to the byte of d's low 8 bits. */
  lemma DigitByte(digit: int, d: int)
    requires (digit - d) % TWO_8 == 0 || (digit + TWO_8 - d) % TWO_8 == 0
    ensures ToByte(digit) == ToByte(d % TWO_8) && ToByte(digit + TWO_8) == ToByte(d % TWO_8)
  {
    var q := d / TWO_8;
    DivModUnique(d, TWO_8, q, d % TWO_8);
    if (digit - d) % TWO_8 == 0 {
      var w := (digit - d) / TWO_8;
      DivModUnique(digit - d, TWO_8, w, 0);
      DivModUnique(digit - d % TWO_8, TWO_8, w + q, 0);
      DivModUnique(digit + TWO_8 - d % TWO_8, TWO_8, w + q + 1, 0);
    } else {
      var w := (digit + TWO_8 - d) / TWO_8;
      DivModUnique(digit + TWO_8 - d, TWO_8, w, 0);
      DivModUnique(digit - d % TWO_8, TWO_8, w + q - 1, 0);
      DivModUnique(digit + TWO_8 - d % TWO_8, TWO_8, w + q, 0);
    }
    ToByteMod(digit, d % TWO_8);
    ToByteMod(digit + TWO_8, d % TWO_8);
  }

  lemma MulLeft(a: int, b: int, p: int)
    requires 0 <= a <= b && 0 <= p
    ensures a * p <= b * p
  {
    assert b * p - a * p == (b - a) * p;
  }

  /** Java int arithmetic depends only on values modulo 2^32. */
  lemma ToIntMod(x: int, y: int)
    requires (x - y) % TWO_32 == 0
    ensures ToInt(x) == ToInt(y)
  {
    var d := (x - y) / TWO_32;
    DivModUnique(x - y, TWO_32, d, 0);
    ModDiffMultiple(ToInt(x) - x, ToInt(y) - y, d, TWO_32);
    CongruentEqual(ToInt(x), ToInt(y), TWO_32);
  }

  /** Adding a wrapped term wraps like adding the exact term. */
  lemma ToIntPlus(a: int, b: int, exact: int)
    requires (a - exact) % TWO_32 == 0
    ensures ToInt(a + ToInt(b)) == ToInt(exact + b)
  {
    ModDiffMultiple(a - exact, -(ToInt(b) - b), 0, TWO_32) by {
      ModNegate(ToInt(b) - b, TWO_32);
    }
    ToIntMod(a + ToInt(b), exact + b);
  }

  /** Splitting off one more base-256 digit. */
  lemma ModSplit(u: nat, p: nat)
    requires p >= 1
    ensures u % (TWO_8 * p) == u % p + ((u / p) % TWO_8) * p
  {
    var q, r := u / p, u % p;
    var a, b := q / TWO_8, q % TWO_8;
    assert u == a * (TWO_8 * p) + (b * p + r);
    MulLeft(b, TWO_8 - 1, p);
    DivModUnique(u, TWO_8 * p, a, b * p + r);
  }

  /** Reading back k digits of u gives u modulo 256^k. */
  lemma {:induction false} LeBytesValue(u: nat, k: nat)
    ensures LittleEndian(LeBytes(u, k)) == u % Pow256(k)
  {
    if k > 0 {
      assert LeBytes(u, k)[..k - 1] == LeBytes(u, k - 1);
      LeBytesValue(u, k - 1);
      UnsignedToByte((u / Pow256(k - 1)) % TWO_8);
      ModSplit(u, Pow256(k - 1));
    }
  }

  /** Decoding what numberToBytes(n, k) wrote gives n modulo 256^k, for every width the header uses. */
  lemma NumberBytesValue(n: int, k: nat)
    requires k <= 4
    ensures LittleEndian(NumberBytes(n, k)) == n % Pow256(k)
  {
    LeBytesValue(n % TWO_32, k);
    assert Pow256(4) == TWO_32;
    PowAdd(k, 4 - k);
    ModOfMultiple(n, Pow256(k), Pow256(4 - k));
  }

  /** Reducing modulo a multiple of p first does not change the residue modulo p. */
  lemma ModOfMultiple(n: int, p: int, m: int)
    requires 0 < p && 0 < m
    ensures (n % (p * m)) % p == n % p
  {
    var c, u := n / (p * m), n % (p * m);
    var d, r := u / p, u % p;
    assert n == c * (p * m) + u;
    assert u == d * p + r;
    assert c * (p * m) == (c * m) * p;
    assert n == (c * m + d) * p + r;
    DivModUnique(n, p, c * m + d, r);
  }

  lemma {:induction false} PowAdd(a: nat, b: nat)
    ensures Pow256(a + b) == Pow256(a) * Pow256(b)
  {
    if a > 0 {
      PowAdd(a - 1, b);
    }
  }

  /** Round trip of a 4-byte field: every Java int comes back unchanged. */
  lemma RoundTripInt(n: JInt)
    ensures ToInt(LittleEndian(NumberBytes(n, 4))) == n
  {
    NumberBytesValue(n, 4);
    assert Pow256(4) == TWO_32;
    ToIntMod(n % TWO_32, n);
    ToIntOfInt(n);
  }

  /** Round trip of a 1- or 2-byte field for values that fit its width. */
  lemma RoundTripNarrow(n: int, k: nat)
    requires k == 1 || k == 2
    requires 0 <= n < Pow256(k)
    ensures ToInt(LittleEndian(NumberBytes(n, k))) == n
  {
    NumberBytesValue(n, k);
    DivModUnique(n, Pow256(k), 0, n);
    ToIntOfInt(n);
  }
}
