/**
 * What each of BitmapThread.java's seven kernels puts in every destination byte, as functions
 * of the source grid: the reference the kernel loops are proved against.
 */
module Kernels {
  import opened JavaTypes
  import opened Images

  datatype Option<T> = None | Some(value: T)

  datatype Kind = Inverse | Grayscale | Blur | Mirror | Shrink | DoubleSize | Rotate

  /** The grayscale formula `(int)(0.3*red + 0.59*green + 0.11*blue)`, applied to (blue, green, red). */
  type Luma = (int, int, int) -> int

  /** The command character of each kernel. */
  function Command(k: Kind): char {
    match k
    case Inverse => 'i'
    case Grayscale => 'g'
    case Blur => 'b'
    case Mirror => 'h'
    case Shrink => 's'
    case DoubleSize => 'd'
    case Rotate => 'r'
  }

  /** The kernel run's switch selects for a command; no kernel for any other character. */
  function KindOf(command: char): (k: Option<Kind>)
    ensures k.Some? ==> Command(k.value) == command
  {
    match command
    case 'i' => Some(Inverse)
    case 'g' => Some(Grayscale)
    case 'b' => Some(Blur)
    case 'h' => Some(Mirror)
    case 's' => Some(Shrink)
    case 'd' => Some(DoubleSize)
    case 'r' => Some(Rotate)
    case _ => None
  }

  /** Every kernel is selected by its own command and by no other. */
  lemma KindOfCommand(k: Kind, command: char)
    ensures KindOf(command) == Some(k) <==> Command(k) == command
  {
  }

  /** Destination (height, width) that convert allocates for a source of the given size. */
  function DestDims(k: Kind, h: nat, w: nat): (int, int) {
    match k
    case Shrink => (h / 2, w / 2)
    case DoubleSize => (2 * h, 2 * w)
    case Rotate => (w, h)
    case _ => (h, w)
  }

  /** Whether a destination image has the size kernel k produces from src. */
  predicate Fits(k: Kind, src: Image, dst: Image) {
    (dst.height, dst.width) == DestDims(k, src.height, src.width)
  }

  /** getPixel: channel ch (0 blue, 1 green, 2 red) of pixel (k, m), read unsigned. */
  function Chan(src: Image, k: int, m: int, ch: int): (v: int)
    requires src.Valid() && 0 <= k < src.height && 0 <= m < src.width && 0 <= ch < 3
    ensures 0 <= v < TWO_8
  {
    Unsigned(src.rows[k][3 * m + ch])
  }

  /** Byte index arithmetic: byte 3p+ch is channel ch of pixel p. */
  lemma PixelIndex(p: int, ch: int)
    requires 0 <= ch < 3
    ensures (3 * p + ch) / 3 == p && (3 * p + ch) % 3 == ch
  {
    DivModUnique(3 * p + ch, 3, p, ch);
  }

  // ---------------------------------------------------------------- per-byte results

  /** inverse: `(byte)(255 - b)`. */
  function InvertAt(src: Image, r: int, c: int): Byte
    requires src.Valid() && 0 <= r < src.height && 0 <= c < 3 * src.width
  {
    ToByte(255 - src.rows[r][c] as int)
  }

  /** grayscale: the formula of the pixel's three channels, narrowed, in every channel. */
  function GrayAt(luma: Luma, src: Image, r: int, c: int): Byte
    requires src.Valid() && 0 <= r < src.height && 0 <= c < 3 * src.width
  {
    var j := c / 3;
    ToByte(luma(Chan(src, r, j, 0), Chan(src, r, j, 1), Chan(src, r, j, 2)))
  }

  /** The `if` of blur's inner loop: (k, m) is a pixel of the image. */
  predicate InBounds(src: Image, k: int, m: int) {
    k >= 0 && k <= src.height - 1 && m >= 0 && m <= src.width - 1
  }

  /** Sum of channel ch over the in-bounds pixels (k, m0) .. (k, m1 - 1). */
  function RowSum(src: Image, ch: int, k: int, m0: int, m1: int): nat
    requires src.Valid() && 0 <= ch < 3
    decreases m1 - m0
  {
    if m1 <= m0 then 0
    else RowSum(src, ch, k, m0, m1 - 1) + (if InBounds(src, k, m1 - 1) then Chan(src, k, m1 - 1, ch) else 0)
  }

  /** Number of in-bounds pixels among (k, m0) .. (k, m1 - 1). */
  function RowCount(src: Image, k: int, m0: int, m1: int): nat
    decreases m1 - m0
  {
    if m1 <= m0 then 0 else RowCount(src, k, m0, m1 - 1) + (if InBounds(src, k, m1 - 1) then 1 else 0)
  }

  /** Sum of channel ch over the in-bounds pixels of rows k0 .. k1 - 1, columns m0 .. m1 - 1. */
  function WinSum(src: Image, ch: int, k0: int, k1: int, m0: int, m1: int): nat
    requires src.Valid() && 0 <= ch < 3
    decreases k1 - k0
  {
    if k1 <= k0 then 0 else WinSum(src, ch, k0, k1 - 1, m0, m1) + RowSum(src, ch, k1 - 1, m0, m1)
  }

  /** Number of in-bounds pixels of rows k0 .. k1 - 1, columns m0 .. m1 - 1. */
  function WinCount(src: Image, k0: int, k1: int, m0: int, m1: int): nat
    decreases k1 - k0
  {
    if k1 <= k0 then 0 else WinCount(src, k0, k1 - 1, m0, m1) + RowCount(src, k1 - 1, m0, m1)
  }

  /**
   * blur: the truncated average of channel c % 3 over the in-bounds pixels of the window of
   * rows r-2 .. r+1 and pixel columns c/3 - 2 .. c/3 + 1 (four by four, clipped at the edges).
   */
  function BlurAt(src: Image, r: int, c: int): Byte
    requires src.Valid() && 0 <= r < src.height && 0 <= c < 3 * src.width
  {
    var j := c / 3;
    WindowHoldsCentre(src, r, j);
    ToByte(WinSum(src, c % 3, r - 2, r + 2, j - 2, j + 2) / WinCount(src, r - 2, r + 2, j - 2, j + 2))
  }

  /** mirror: the byte of the same channel of pixel width-1-j. */
  function MirrorAt(src: Image, r: int, c: int): Byte
    requires src.Valid() && 0 <= r < src.height && 0 <= c < 3 * src.width
  {
    src.rows[r][3 * (src.width - 1 - c / 3) + c % 3]
  }

  /** shrink: the truncated quarter of the four source values of the 2x2 block. */
  function ShrinkAt(src: Image, r: int, c: int): Byte
    requires src.Valid() && 0 <= r < src.height / 2 && 0 <= c < 3 * (src.width / 2)
  {
    var j, ch := c / 3, c % 3;
    ToByte((Chan(src, 2 * r, 2 * j, ch) + Chan(src, 2 * r + 1, 2 * j, ch)
          + Chan(src, 2 * r, 2 * j + 1, ch) + Chan(src, 2 * r + 1, 2 * j + 1, ch)) / 4)
  }

  /** doubleSize: every pixel of the 2x2 block is the source pixel (r/2, j/2). */
  function DoubleAt(src: Image, r: int, c: int): Byte
    requires src.Valid() && 0 <= r < 2 * src.height && 0 <= c < 6 * src.width
  {
    src.rows[r / 2][3 * (c / 3 / 2) + c % 3]
  }

  /** rotate: destination pixel (r, p) is source pixel (p, width-1-r). */
  function RotateAt(src: Image, r: int, c: int): Byte
    requires src.Valid() && 0 <= r < src.width && 0 <= c < 3 * src.height
  {
    src.rows[c / 3][3 * (src.width - 1 - r) + c % 3]
  }

  /** The three channels of grayscale pixel (r, j) take the formula's value for source pixel (r, j). */
  lemma GrayAtPixel(luma: Luma, src: Image, r: int, j: int)
    requires src.Valid() && 0 <= r < src.height && 0 <= j < src.width
    ensures var g := ToByte(luma(Chan(src, r, j, 0), Chan(src, r, j, 1), Chan(src, r, j, 2)));
      GrayAt(luma, src, r, 3 * j) == g && GrayAt(luma, src, r, 3 * j + 1) == g && GrayAt(luma, src, r, 3 * j + 2) == g
  {
    PixelIndex(j, 0);
    PixelIndex(j, 1);
    PixelIndex(j, 2);
  }

  /** Channel ch of blur pixel (r, j) is the window average of channel ch. */
  lemma BlurAtPixel(src: Image, r: int, j: int)
    requires src.Valid() && 0 <= r < src.height && 0 <= j < src.width
    ensures WinCount(src, r - 2, r + 2, j - 2, j + 2) > 0
    ensures var n := WinCount(src, r - 2, r + 2, j - 2, j + 2);
      && BlurAt(src, r, 3 * j) == ToByte(WinSum(src, 0, r - 2, r + 2, j - 2, j + 2) / n)
      && BlurAt(src, r, 3 * j + 1) == ToByte(WinSum(src, 1, r - 2, r + 2, j - 2, j + 2) / n)
      && BlurAt(src, r, 3 * j + 2) == ToByte(WinSum(src, 2, r - 2, r + 2, j - 2, j + 2) / n)
  {
    WindowHoldsCentre(src, r, j);
    PixelIndex(j, 0);
    PixelIndex(j, 1);
    PixelIndex(j, 2);
  }

  /** Mirror pixel (r, p) is source pixel (r, width-1-p). */
  lemma MirrorAtPixel(src: Image, r: int, p: int)
    requires src.Valid() && 0 <= r < src.height && 0 <= p < src.width
    ensures var q := src.width - 1 - p;
      && MirrorAt(src, r, 3 * p) == src.rows[r][3 * q]
      && MirrorAt(src, r, 3 * p + 1) == src.rows[r][3 * q + 1]
      && MirrorAt(src, r, 3 * p + 2) == src.rows[r][3 * q + 2]
  {
    PixelIndex(p, 0);
    PixelIndex(p, 1);
    PixelIndex(p, 2);
  }

  /** Rotate pixel (r, p) is source pixel (p, width-1-r). */
  lemma RotateAtPixel(src: Image, r: int, p: int)
    requires src.Valid() && 0 <= r < src.width && 0 <= p < src.height
    ensures var q := src.width - 1 - r;
      && RotateAt(src, r, 3 * p) == src.rows[p][3 * q]
      && RotateAt(src, r, 3 * p + 1) == src.rows[p][3 * q + 1]
      && RotateAt(src, r, 3 * p + 2) == src.rows[p][3 * q + 2]
  {
    PixelIndex(p, 0);
    PixelIndex(p, 1);
    PixelIndex(p, 2);
  }

  /** Sums a + b + c + d of channel ch over the 2x2 block give channel ch of shrink pixel (r, j). */
  lemma ShrinkAtPixel(src: Image, r: int, j: int, ch: int, a: int, b: int, c: int, d: int)
    requires src.Valid() && 0 <= r < src.height / 2 && 0 <= j < src.width / 2 && 0 <= ch < 3
    requires a == Chan(src, 2 * r, 2 * j, ch) && b == Chan(src, 2 * r + 1, 2 * j, ch)
    requires c == Chan(src, 2 * r, 2 * j + 1, ch) && d == Chan(src, 2 * r + 1, 2 * j + 1, ch)
    ensures ShrinkAt(src, r, 3 * j + ch) == ToByte((a + b + c + d) / 4)
  {
    PixelIndex(j, ch);
  }

  /** Each channel of destination pixel p of doubleSize row r is that channel of source pixel p/2 of row r/2. */
  lemma DoubleAtPixel(src: Image, r: int, p: int)
    requires src.Valid() && 0 <= r < 2 * src.height && 0 <= p < 2 * src.width
    ensures DoubleAt(src, r, 3 * p) == src.rows[r / 2][3 * (p / 2)]
    ensures DoubleAt(src, r, 3 * p + 1) == src.rows[r / 2][3 * (p / 2) + 1]
    ensures DoubleAt(src, r, 3 * p + 2) == src.rows[r / 2][3 * (p / 2) + 2]
  {
    PixelIndex(p, 0);
    PixelIndex(p, 1);
    PixelIndex(p, 2);
  }

  /** Byte c of destination row r after kernel k has covered it. */
  function Cell(k: Kind, luma: Luma, src: Image, r: int, c: int): Byte
    requires src.Valid()
    requires var (h, w) := DestDims(k, src.height, src.width); 0 <= r < h && 0 <= c < 3 * w
  {
    match k
    case Inverse => InvertAt(src, r, c)
    case Grayscale => GrayAt(luma, src, r, c)
    case Blur => BlurAt(src, r, c)
    case Mirror => MirrorAt(src, r, c)
    case Shrink => ShrinkAt(src, r, c)
    case DoubleSize => DoubleAt(src, r, c)
    case Rotate => RotateAt(src, r, c)
  }

  /** The whole destination image of kernel k. */
  function Apply(k: Kind, luma: Luma, src: Image): (im: Image)
    requires src.Valid()
    ensures im.Valid() && Fits(k, src, im)
    ensures forall r, c | 0 <= r < im.height && 0 <= c < 3 * im.width :: im.rows[r][c] == Cell(k, luma, src, r, c)
  {
    var (h, w) := DestDims(k, src.height, src.width);
    Image(h, w, seq(h, r requires 0 <= r < h => seq(3 * w, c requires 0 <= c < 3 * w => Cell(k, luma, src, r, c))))
  }

  // ---------------------------------------------------------------- the blur window

  /** Pixel (r, j) itself lies in its window, so blur never divides by zero. */
  lemma WindowHoldsCentre(src: Image, r: int, j: int)
    requires src.Valid() && 0 <= r < src.height && 0 <= j < src.width
    ensures 1 <= WinCount(src, r - 2, r + 2, j - 2, j + 2) <= 16
  {
    RowCountBounds(src, r, j - 2, j + 2);
    assert RowCount(src, r, j - 2, j + 2) >= 1 by {
      RowCountHas(src, r, j - 2, j + 2, j);
    }
    WinCountSplit(src, r - 2, r + 2, j - 2, j + 2, r);
  }

  lemma {:induction false} RowCountBounds(src: Image, k: int, m0: int, m1: int)
    requires m0 <= m1
    ensures RowCount(src, k, m0, m1) <= m1 - m0
    decreases m1 - m0
  {
    if m1 > m0 {
      RowCountBounds(src, k, m0, m1 - 1);
    }
  }

  lemma {:induction false} RowCountHas(src: Image, k: int, m0: int, m1: int, m: int)
    requires m0 <= m < m1 && InBounds(src, k, m)
    ensures RowCount(src, k, m0, m1) >= 1
    decreases m1 - m0
  {
    if m < m1 - 1 {
      RowCountHas(src, k, m0, m1 - 1, m);
    }
  }

  /** A window with rows k0 .. k1-1 of at most four pixels each, and row k among them counting at least one. */
  lemma {:induction false} WinCountSplit(src: Image, k0: int, k1: int, m0: int, m1: int, k: int)
    requires k0 <= k < k1 && m0 <= m1 <= m0 + 4
    requires 1 <= RowCount(src, k, m0, m1)
    ensures 1 <= WinCount(src, k0, k1, m0, m1) <= 4 * (k1 - k0)
    decreases k1 - k0
  {
    RowCountBounds(src, k1 - 1, m0, m1);
    if k < k1 - 1 {
      WinCountSplit(src, k0, k1 - 1, m0, m1, k);
    } else if k0 < k1 - 1 {
      WinCountAtMost(src, k0, k1 - 1, m0, m1);
    }
  }

  lemma {:induction false} WinCountAtMost(src: Image, k0: int, k1: int, m0: int, m1: int)
    requires k0 <= k1 && m0 <= m1 <= m0 + 4
    ensures WinCount(src, k0, k1, m0, m1) <= 4 * (k1 - k0)
    decreases k1 - k0
  {
    if k1 > k0 {
      RowCountBounds(src, k1 - 1, m0, m1);
      WinCountAtMost(src, k0, k1 - 1, m0, m1);
    }
  }

  /** Every in-bounds value of channel ch in the window lies in lo .. hi. */
  predicate WindowWithin(src: Image, ch: int, k0: int, k1: int, m0: int, m1: int, lo: int, hi: int)
    requires src.Valid() && 0 <= ch < 3
  {
    forall k, m | k0 <= k < k1 && m0 <= m < m1 && InBounds(src, k, m) :: lo <= Chan(src, k, m, ch) <= hi
  }

  lemma {:induction false} RowSumWithin(src: Image, ch: int, k: int, m0: int, m1: int, lo: int, hi: int)
    requires src.Valid() && 0 <= ch < 3
    requires WindowWithin(src, ch, k, k + 1, m0, m1, lo, hi)
    ensures RowCount(src, k, m0, m1) * lo <= RowSum(src, ch, k, m0, m1) <= RowCount(src, k, m0, m1) * hi
    decreases m1 - m0
  {
    if m1 > m0 {
      RowSumWithin(src, ch, k, m0, m1 - 1, lo, hi);
      if InBounds(src, k, m1 - 1) {
        var v := Chan(src, k, m1 - 1, ch);
        AddBounds(RowCount(src, k, m0, m1 - 1), 1, RowSum(src, ch, k, m0, m1 - 1), v, lo, hi);
      }
    }
  }

  lemma {:induction false} WinSumWithin(src: Image, ch: int, k0: int, k1: int, m0: int, m1: int, lo: int, hi: int)
    requires src.Valid() && 0 <= ch < 3
    requires WindowWithin(src, ch, k0, k1, m0, m1, lo, hi)
    ensures WinCount(src, k0, k1, m0, m1) * lo <= WinSum(src, ch, k0, k1, m0, m1) <= WinCount(src, k0, k1, m0, m1) * hi
    decreases k1 - k0
  {
    if k1 > k0 {
      WinSumWithin(src, ch, k0, k1 - 1, m0, m1, lo, hi);
      RowSumWithin(src, ch, k1 - 1, m0, m1, lo, hi);
      AddBounds(WinCount(src, k0, k1 - 1, m0, m1), RowCount(src, k1 - 1, m0, m1),
                WinSum(src, ch, k0, k1 - 1, m0, m1), RowSum(src, ch, k1 - 1, m0, m1), lo, hi);
    }
  }

  lemma AddBounds(a: int, b: int, sa: int, sb: int, lo: int, hi: int)
    requires a * lo <= sa <= a * hi && b * lo <= sb <= b * hi
    ensures (a + b) * lo <= sa + sb <= (a + b) * hi
  {
    assert (a + b) * lo == a * lo + b * lo && (a + b) * hi == a * hi + b * hi;
  }

  /** An average lies between the smallest and the largest value averaged. */
  lemma AverageWithin(sum: int, count: int, lo: int, hi: int)
    requires 1 <= count && count * lo <= sum <= count * hi
    ensures lo <= sum / count <= hi
  {
    var q := sum / count;
    if q < lo {
      assert sum < (q + 1) * count;
      MulLeftInt(q + 1, lo, count);
    }
    if q > hi {
      MulLeftInt(hi + 1, q, count);
    }
  }

  lemma MulLeftInt(a: int, b: int, p: int)
    requires a <= b && 0 <= p
    ensures a * p <= b * p
  {
    assert b * p - a * p == (b - a) * p;
  }
}
