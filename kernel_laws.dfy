/** Algebraic laws of the kernels, stated on the reference functions of module Kernels. */
module KernelLaws {
  import opened JavaTypes
  import opened Images
  import opened Kernels

  /** Inverting reads every byte unsigned and stores 255 minus it. */
  lemma InvertUnsigned(src: Image, r: int, c: int)
    requires src.Valid() && 0 <= r < src.height && 0 <= c < 3 * src.width
    ensures Unsigned(InvertAt(src, r, c)) == 255 - Unsigned(src.rows[r][c])
  {
    var b := src.rows[r][c];
    ToByteMod(255 - b as int, 255 - Unsigned(b));
    UnsignedToByte(255 - Unsigned(b));
  }

  /** Inverting twice gives back every byte. */
  lemma InvertTwice(luma: Luma, im: Image)
    requires im.Valid()
    ensures Apply(Inverse, luma, Apply(Inverse, luma, im)) == im
  {
    var once := Apply(Inverse, luma, im);
    var twice := Apply(Inverse, luma, once);
    forall r, c | 0 <= r < im.height && 0 <= c < 3 * im.width
      ensures twice.rows[r][c] == im.rows[r][c]
    {
      InvertUnsigned(im, r, c);
      InvertUnsigned(once, r, c);
      ToByteUnsigned(twice.rows[r][c]);
      ToByteUnsigned(im.rows[r][c]);
    }
    Extensionality(twice, im);
  }

  /** Grayscale gives the three channels of each pixel one value. */
  lemma GrayChannelsEqual(luma: Luma, src: Image, r: int, j: int)
    requires src.Valid() && 0 <= r < src.height && 0 <= j < src.width
    ensures GrayAt(luma, src, r, 3 * j) == GrayAt(luma, src, r, 3 * j + 1) == GrayAt(luma, src, r, 3 * j + 2)
  {
    PixelIndex(j, 0);
    PixelIndex(j, 1);
    PixelIndex(j, 2);
  }

  /** A formula that maps black to black leaves an all-zero image all zero. */
  lemma GrayOfBlack(luma: Luma, h: nat, w: nat)
    requires luma(0, 0, 0) == 0
    ensures Apply(Grayscale, luma, Zero(h, w)) == Zero(h, w)
  {
    var z := Zero(h, w);
    var g := Apply(Grayscale, luma, z);
    forall r, c | 0 <= r < h && 0 <= c < 3 * w
      ensures g.rows[r][c] == 0
    {
      var j := c / 3;
      assert Chan(z, r, j, 0) == 0 && Chan(z, r, j, 1) == 0 && Chan(z, r, j, 2) == 0;
    }
    Extensionality(g, z);
  }

  /** Blur's value lies between the smallest and the largest value of its window. */
  lemma BlurWithin(src: Image, r: int, c: int, lo: int, hi: int)
    requires src.Valid() && 0 <= r < src.height && 0 <= c < 3 * src.width
    requires WindowWithin(src, c % 3, r - 2, r + 2, c / 3 - 2, c / 3 + 2, lo, hi)
    ensures lo <= Unsigned(BlurAt(src, r, c)) <= hi
  {
    var j := c / 3;
    WindowHoldsCentre(src, r, j);
    var sum, count := WinSum(src, c % 3, r - 2, r + 2, j - 2, j + 2), WinCount(src, r - 2, r + 2, j - 2, j + 2);
    WinSumWithin(src, c % 3, r - 2, r + 2, j - 2, j + 2, lo, hi);
    AverageWithin(sum, count, lo, hi);
    assert 0 <= sum / count < TWO_8 by {
      WinSumWithin(src, c % 3, r - 2, r + 2, j - 2, j + 2, 0, TWO_8 - 1);
      AverageWithin(sum, count, 0, TWO_8 - 1);
    }
    UnsignedToByte(sum / count);
  }

  /** Every pixel of im has the colour (color[0], color[1], color[2]). */
  predicate Uniform(im: Image, color: seq<Byte>)
    requires im.Valid()
  {
    |color| == 3 && forall r, c | 0 <= r < im.height && 0 <= c < 3 * im.width :: im.rows[r][c] == color[c % 3]
  }

  /** Blurring a single-coloured image changes nothing. */
  lemma BlurUniform(luma: Luma, im: Image, color: seq<Byte>)
    requires im.Valid() && Uniform(im, color)
    ensures Apply(Blur, luma, im) == im
  {
    var b := Apply(Blur, luma, im);
    forall r, c | 0 <= r < im.height && 0 <= c < 3 * im.width
      ensures b.rows[r][c] == im.rows[r][c]
    {
      var v := Unsigned(color[c % 3]);
      forall k, m | InBounds(im, k, m)
        ensures Chan(im, k, m, c % 3) == v
      {
        PixelIndex(m, c % 3);
      }
      BlurWithin(im, r, c, v, v);
      ToByteUnsigned(b.rows[r][c]);
      ToByteUnsigned(im.rows[r][c]);
    }
    Extensionality(b, im);
  }

  /** Mirroring twice gives back every byte. */
  lemma MirrorTwice(luma: Luma, im: Image)
    requires im.Valid()
    ensures Apply(Mirror, luma, Apply(Mirror, luma, im)) == im
  {
    var once := Apply(Mirror, luma, im);
    var twice := Apply(Mirror, luma, once);
    forall r, c | 0 <= r < im.height && 0 <= c < 3 * im.width
      ensures twice.rows[r][c] == im.rows[r][c]
    {
      var p, ch := c / 3, c % 3;
      PixelIndex(im.width - 1 - p, ch);
      PixelIndex(p, ch);
    }
    Extensionality(twice, im);
  }

  /** Shrinking a doubled image gives back the original. */
  lemma ShrinkDouble(luma: Luma, im: Image)
    requires im.Valid()
    ensures Apply(Shrink, luma, Apply(DoubleSize, luma, im)) == im
  {
    var d := Apply(DoubleSize, luma, im);
    var s := Apply(Shrink, luma, d);
    forall r, c | 0 <= r < im.height && 0 <= c < 3 * im.width
      ensures s.rows[r][c] == im.rows[r][c]
    {
      ShrinkOfBlock(luma, im, r, c);
    }
    Extensionality(s, im);
  }

  /** Each destination byte of shrink, on a doubled image, averages four copies of the source byte. */
  lemma ShrinkOfBlock(luma: Luma, im: Image, r: int, c: int)
    requires im.Valid() && 0 <= r < im.height && 0 <= c < 3 * im.width
    ensures ShrinkAt(Apply(DoubleSize, luma, im), r, c) == im.rows[r][c]
  {
    var j, ch := c / 3, c % 3;
    var v := Unsigned(im.rows[r][c]);
    PixelIndex(j, ch);
    BlockValue(luma, im, r, j, ch, 2 * r, 2 * j);
    BlockValue(luma, im, r, j, ch, 2 * r + 1, 2 * j);
    BlockValue(luma, im, r, j, ch, 2 * r, 2 * j + 1);
    BlockValue(luma, im, r, j, ch, 2 * r + 1, 2 * j + 1);
    assert (v + v + v + v) / 4 == v;
    ToByteUnsigned(im.rows[r][c]);
  }

  /** Each pixel of the 2x2 block doubleSize writes holds the source pixel. */
  lemma BlockValue(luma: Luma, im: Image, r: int, j: int, ch: int, k: int, m: int)
    requires im.Valid() && 0 <= r < im.height && 0 <= j < im.width && 0 <= ch < 3
    requires k / 2 == r && m / 2 == j && 0 <= k && 0 <= m
    ensures var d := Apply(DoubleSize, luma, im); Chan(d, k, m, ch) == Unsigned(im.rows[r][3 * j + ch])
  {
    PixelIndex(m, ch);
  }

  /** Shrink never reads an odd last row or column: images that agree elsewhere shrink alike. */
  lemma ShrinkDropsOddEdge(luma: Luma, a: Image, b: Image)
    requires a.Valid() && b.Valid() && a.height == b.height && a.width == b.width
    requires forall r, c | 0 <= r < 2 * (a.height / 2) && 0 <= c < 6 * (a.width / 2) :: a.rows[r][c] == b.rows[r][c]
    ensures Apply(Shrink, luma, a) == Apply(Shrink, luma, b)
  {
    var sa, sb := Apply(Shrink, luma, a), Apply(Shrink, luma, b);
    forall r, c | 0 <= r < sa.height && 0 <= c < 3 * sa.width
      ensures sa.rows[r][c] == sb.rows[r][c]
    {
      var j, ch := c / 3, c % 3;
      PixelIndex(2 * j, ch);
      PixelIndex(2 * j + 1, ch);
    }
    Extensionality(sa, sb);
  }

  /** Two quarter turns: the half turn, pixel (r, p) taken from (h-1-r, w-1-p). */
  function HalfTurn(im: Image): (t: Image)
    requires im.Valid()
    ensures t.Valid() && t.height == im.height && t.width == im.width
  {
    Image(im.height, im.width, seq(im.height, r requires 0 <= r < im.height =>
      seq(3 * im.width, c requires 0 <= c < 3 * im.width => im.rows[im.height - 1 - r][3 * (im.width - 1 - c / 3) + c % 3])))
  }

  /** Rotating twice by a quarter turn is the half turn. */
  lemma RotateTwice(luma: Luma, im: Image)
    requires im.Valid()
    ensures Apply(Rotate, luma, Apply(Rotate, luma, im)) == HalfTurn(im)
  {
    var once := Apply(Rotate, luma, im);
    var twice := Apply(Rotate, luma, once);
    forall r, c | 0 <= r < im.height && 0 <= c < 3 * im.width
      ensures twice.rows[r][c] == HalfTurn(im).rows[r][c]
    {
      PixelIndex(im.height - 1 - r, c % 3);
    }
    Extensionality(twice, HalfTurn(im));
  }

  /** Two half turns give back every byte. */
  lemma HalfTurnTwice(im: Image)
    requires im.Valid()
    ensures HalfTurn(HalfTurn(im)) == im
  {
    var t := HalfTurn(HalfTurn(im));
    forall r, c | 0 <= r < im.height && 0 <= c < 3 * im.width
      ensures t.rows[r][c] == im.rows[r][c]
    {
      PixelIndex(im.width - 1 - c / 3, c % 3);
    }
    Extensionality(t, im);
  }

  /** Four quarter turns give back the original dimensions and pixels. */
  lemma RotateFourTimes(luma: Luma, im: Image)
    requires im.Valid()
    ensures Apply(Rotate, luma, Apply(Rotate, luma, Apply(Rotate, luma, Apply(Rotate, luma, im)))) == im
  {
    var twice := Apply(Rotate, luma, Apply(Rotate, luma, im));
    RotateTwice(luma, im);
    RotateTwice(luma, twice);
    HalfTurnTwice(im);
  }
}
