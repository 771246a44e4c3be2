/**
 * BitmapThread.java: one worker of a conversion. It reads the source grid and writes the
 * destination bytes of the rows the strided rule gives its number.
 */
module BitmapThreads {
  import opened JavaTypes
  import opened Images
  import opened Bitmaps
  import opened Kernels
  import opened Workers

  class BitmapThread {
    const source: Bitmap
    const result: Bitmap
    const number: JInt
    const threads: JInt
    const command: char
    /** The grayscale formula, a parameter of the model (see Kernels.Luma). */
    const luma: Luma

    constructor (source: Bitmap, result: Bitmap, command: char, number: JInt, threads: JInt, luma: Luma)
      ensures this.source == source && this.result == result && this.command == command
      ensures this.number == number && this.threads == threads && this.luma == luma
    {
      this.source := source;
      this.result := result;
      this.number := number;
      this.threads := threads;
      this.command := command;
      this.luma := luma;
    }

    /** Kernel k can run: two distinct allocated grids, the destination sized for k, a positive stride. */
    predicate Ready(k: Kind) {
      source.Valid() && result.Valid() && source.data != result.data
      && (result.height, result.width) == DestDims(k, source.height, source.width)
      && 0 <= number && 1 <= threads
    }

    /**
     * The loops of kernel k have reached position (i, j): every byte written by an earlier
     * iteration of this worker holds the kernel's value, every other byte its value before.
     */
    ghost predicate Progress(k: Kind, src: Image, dst: Image, i: int, j: int)
      reads result.data
      requires Ready(k) && src.Valid() && src.height == source.height && src.width == source.width
      requires dst.Valid() && dst.height == result.height && dst.width == result.width
    {
      forall r, c | 0 <= r < result.height && 0 <= c < 3 * result.width ::
        result.data[r, c]
          == if Done(k, src.width, number, threads, r, c, i, j) then Cell(k, luma, src, r, c) else dst.rows[r][c]
    }

    /** Once the outer loop has passed every row, the destination is this worker's step. */
    lemma Finish(k: Kind, src: Image, dst: Image, i: int)
      requires Ready(k) && src.Valid() && src.height == source.height && src.width == source.width
      requires dst.Valid() && dst.height == result.height && dst.width == result.width
      requires Progress(k, src, dst, i, 0)
      requires forall r, c | 0 <= r < result.height && 0 <= c < 3 * result.width :: Domain(k, src.width, r, c) < i
      ensures result.Grid() == WorkerStep(k, luma, src, dst, number, threads)
    {
      Extensionality(result.Grid(), WorkerStep(k, luma, src, dst, number, threads));
    }

    /** What getPixel returns is the unsigned reading of the source pixel's channels. */
    lemma PixelChannels(k: int, m: int)
      requires source.Valid() && 0 <= k < source.height && 0 <= m < source.width
      ensures GetPixel(k, m)[0] == Chan(source.Grid(), k, m, 0)
      ensures GetPixel(k, m)[1] == Chan(source.Grid(), k, m, 1)
      ensures GetPixel(k, m)[2] == Chan(source.Grid(), k, m, 2)
    {
    }

    /** Narrowing what getPixel returns gives back the source bytes. */
    lemma PixelBytes(k: int, m: int)
      requires source.Valid() && 0 <= k < source.height && 0 <= m < source.width
      ensures ToByte(GetPixel(k, m)[0]) == source.Grid().rows[k][3 * m]
      ensures ToByte(GetPixel(k, m)[1]) == source.Grid().rows[k][3 * m + 1]
      ensures ToByte(GetPixel(k, m)[2]) == source.Grid().rows[k][3 * m + 2]
    {
      ToByteUnsigned(source.data[k, 3 * m]);
      ToByteUnsigned(source.data[k, 3 * m + 1]);
      ToByteUnsigned(source.data[k, 3 * m + 2]);
    }

    /** getPixel: the three channels of source pixel (i, j), each widened to 0..255. */
    function GetPixel(i: int, j: int): (temp: seq<int>)
      reads source.data
      requires source.Valid() && 0 <= i < source.height && 0 <= j < source.width
      ensures |temp| == 3
      ensures forall ch | 0 <= ch < 3 :: temp[ch] == Unsigned(source.data[i, 3 * j + ch])
    {
      var blue: int := source.GetByte(i, j * 3);
      var green: int := source.GetByte(i, j * 3 + 1);
      var red: int := source.GetByte(i, j * 3 + 2);
      [blue + (if blue < 0 then 256 else 0),
       green + (if green < 0 then 256 else 0),
       red + (if red < 0 then 256 else 0)]
    }

    /** setPixel: narrows the three channels and writes exactly the three bytes of result pixel (i, j). */
    method SetPixel(i: int, j: int, blue: int, green: int, red: int)
      requires result.Valid() && 0 <= i < result.height && 0 <= j < result.width
      modifies result.data
      ensures result.data[i, 3 * j] == ToByte(blue)
      ensures result.data[i, 3 * j + 1] == ToByte(green)
      ensures result.data[i, 3 * j + 2] == ToByte(red)
      ensures forall r, c | 0 <= r < result.height && 0 <= c < 3 * result.width && !(r == i && 3 * j <= c < 3 * j + 3) ::
        result.data[r, c] == old(result.data[r, c])
    {
      result.SetByte(i, j * 3, ToByte(blue));
      result.SetByte(i, j * 3 + 1, ToByte(green));
      result.SetByte(i, j * 3 + 2, ToByte(red));
    }

    /** inverse: every byte of each of this worker's rows becomes `(byte)(255 - b)`. */
    method Inverse()
      requires Ready(Kind.Inverse)
      modifies result.data
      ensures result.Grid() == WorkerStep(Kind.Inverse, luma, source.Grid(), old(result.Grid()), number, threads)
    {
      ghost var src, dst := source.Grid(), result.Grid();
      var i := number;
      while i < source.height
        invariant Owns(i, number, threads)
        invariant source.Grid() == src
        invariant Progress(Kind.Inverse, src, dst, i, 0)
        decreases source.height - i
      {
        for j := 0 to source.width * 3
          invariant source.Grid() == src
          invariant Progress(Kind.Inverse, src, dst, i, j)
        {
          var inverted := ToByte(255 - source.GetByte(i, j) as int);
          result.SetByte(i, j, inverted);
        }
        NextStride(i, number, threads);
        i := i + threads;
      }
      Finish(Kind.Inverse, src, dst, i);
    }

    /** grayscale: each pixel of this worker's rows gets the formula's value in all three channels. */
    method Grayscale()
      requires Ready(Kind.Grayscale)
      modifies result.data
      ensures result.Grid() == WorkerStep(Kind.Grayscale, luma, source.Grid(), old(result.Grid()), number, threads)
    {
      ghost var src, dst := source.Grid(), result.Grid();
      var i := number;
      while i < source.height
        invariant Owns(i, number, threads)
        invariant source.Grid() == src
        invariant Progress(Kind.Grayscale, src, dst, i, 0)
        decreases source.height - i
      {
        for j := 0 to source.width
          invariant source.Grid() == src
          invariant Progress(Kind.Grayscale, src, dst, i, j)
        {
          GrayscalePixel(src, dst, i, j);
        }
        NextStride(i, number, threads);
        i := i + threads;
      }
      Finish(Kind.Grayscale, src, dst, i);
    }

    /** The body of grayscale's inner loop for pixel (i, j). */
    method GrayscalePixel(ghost src: Image, ghost dst: Image, i: int, j: int)
      requires Ready(Kind.Grayscale) && src == source.Grid()
      requires dst.Valid() && dst.height == result.height && dst.width == result.width
      requires 0 <= i < source.height && 0 <= j < source.width && Owns(i, number, threads)
      requires Progress(Kind.Grayscale, src, dst, i, j)
      modifies result.data
      ensures Progress(Kind.Grayscale, src, dst, i, j + 1)
    {
      var temp := GetPixel(i, j);
      var newColor := luma(temp[0], temp[1], temp[2]);
      PixelChannels(i, j);
      GrayAtPixel(luma, src, i, j);
      StorePixel(Kind.Grayscale, src, dst, i, j, newColor, newColor, newColor);
    }

    /** The window loops of blur: sums of the three channels and the count of in-bounds pixels. */
    method BlurWindow(i: int, j: int) returns (blueSum: int, greenSum: int, redSum: int, pixels: int)
      requires source.Valid()
      ensures var src, k0, k1, m0, m1 := source.Grid(), i - 2, i + 2, j - 2, j + 2;
        && blueSum == WinSum(src, 0, k0, k1, m0, m1)
        && greenSum == WinSum(src, 1, k0, k1, m0, m1)
        && redSum == WinSum(src, 2, k0, k1, m0, m1)
        && pixels == WinCount(src, k0, k1, m0, m1)
    {
      ghost var src := source.Grid();
      blueSum, greenSum, redSum, pixels := 0, 0, 0, 0;
      var k := i - 2;
      while k < i + 2
        invariant i - 2 <= k <= i + 2
        invariant blueSum == WinSum(src, 0, i - 2, k, j - 2, j + 2)
        invariant greenSum == WinSum(src, 1, i - 2, k, j - 2, j + 2)
        invariant redSum == WinSum(src, 2, i - 2, k, j - 2, j + 2)
        invariant pixels == WinCount(src, i - 2, k, j - 2, j + 2)
      {
        var m := j - 2;
        while m < j + 2
          invariant j - 2 <= m <= j + 2
          invariant blueSum == WinSum(src, 0, i - 2, k, j - 2, j + 2) + RowSum(src, 0, k, j - 2, m)
          invariant greenSum == WinSum(src, 1, i - 2, k, j - 2, j + 2) + RowSum(src, 1, k, j - 2, m)
          invariant redSum == WinSum(src, 2, i - 2, k, j - 2, j + 2) + RowSum(src, 2, k, j - 2, m)
          invariant pixels == WinCount(src, i - 2, k, j - 2, j + 2) + RowCount(src, k, j - 2, m)
        {
          if k >= 0 && k <= source.height - 1 && m >= 0 && m <= source.width - 1 {
            var temp := GetPixel(k, m);
            blueSum := blueSum + temp[0];
            greenSum := greenSum + temp[1];
            redSum := redSum + temp[2];
            pixels := pixels + 1;
          }
          m := m + 1;
        }
        k := k + 1;
      }
    }

    /** blur: each pixel of this worker's rows gets the average of its clipped 4x4 window. */
    method Blur()
      requires Ready(Kind.Blur)
      modifies result.data
      ensures result.Grid() == WorkerStep(Kind.Blur, luma, source.Grid(), old(result.Grid()), number, threads)
    {
      ghost var src, dst := source.Grid(), result.Grid();
      var i := number;
      while i < source.height
        invariant Owns(i, number, threads)
        invariant source.Grid() == src
        invariant Progress(Kind.Blur, src, dst, i, 0)
        decreases source.height - i
      {
        for j := 0 to source.width
          invariant source.Grid() == src
          invariant Progress(Kind.Blur, src, dst, i, j)
        {
          BlurPixel(src, dst, i, j);
        }
        NextStride(i, number, threads);
        i := i + threads;
      }
      Finish(Kind.Blur, src, dst, i);
    }

    /** mirror: walks each of this worker's rows from its last pixel and writes it to the mirrored place. */
    method Mirror()
      requires Ready(Kind.Mirror)
      modifies result.data
      ensures result.Grid() == WorkerStep(Kind.Mirror, luma, source.Grid(), old(result.Grid()), number, threads)
    {
      ghost var src, dst := source.Grid(), result.Grid();
      var i := number;
      while i < source.height
        invariant Owns(i, number, threads)
        invariant source.Grid() == src
        invariant Progress(Kind.Mirror, src, dst, i, 0)
        decreases source.height - i
      {
        var j := source.width - 1;
        while j >= 0
          invariant -1 <= j < source.width
          invariant source.Grid() == src
          invariant Progress(Kind.Mirror, src, dst, i, source.width - 1 - j)
        {
          MirrorPixel(src, dst, i, j);
          j := j - 1;
        }
        NextStride(i, number, threads);
        i := i + threads;
      }
      Finish(Kind.Mirror, src, dst, i);
    }

    /** shrink: each pixel of this worker's destination rows averages a 2x2 block of the source. */
    method Shrink()
      requires Ready(Kind.Shrink)
      modifies result.data
      ensures result.Grid() == WorkerStep(Kind.Shrink, luma, source.Grid(), old(result.Grid()), number, threads)
    {
      ghost var src, dst := source.Grid(), result.Grid();
      var i := number;
      while i < result.height
        invariant Owns(i, number, threads)
        invariant source.Grid() == src
        invariant Progress(Kind.Shrink, src, dst, i, 0)
        decreases result.height - i
      {
        for j := 0 to result.width
          invariant source.Grid() == src
          invariant Progress(Kind.Shrink, src, dst, i, j)
        {
          ShrinkPixel(src, dst, i, j);
        }
        NextStride(i, number, threads);
        i := i + threads;
      }
      Finish(Kind.Shrink, src, dst, i);
    }

    /** doubleSize: each source pixel of this worker's rows is copied to its 2x2 destination block. */
    method DoubleSize()
      requires Ready(Kind.DoubleSize)
      modifies result.data
      ensures result.Grid() == WorkerStep(Kind.DoubleSize, luma, source.Grid(), old(result.Grid()), number, threads)
    {
      ghost var src, dst := source.Grid(), result.Grid();
      var i := number;
      while i < source.height
        invariant Owns(i, number, threads)
        invariant source.Grid() == src
        invariant Progress(Kind.DoubleSize, src, dst, i, 0)
        decreases source.height - i
      {
        for j := 0 to source.width
          invariant source.Grid() == src
          invariant Progress(Kind.DoubleSize, src, dst, i, j)
        {
          var temp := GetPixel(i, j);
          DoubleBlock(src, dst, i, j, temp);
        }
        NextStride(i, number, threads);
        i := i + threads;
      }
      Finish(Kind.DoubleSize, src, dst, i);
    }

    /** The four setPixel calls of one doubleSize iteration. */
    method DoubleBlock(ghost src: Image, ghost dst: Image, i: int, j: int, temp: seq<int>)
      requires Ready(Kind.DoubleSize) && src == source.Grid()
      requires dst.Valid() && dst.height == result.height && dst.width == result.width
      requires 0 <= i < source.height && 0 <= j < source.width && Owns(i, number, threads)
      requires temp == GetPixel(i, j)
      requires Progress(Kind.DoubleSize, src, dst, i, j)
      modifies result.data
      ensures Progress(Kind.DoubleSize, src, dst, i, j + 1)
    {
      PixelBytes(i, j);
      assert Partial(Kind.DoubleSize, src, dst, i, j, {});
      DoublePair(src, dst, i, j, {}, j * 2, temp);
      DoublePair(src, dst, i, j, {(i * 2, j * 2), (i * 2 + 1, j * 2)}, j * 2 + 1, temp);
      DoubleBlockDone(src, dst, i, j, {(i * 2, j * 2), (i * 2 + 1, j * 2), (i * 2, j * 2 + 1), (i * 2 + 1, j * 2 + 1)});
    }

    /** Two setPixel calls of a doubleSize iteration: destination pixel p of rows 2i and 2i+1. */
    method DoublePair(ghost src: Image, ghost dst: Image, i: int, j: int, ghost extra: set<(int, int)>, p: int, temp: seq<int>)
      requires Ready(Kind.DoubleSize) && src == source.Grid()
      requires dst.Valid() && dst.height == result.height && dst.width == result.width
      requires 0 <= i < source.height && 0 <= j < source.width && p / 2 == j && 0 <= p
      requires |temp| == 3
      requires ToByte(temp[0]) == src.rows[i][3 * j]
      requires ToByte(temp[1]) == src.rows[i][3 * j + 1]
      requires ToByte(temp[2]) == src.rows[i][3 * j + 2]
      requires Partial(Kind.DoubleSize, src, dst, i, j, extra)
      modifies result.data
      ensures Partial(Kind.DoubleSize, src, dst, i, j, extra + {(i * 2, p), (i * 2 + 1, p)})
    {
      DoubleStore(src, dst, i, j, extra, i * 2, p, temp);
      DoubleStore(src, dst, i, j, extra + {(i * 2, p)}, i * 2 + 1, p, temp);
      assert extra + {(i * 2, p)} + {(i * 2 + 1, p)} == extra + {(i * 2, p), (i * 2 + 1, p)};
    }

    /** One setPixel of a doubleSize iteration: destination pixel (r, p) of the block of source pixel (i, j). */
    method DoubleStore(ghost src: Image, ghost dst: Image, i: int, j: int, ghost extra: set<(int, int)>,
                       r: int, p: int, temp: seq<int>)
      requires Ready(Kind.DoubleSize) && src == source.Grid()
      requires dst.Valid() && dst.height == result.height && dst.width == result.width
      requires 0 <= i < source.height && 0 <= j < source.width && r / 2 == i && p / 2 == j && 0 <= r && 0 <= p
      requires |temp| == 3
      requires ToByte(temp[0]) == src.rows[i][3 * j]
      requires ToByte(temp[1]) == src.rows[i][3 * j + 1]
      requires ToByte(temp[2]) == src.rows[i][3 * j + 2]
      requires Partial(Kind.DoubleSize, src, dst, i, j, extra)
      modifies result.data
      ensures Partial(Kind.DoubleSize, src, dst, i, j, extra + {(r, p)})
    {
      SetPixel(r, p, temp[0], temp[1], temp[2]);
      DoubleAtPixel(src, r, p);
      PixelIndex(p, 0);
      PixelIndex(p, 1);
      PixelIndex(p, 2);
    }

    /**
     * Like Progress, and besides the bytes of the destination pixels in `extra` already hold
     * the kernel's value: the state in the middle of one iteration.
     */
    ghost predicate Partial(k: Kind, src: Image, dst: Image, i: int, j: int, extra: set<(int, int)>)
      reads result.data
      requires Ready(k) && src.Valid() && src.height == source.height && src.width == source.width
      requires dst.Valid() && dst.height == result.height && dst.width == result.width
    {
      forall r, c | 0 <= r < result.height && 0 <= c < 3 * result.width ::
        result.data[r, c]
          == if Done(k, src.width, number, threads, r, c, i, j) || (r, c / 3) in extra
             then Cell(k, luma, src, r, c) else dst.rows[r][c]
    }

    /** Once one doubleSize iteration has written its 2x2 block, the loops have reached (i, j + 1). */
    lemma DoubleBlockDone(src: Image, dst: Image, i: int, j: int, block: set<(int, int)>)
      requires Ready(Kind.DoubleSize) && src.Valid() && src.height == source.height && src.width == source.width
      requires dst.Valid() && dst.height == result.height && dst.width == result.width
      requires 0 <= i < source.height && 0 <= j < source.width && Owns(i, number, threads)
      requires block == {(2 * i, 2 * j), (2 * i + 1, 2 * j), (2 * i, 2 * j + 1), (2 * i + 1, 2 * j + 1)}
      requires Partial(Kind.DoubleSize, src, dst, i, j, block)
      ensures Progress(Kind.DoubleSize, src, dst, i, j + 1)
    {
      forall r, c | 0 <= r < result.height && 0 <= c < 3 * result.width
        ensures Done(Kind.DoubleSize, src.width, number, threads, r, c, i, j + 1)
          <==> Done(Kind.DoubleSize, src.width, number, threads, r, c, i, j) || (r, c / 3) in block
      {
      }
    }
    /** rotate: source pixel (i, j) of this worker's rows goes to destination pixel (width-1-j, i). */
    method Rotate()
      requires Ready(Kind.Rotate)
      modifies result.data
      ensures result.Grid() == WorkerStep(Kind.Rotate, luma, source.Grid(), old(result.Grid()), number, threads)
    {
      ghost var src, dst := source.Grid(), result.Grid();
      var i := number;
      while i < source.height
        invariant Owns(i, number, threads)
        invariant source.Grid() == src
        invariant Progress(Kind.Rotate, src, dst, i, 0)
        decreases source.height - i
      {
        for j := 0 to source.width
          invariant source.Grid() == src
          invariant Progress(Kind.Rotate, src, dst, i, j)
        {
          RotatePixel(src, dst, i, j);
        }
        NextStride(i, number, threads);
        i := i + threads;
      }
      Finish(Kind.Rotate, src, dst, i);
    }

    /** The body of blur's inner loop for pixel (i, j). */
    method BlurPixel(ghost src: Image, ghost dst: Image, i: int, j: int)
      requires Ready(Kind.Blur) && src == source.Grid()
      requires dst.Valid() && dst.height == result.height && dst.width == result.width
      requires 0 <= i < source.height && 0 <= j < source.width && Owns(i, number, threads)
      requires Progress(Kind.Blur, src, dst, i, j)
      modifies result.data
      ensures Progress(Kind.Blur, src, dst, i, j + 1)
    {
      var blueSum, greenSum, redSum, pixels := BlurWindow(i, j);
      BlurAtPixel(src, i, j);
      var blue, green, red := ToByte(blueSum / pixels), ToByte(greenSum / pixels), ToByte(redSum / pixels);
      ToByteOfByte(blue);
      ToByteOfByte(green);
      ToByteOfByte(red);
      StorePixel(Kind.Blur, src, dst, i, j, blue, green, red);
    }

    /** The body of mirror's inner loop for source pixel (i, j), written to pixel width-1-j. */
    method MirrorPixel(ghost src: Image, ghost dst: Image, i: int, j: int)
      requires Ready(Kind.Mirror) && src == source.Grid()
      requires dst.Valid() && dst.height == result.height && dst.width == result.width
      requires 0 <= i < source.height && 0 <= j < source.width && Owns(i, number, threads)
      requires Progress(Kind.Mirror, src, dst, i, source.width - 1 - j)
      modifies result.data
      ensures Progress(Kind.Mirror, src, dst, i, source.width - j)
    {
      var temp := GetPixel(i, j);
      var p := source.width - 1 - j;
      PixelBytes(i, j);
      MirrorAtPixel(src, i, p);
      StorePixel(Kind.Mirror, src, dst, i, p, temp[0], temp[1], temp[2]);
    }

    /** The body of shrink's inner loop for destination pixel (i, j). */
    method ShrinkPixel(ghost src: Image, ghost dst: Image, i: int, j: int)
      requires Ready(Kind.Shrink) && src == source.Grid()
      requires dst.Valid() && dst.height == result.height && dst.width == result.width
      requires 0 <= i < result.height && 0 <= j < result.width && Owns(i, number, threads)
      requires Progress(Kind.Shrink, src, dst, i, j)
      modifies result.data
      ensures Progress(Kind.Shrink, src, dst, i, j + 1)
    {
      var blueSum, greenSum, redSum := ShrinkBlock(src, i, j);
      ToByteOfByte(ToByte(blueSum / 4));
      ToByteOfByte(ToByte(greenSum / 4));
      ToByteOfByte(ToByte(redSum / 4));
      StorePixel(Kind.Shrink, src, dst, i, j, ToByte(blueSum / 4), ToByte(greenSum / 4), ToByte(redSum / 4));
    }

    /** The four getPixel calls of one shrink iteration: the channel sums of source block (2i, 2j). */
    method ShrinkBlock(ghost src: Image, i: int, j: int) returns (blueSum: int, greenSum: int, redSum: int)
      requires source.Valid() && src == source.Grid()
      requires 0 <= i < source.height / 2 && 0 <= j < source.width / 2
      ensures ToByte(blueSum / 4) == ShrinkAt(src, i, 3 * j)
      ensures ToByte(greenSum / 4) == ShrinkAt(src, i, 3 * j + 1)
      ensures ToByte(redSum / 4) == ShrinkAt(src, i, 3 * j + 2)
    {
      blueSum, greenSum, redSum := 0, 0, 0;
      var t0 := GetPixel(2 * i, 2 * j);
      blueSum, greenSum, redSum := blueSum + t0[0], greenSum + t0[1], redSum + t0[2];
      var t1 := GetPixel(2 * i + 1, 2 * j);
      blueSum, greenSum, redSum := blueSum + t1[0], greenSum + t1[1], redSum + t1[2];
      var t2 := GetPixel(2 * i, 2 * j + 1);
      blueSum, greenSum, redSum := blueSum + t2[0], greenSum + t2[1], redSum + t2[2];
      var t3 := GetPixel(2 * i + 1, 2 * j + 1);
      blueSum, greenSum, redSum := blueSum + t3[0], greenSum + t3[1], redSum + t3[2];
      PixelChannels(2 * i, 2 * j);
      PixelChannels(2 * i + 1, 2 * j);
      PixelChannels(2 * i, 2 * j + 1);
      PixelChannels(2 * i + 1, 2 * j + 1);
      ShrinkAtPixel(src, i, j, 0, t0[0], t1[0], t2[0], t3[0]);
      ShrinkAtPixel(src, i, j, 1, t0[1], t1[1], t2[1], t3[1]);
      ShrinkAtPixel(src, i, j, 2, t0[2], t1[2], t2[2], t3[2]);
      assert blueSum == t0[0] + t1[0] + t2[0] + t3[0];
      assert greenSum == t0[1] + t1[1] + t2[1] + t3[1];
      assert redSum == t0[2] + t1[2] + t2[2] + t3[2];
    }

    /**
     * setPixel(i, p, ...) for a kernel whose inner loop writes destination pixel p of row i at
     * step p, given the kernel's values for its three bytes.
     */
    method StorePixel(k: Kind, ghost src: Image, ghost dst: Image, i: int, p: int, blue: int, green: int, red: int)
      requires k == Kind.Grayscale || k == Kind.Blur || k == Kind.Mirror || k == Kind.Shrink
      requires Ready(k) && src == source.Grid()
      requires dst.Valid() && dst.height == result.height && dst.width == result.width
      requires 0 <= i < result.height && 0 <= p < result.width && Owns(i, number, threads)
      requires ToByte(blue) == Cell(k, luma, src, i, 3 * p)
      requires ToByte(green) == Cell(k, luma, src, i, 3 * p + 1)
      requires ToByte(red) == Cell(k, luma, src, i, 3 * p + 2)
      requires Progress(k, src, dst, i, p)
      modifies result.data
      ensures Progress(k, src, dst, i, p + 1)
    {
      SetPixel(i, p, blue, green, red);
      PixelIndex(p, 0);
      PixelIndex(p, 1);
      PixelIndex(p, 2);
    }

    /** The body of rotate's inner loop for source pixel (i, j). */
    method RotatePixel(ghost src: Image, ghost dst: Image, i: int, j: int)
      requires Ready(Kind.Rotate) && src == source.Grid()
      requires dst.Valid() && dst.height == result.height && dst.width == result.width
      requires 0 <= i < source.height && 0 <= j < source.width && Owns(i, number, threads)
      requires Progress(Kind.Rotate, src, dst, i, j)
      modifies result.data
      ensures Progress(Kind.Rotate, src, dst, i, j + 1)
    {
      var temp := GetPixel(i, j);
      PixelBytes(i, j);
      RotateAtPixel(src, result.height - j - 1, i);
      PixelIndex(i, 0);
      PixelIndex(i, 1);
      PixelIndex(i, 2);
      SetPixel(result.height - j - 1, i, temp[0], temp[1], temp[2]);
    }

    /** run: the kernel the command names; any other command does nothing. */
    method Run()
      requires KindOf(command).Some? ==> Ready(KindOf(command).value)
      modifies result.data
      ensures KindOf(command).None? ==> unchanged(result.data)
      ensures KindOf(command).Some? ==>
        result.Grid() == WorkerStep(KindOf(command).value, luma, source.Grid(), old(result.Grid()), number, threads)
    {
      match command
      case 'i' => Inverse();
      case 'g' => Grayscale();
      case 'b' => Blur();
      case 'h' => Mirror();
      case 's' => Shrink();
      case 'd' => DoubleSize();
      case 'r' => Rotate();
      case _ =>
    }
  }
}
