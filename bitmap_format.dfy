/**
 * The byte layout Bitmap.writeToFile writes and readHeader/readData read: a 54-byte header
 * (a BITMAPFILEHEADER followed by a 40-byte BITMAPINFOHEADER), then the rows, each padded to a
 * multiple of four bytes, then two zero bytes.
 */
module BitmapFormat {
  import opened JavaTypes
  import opened NumberCodec
  import opened Images

  const HEADER_SIZE: nat := 54

  /** The sixteen header fields, with the Java types Bitmap.java stores them in. */
  datatype Header = Header(
    type0: JChar, type1: JChar,
    size: JInt, reserved: JInt, offset: JInt, headerSize: JInt,
    width: JInt, height: JInt,
    planes: JShort, bits: JShort,
    compression: JInt, dataSize: JInt,
    horizontalResolution: JInt, verticalResolution: JInt,
    colors: JInt, importantColors: JInt)

  /** Byte width of each field, in the order the fields are written and read. */
  const FIELD_WIDTHS: seq<nat> := [1, 1, 4, 4, 4, 4, 4, 4, 2, 2, 4, 4, 4, 4, 4, 4]

  /** The field values in file order. */
  function Fields(h: Header): (vs: seq<JInt>)
    ensures |vs| == |FIELD_WIDTHS|
  {
    [h.type0, h.type1, h.size, h.reserved, h.offset, h.headerSize, h.width, h.height,
     h.planes, h.bits, h.compression, h.dataSize, h.horizontalResolution,
     h.verticalResolution, h.colors, h.importantColors]
  }

  /** Where field f starts: the widths of the fields before it, added up. */
  function FieldOffset(f: nat): nat
    requires f <= |FIELD_WIDTHS|
  {
    if f == 0 then 0 else FieldOffset(f - 1) + FIELD_WIDTHS[f - 1]
  }

  /** The header fields take exactly 54 bytes. */
  lemma HeaderIs54Bytes()
    ensures FieldOffset(|FIELD_WIDTHS|) == HEADER_SIZE
  {
    assert FieldOffset(2) == 2;
    assert FieldOffset(5) == 14;
    assert FieldOffset(8) == 26;
    assert FieldOffset(11) == 34;
    assert FieldOffset(14) == 46;
  }

  /** The default header `new Bitmap(height, width)` puts in place. */
  function DefaultHeader(height: JInt, width: JInt): Header {
    Header('B' as int, 'M' as int,
           ToInt(width * 3 * height + 54), 0, 54, 40,
           width, height, 1, 24, 0, ToInt(width * 3 * height),
           72, 72, 0, 0)
  }

  /** Dimensions Java can allocate as `new byte[height][width*3]` without `width*3` overflowing. */
  predicate ValidDims(height: int, width: int) {
    0 <= height < 0x8000_0000 && 0 <= width && 3 * width < 0x8000_0000
  }

  /** A header whose image belongs to it. */
  predicate Consistent(h: Header, im: Image) {
    ValidDims(h.height, h.width) && im.Valid() && im.height == h.height && im.width == h.width
  }

  // ---------------------------------------------------------------- encoding

  /** The bytes of the first n header fields, each as writeNumber writes it. */
  function HeaderPrefix(vs: seq<JInt>, n: nat): seq<Byte>
    requires |vs| == |FIELD_WIDTHS| && n <= |FIELD_WIDTHS|
  {
    if n == 0 then [] else HeaderPrefix(vs, n - 1) + NumberBytes(vs[n - 1], FIELD_WIDTHS[n - 1])
  }

  function EncodeHeader(h: Header): seq<Byte> {
    HeaderPrefix(Fields(h), |FIELD_WIDTHS|)
  }

  /** Number of zero bytes after a row of rowBytes bytes. */
  function Padding(rowBytes: nat): (p: nat)
    ensures p < 4 && (rowBytes + p) % 4 == 0
    ensures p == (4 - rowBytes % 4) % 4
  {
    if rowBytes % 4 != 0 then 4 - rowBytes % 4 else 0
  }

  function Zeros(k: nat): (z: seq<Byte>)
    ensures |z| == k && forall i | 0 <= i < k :: z[i] == 0
  {
    seq(k, _ => 0)
  }

  /** The rows, in order, each followed by pad zero bytes. */
  function EncodeRows(rows: seq<seq<Byte>>, pad: nat): seq<Byte> {
    if rows == [] then []
    else EncodeRows(rows[..|rows| - 1], pad) + rows[|rows| - 1] + Zeros(pad)
  }

  /** The whole file writeToFile produces from the stored header fields and the grid. */
  function Encode(h: Header, im: Image): seq<Byte>
    requires Consistent(h, im)
  {
    EncodeHeader(h) + EncodeRows(im.rows, Padding(3 * h.width)) + [0, 0]
  }

  // ---------------------------------------------------------------- decoding

  /**
   * The byte at position p of a file. Reads past the end leave Java's zero-initialised buffers
   * untouched, so a short file reads as if it went on with zero bytes.
   */
  function ByteAt(input: seq<Byte>, p: int): Byte {
    if 0 <= p < |input| then input[p] else 0
  }

  /** The k bytes a read at position p fills in. */
  function Slice(input: seq<Byte>, p: nat, k: nat): (s: seq<Byte>)
    ensures |s| == k && forall i | 0 <= i < k :: s[i] == ByteAt(input, p + i)
  {
    seq<Byte>(k, i => ByteAt(input, p + i))
  }

  /** The value readUnsignedNumber returns for field f. */
  function FieldAt(input: seq<Byte>, f: nat): JInt
    requires f < |FIELD_WIDTHS|
  {
    ToInt(LittleEndian(Slice(input, FieldOffset(f), FIELD_WIDTHS[f])))
  }

  /** A one-byte field reads back as a value in 0..255. */
  lemma ByteFieldFits(input: seq<Byte>, f: nat)
    requires f < |FIELD_WIDTHS| && FIELD_WIDTHS[f] == 1
    ensures 0 <= FieldAt(input, f) < TWO_8 && ToChar(FieldAt(input, f)) == FieldAt(input, f)
  {
    var u := LittleEndian(Slice(input, FieldOffset(f), 1));
    assert u < TWO_8 by { assert Pow256(1) == TWO_8; }
    ToIntOfInt(u);
  }

  /** readHeader reads each type character from a single byte, so both fit in a byte. */
  lemma TypeCharsFitAByte(input: seq<Byte>)
    ensures ParseHeader(input).type0 < TWO_8 && ParseHeader(input).type1 < TWO_8
  {
    ByteFieldFits(input, 0);
    ByteFieldFits(input, 1);
  }

  /** The header readHeader stores, with its `(char)` and `(short)` casts. */
  function ParseHeader(input: seq<Byte>): Header {
    Header(ToChar(FieldAt(input, 0)), ToChar(FieldAt(input, 1)),
           FieldAt(input, 2), FieldAt(input, 3), FieldAt(input, 4), FieldAt(input, 5),
           FieldAt(input, 6), FieldAt(input, 7),
           ToShort(FieldAt(input, 8)), ToShort(FieldAt(input, 9)),
           FieldAt(input, 10), FieldAt(input, 11), FieldAt(input, 12),
           FieldAt(input, 13), FieldAt(input, 14), FieldAt(input, 15))
  }

  /**
   * Headers readData handles as the model describes: the grid can be allocated and the skip
   * `54 - offset`, computed as a Java int without wrapping, is a forward skip.
   */
  predicate Decodable(h: Header) {
    ValidDims(h.height, h.width) && HEADER_SIZE - 0x8000_0000 < h.offset <= HEADER_SIZE
  }

  /** Where readData starts reading rows: it skips `54 - offset` bytes after the header. */
  function DataStart(h: Header): nat
    requires Decodable(h)
  {
    HEADER_SIZE + (HEADER_SIZE - h.offset)
  }

  /** Distance between the starts of two consecutive rows in the file. */
  function Stride(width: nat): nat {
    3 * width + Padding(3 * width)
  }

  /** The grid readData fills in: row i is read at DataStart + i * stride. */
  function ParseImage(input: seq<Byte>, h: Header): (im: Image)
    requires Decodable(h)
    ensures im.Valid() && im.height == h.height && im.width == h.width
  {
    var start, stride := DataStart(h), Stride(h.width);
    Image(h.height, h.width,
      seq(h.height, i requires 0 <= i < h.height =>
        seq<Byte>(3 * h.width, j => ByteAt(input, start + i * stride + j))))
  }

  // ---------------------------------------------------------------- properties

  /** Every padded row is a whole number of 4-byte words. */
  lemma StrideIsWordAligned(width: nat)
    ensures Stride(width) % 4 == 0 && 3 * width <= Stride(width) < 3 * width + 4
  {
  }

  /** Where header field f lands among the first n encoded fields. */
  lemma {:induction false} HeaderPrefixLayout(vs: seq<JInt>, n: nat, f: nat)
    requires |vs| == |FIELD_WIDTHS| && f < n <= |FIELD_WIDTHS|
    ensures |HeaderPrefix(vs, n)| == FieldOffset(n) && FieldOffset(f + 1) <= FieldOffset(n)
    ensures HeaderPrefix(vs, n)[FieldOffset(f)..FieldOffset(f + 1)] == NumberBytes(vs[f], FIELD_WIDTHS[f])
  {
    var p := HeaderPrefix(vs, n - 1);
    var q := NumberBytes(vs[n - 1], FIELD_WIDTHS[n - 1]);
    PrefixLength(vs, n - 1);
    assert HeaderPrefix(vs, n) == p + q;
    if f < n - 1 {
      HeaderPrefixLayout(vs, n - 1, f);
      SliceOfLeft(p, q, FieldOffset(f), FieldOffset(f + 1));
    } else {
      assert (p + q)[|p|..|p| + |q|] == q;
    }
  }

  /** A slice that lies inside the left operand of a concatenation. */
  lemma SliceOfLeft(p: seq<Byte>, q: seq<Byte>, a: nat, b: nat)
    requires a <= b <= |p|
    ensures (p + q)[a..b] == p[a..b]
  {
  }

  lemma {:induction false} PrefixLength(vs: seq<JInt>, n: nat)
    requires |vs| == |FIELD_WIDTHS| && n <= |FIELD_WIDTHS|
    ensures |HeaderPrefix(vs, n)| == FieldOffset(n)
  {
    if n > 0 {
      PrefixLength(vs, n - 1);
    }
  }

  /** The encoded header is 54 bytes long. */
  lemma EncodeHeaderLength(h: Header)
    ensures |EncodeHeader(h)| == HEADER_SIZE
  {
    PrefixLength(Fields(h), |FIELD_WIDTHS|);
    HeaderIs54Bytes();
  }

  /** Field f of an encoded file reads back as what writeNumber wrote for it. */
  lemma FieldReadsBack(h: Header, rest: seq<Byte>, f: nat)
    requires f < |FIELD_WIDTHS|
    ensures FieldAt(EncodeHeader(h) + rest, f)
         == ToInt(LittleEndian(NumberBytes(Fields(h)[f], FIELD_WIDTHS[f])))
  {
    var e := EncodeHeader(h) + rest;
    HeaderPrefixLayout(Fields(h), |FIELD_WIDTHS|, f);
    var o, k := FieldOffset(f), FIELD_WIDTHS[f];
    assert Slice(e, o, k) == EncodeHeader(h)[o..o + k];
  }

  lemma RoundTripChar(c: JChar)
    requires c < TWO_8
    ensures ToChar(ToInt(LittleEndian(NumberBytes(c, 1)))) == c
  {
    RoundTripNarrow(c, 1);
  }

  lemma RoundTripShort(s: JShort)
    ensures ToShort(ToInt(LittleEndian(NumberBytes(s, 2)))) == s
  {
    NumberBytesValue(s, 2);
    assert Pow256(2) == TWO_16;
    var q, v := s / TWO_16, s % TWO_16;
    DivModUnique(v - s, TWO_16, -q, 0);
    ToIntOfInt(v);
    ToShortMod(v, s);
    ToShortOfShort(s);
  }

  /** `(short)` depends only on the value modulo 2^16. */
  lemma ToShortMod(x: int, y: int)
    requires (x - y) % TWO_16 == 0
    ensures ToShort(x) == ToShort(y)
  {
    var d := (x - y) / TWO_16;
    DivModUnique(x - y, TWO_16, d, 0);
    ModDiffMultiple(ToShort(x) - x, ToShort(y) - y, d, TWO_16);
    CongruentEqual(ToShort(x), ToShort(y), TWO_16);
  }

  /** readHeader recovers every field writeToFile wrote, provided the two type characters fit a byte. */
  lemma HeaderRoundTrip(h: Header, rest: seq<Byte>)
    requires h.type0 < TWO_8 && h.type1 < TWO_8
    ensures ParseHeader(EncodeHeader(h) + rest) == h
  {
    var e := EncodeHeader(h) + rest;
    forall f | 0 <= f < |FIELD_WIDTHS|
      ensures FieldAt(e, f) == ToInt(LittleEndian(NumberBytes(Fields(h)[f], FIELD_WIDTHS[f])))
    {
      FieldReadsBack(h, rest, f);
    }
    RoundTripChar(h.type0);
    RoundTripChar(h.type1);
    RoundTripShort(h.planes);
    RoundTripShort(h.bits);
    RoundTripInt(h.size);
    RoundTripInt(h.reserved);
    RoundTripInt(h.offset);
    RoundTripInt(h.headerSize);
    RoundTripInt(h.width);
    RoundTripInt(h.height);
    RoundTripInt(h.compression);
    RoundTripInt(h.dataSize);
    RoundTripInt(h.horizontalResolution);
    RoundTripInt(h.verticalResolution);
    RoundTripInt(h.colors);
    RoundTripInt(h.importantColors);
  }

  /** The encoded rows take one stride per row. */
  lemma {:induction false} EncodeRowsLength(rows: seq<seq<Byte>>, w3: nat, pad: nat)
    requires forall i | 0 <= i < |rows| :: |rows[i]| == w3
    ensures |EncodeRows(rows, pad)| == |rows| * (w3 + pad)
  {
    if rows != [] {
      var n := |rows| - 1;
      EncodeRowsLength(rows[..n], w3, pad);
      assert (n + 1) * (w3 + pad) == n * (w3 + pad) + (w3 + pad);
    }
  }

  /** Byte j of encoded row i is the grid byte, or zero in the padding. */
  lemma {:induction false} EncodeRowsAt(rows: seq<seq<Byte>>, w3: nat, pad: nat, stride: nat, i: nat, j: nat)
    requires forall k | 0 <= k < |rows| :: |rows[k]| == w3
    requires stride == w3 + pad && i < |rows| && j < stride
    ensures i * stride + j < |EncodeRows(rows, pad)|
    ensures EncodeRows(rows, pad)[i * stride + j] == if j < w3 then rows[i][j] else 0
  {
    var n := |rows| - 1;
    var prefix := EncodeRows(rows[..n], pad);
    EncodeRowsLength(rows[..n], w3, pad);
    assert EncodeRows(rows, pad) == prefix + rows[n] + Zeros(pad);
    if i < n {
      EncodeRowsAt(rows[..n], w3, pad, stride, i, j);
    } else {
      assert i * stride == |prefix|;
    }
  }

  /** The file length: 54 header bytes, every padded row, then two trailing bytes. */
  lemma EncodeLength(h: Header, im: Image)
    requires Consistent(h, im)
    ensures |Encode(h, im)| == HEADER_SIZE + h.height * Stride(h.width) + 2
    ensures Encode(h, im)[|Encode(h, im)| - 2..] == [0, 0]
  {
    EncodeHeaderLength(h);
    EncodeRowsLength(im.rows, 3 * h.width, Padding(3 * h.width));
  }

  /** Each encoded row holds the grid bytes followed by zero padding. */
  lemma EncodeRowBytes(h: Header, im: Image, i: nat, j: nat)
    requires Consistent(h, im) && i < h.height && j < Stride(h.width)
    ensures HEADER_SIZE + i * Stride(h.width) + j < |Encode(h, im)|
    ensures Encode(h, im)[HEADER_SIZE + i * Stride(h.width) + j]
         == if j < 3 * h.width then im.rows[i][j] else 0
  {
    var pad := Padding(3 * h.width);
    var hd, body := EncodeHeader(h), EncodeRows(im.rows, pad);
    EncodeHeaderLength(h);
    EncodeRowsAt(im.rows, 3 * h.width, pad, Stride(h.width), i, j);
    var k := i * Stride(h.width) + j;
    MiddleAt(hd, body, [0, 0], k);
  }

  /** Byte k of the middle part of a three-part concatenation. */
  lemma MiddleAt(a: seq<Byte>, b: seq<Byte>, c: seq<Byte>, k: nat)
    requires k < |b|
    ensures |a| + k < |a + b + c| && (a + b + c)[|a| + k] == b[k]
  {
  }

  /** A 1x1 image: 54 header bytes, 3 pixel bytes and one padding byte, 2 trailing bytes. */
  lemma OnePixelFileIs60Bytes(h: Header, im: Image)
    requires Consistent(h, im) && h.width == 1 && h.height == 1
    ensures |Encode(h, im)| == 60
  {
    EncodeLength(h, im);
  }

  /**
   * Decoding what writeToFile wrote, when the header says the data starts at byte 54, gives back
   * every header field and the whole grid.
   */
  lemma DecodeEncode(h: Header, im: Image)
    requires Consistent(h, im) && h.offset == HEADER_SIZE
    requires h.type0 < TWO_8 && h.type1 < TWO_8
    ensures ParseHeader(Encode(h, im)) == h
    ensures Decodable(h) && ParseImage(Encode(h, im), h) == im
  {
    var pad := Padding(3 * h.width);
    assert Encode(h, im) == EncodeHeader(h) + (EncodeRows(im.rows, pad) + [0, 0]);
    HeaderRoundTrip(h, EncodeRows(im.rows, pad) + [0, 0]);
    var d := ParseImage(Encode(h, im), h);
    forall i, j | 0 <= i < h.height && 0 <= j < 3 * h.width
      ensures d.rows[i][j] == im.rows[i][j]
    {
      ParseEncodedByte(h, im, i, j);
    }
    Extensionality(d, im);
  }

  lemma ParseEncodedByte(h: Header, im: Image, i: nat, j: nat)
    requires Consistent(h, im) && h.offset == HEADER_SIZE
    requires i < h.height && j < 3 * h.width
    ensures ParseImage(Encode(h, im), h).rows[i][j] == im.rows[i][j]
  {
    EncodeRowBytes(h, im, i, j);
    ParseImageAt(Encode(h, im), h, i, j);
  }

  /** readData's byte (i, j) is the input byte at row i's start plus j. */
  lemma ParseImageAt(input: seq<Byte>, h: Header, i: nat, j: nat)
    requires Decodable(h) && i < h.height && j < 3 * h.width
    ensures ParseImage(input, h).rows[i][j] == ByteAt(input, DataStart(h) + i * Stride(h.width) + j)
  {
  }
}
