/**
 * Bitmap.java's object: the sixteen header fields it stores and its `byte[height][width*3]`
 * pixel grid, with the constructors, the byte accessors and writeToFile / readHeader / readData
 * over byte sequences in place of file streams.
 */
module Bitmaps {
  import opened JavaTypes
  import opened NumberCodec
  import opened Images
  import opened BitmapFormat

  /** readUnsignedNumber: fills a buffer of `bytes` bytes from position pos and decodes it. */
  method ReadUnsignedNumber(input: seq<Byte>, pos: nat, bytes: nat) returns (n: JInt, next: nat)
    requires bytes <= 4
    ensures n == ToInt(LittleEndian(Slice(input, pos, bytes))) && next == pos + bytes
  {
    var buffer := Slice(input, pos, bytes);
    n := BytesToNumber(buffer);
    next := pos + bytes;
  }

  /** The sixteen readUnsignedNumber calls of readHeader, in file order. */
  method ReadHeaderFields(input: seq<Byte>) returns (vs: seq<JInt>)
    ensures |vs| == |FIELD_WIDTHS|
    ensures forall f | 0 <= f < |FIELD_WIDTHS| :: vs[f] == FieldAt(input, f)
  {
    vs := [];
    var pos := 0;
    for f := 0 to |FIELD_WIDTHS|
      invariant |vs| == f && pos == FieldOffset(f)
      invariant forall g | 0 <= g < f :: vs[g] == FieldAt(input, g)
    {
      var n;
      n, pos := ReadUnsignedNumber(input, pos, FIELD_WIDTHS[f]);
      vs := vs + [n];
    }
  }

  class Bitmap {
    const type0: JChar
    const type1: JChar
    const size: JInt
    const reserved: JInt
    const offset: JInt
    const header: JInt
    const width: JInt
    const height: JInt
    const planes: JShort
    const bits: JShort
    const compression: JInt
    const dataSize: JInt
    const horizontalResolution: JInt
    const verticalResolution: JInt
    const colors: JInt
    const importantColors: JInt
    /** The pixel grid; its rows are updated in place, never replaced. */
    const data: array2<Byte>

    /**
     * The grid has `height` rows of `width*3` bytes, and both type characters fit the single byte
     * writeToFile gives each of them.
     */
    predicate Valid() {
      ValidDims(height, width) && data.Length0 == height && data.Length1 == 3 * width
      && type0 < TWO_8 && type1 < TWO_8
    }

    /** The stored header fields. */
    function HeaderView(): Header {
      Header(type0, type1, size, reserved, offset, header, width, height, planes, bits,
             compression, dataSize, horizontalResolution, verticalResolution, colors,
             importantColors)
    }

    function Row(r: int): (s: seq<Byte>)
      reads data
      requires Valid() && 0 <= r < height
      ensures |s| == 3 * width && forall c | 0 <= c < 3 * width :: s[c] == data[r, c]
    {
      seq(3 * width, c requires 0 <= c < 3 * width reads data => data[r, c])
    }

    /** The grid as a value. */
    function Grid(): (im: Image)
      reads data
      requires Valid()
      ensures im.Valid() && im.height == height && im.width == width
      ensures forall r, c | 0 <= r < height && 0 <= c < 3 * width :: im.rows[r][c] == data[r, c]
    {
      Image(height, width, seq(height, r requires 0 <= r < height reads data => Row(r)))
    }

    /** `new Bitmap(height, width)`: the default header and an all-zero grid. */
    constructor (height: JInt, width: JInt)
      requires ValidDims(height, width)
      ensures Valid() && fresh(data)
      ensures HeaderView() == DefaultHeader(height, width)
      ensures Grid() == Zero(height, width)
    {
      type0 := 'B' as int;
      type1 := 'M' as int;
      size := ToInt(width * 3 * height + 54);
      reserved := 0;
      offset := 54;
      header := 40;
      this.width := width;
      this.height := height;
      planes := 1;
      bits := 24;
      compression := 0;
      dataSize := ToInt(width * 3 * height);
      horizontalResolution := 72;
      verticalResolution := 72;
      colors := 0;
      importantColors := 0;
      data := new Byte[height, width * 3]((_, _) => 0);
      new;
      Extensionality(Grid(), Zero(height, width));
    }

    /** `new Bitmap(filename)`: readHeader, allocation of the grid, then readData. */
    constructor FromFile(input: seq<Byte>)
      requires Decodable(ParseHeader(input))
      ensures Valid() && fresh(data)
      ensures HeaderView() == ParseHeader(input)
      ensures Grid() == ParseImage(input, ParseHeader(input))
    {
      var vs := ReadHeaderFields(input);
      TypeCharsFitAByte(input);
      type0 := ToChar(vs[0]);
      type1 := ToChar(vs[1]);
      size := vs[2];
      reserved := vs[3];
      offset := vs[4];
      header := vs[5];
      width := vs[6];
      height := vs[7];
      planes := ToShort(vs[8]);
      bits := ToShort(vs[9]);
      compression := vs[10];
      dataSize := vs[11];
      horizontalResolution := vs[12];
      verticalResolution := vs[13];
      colors := vs[14];
      importantColors := vs[15];
      data := new Byte[vs[7], vs[6] * 3]((_, _) => 0);
      new;
      ReadData(input);
    }

    /** readData: skips `54 - offset` bytes, then reads each row and skips its padding. */
    method ReadData(input: seq<Byte>)
      requires Valid() && Decodable(HeaderView())
      modifies data
      ensures Grid() == ParseImage(input, HeaderView())
    {
      var start, stride := DataStart(HeaderView()), Stride(width);
      var pos := HEADER_SIZE + (HEADER_SIZE - offset);
      var i := 0;
      while i < height
        invariant 0 <= i <= height
        invariant pos == start + i * stride
        invariant forall r, c | 0 <= r < i && 0 <= c < 3 * width ::
          data[r, c] == ByteAt(input, start + r * stride + c)
      {
        for j := 0 to width * 3
          invariant forall r, c | 0 <= r < i && 0 <= c < 3 * width ::
            data[r, c] == ByteAt(input, start + r * stride + c)
          invariant forall c | 0 <= c < j :: data[i, c] == ByteAt(input, pos + c)
        {
          data[i, j] := ByteAt(input, pos + j);
        }
        pos := pos + width * 3;
        if (width * 3) % 4 != 0 {
          pos := pos + (4 - (width * 3) % 4);
        }
        assert (i + 1) * stride == i * stride + stride;
        i := i + 1;
      }
      Extensionality(Grid(), ParseImage(input, HeaderView()));
    }

    /** writeToFile: the sixteen header fields, each row followed by its padding, two zeros. */
    method WriteToFile() returns (out: seq<Byte>)
      requires Valid()
      ensures out == Encode(HeaderView(), Grid())
    {
      var vs := Fields(HeaderView());
      out := [];
      for f := 0 to |FIELD_WIDTHS|
        invariant out == HeaderPrefix(vs, f)
      {
        var bytes := NumberToBytes(vs[f], FIELD_WIDTHS[f]);
        out := out + bytes;
      }
      ghost var rows := Grid().rows;
      var pad := Padding(3 * width);
      for i := 0 to height
        invariant out == EncodeHeader(HeaderView()) + EncodeRows(rows[..i], pad)
      {
        ghost var before := out;
        out := out + Row(i);
        if (width * 3) % 4 != 0 {
          for j := 0 to 4 - (width * 3) % 4
            invariant out == before + rows[i] + Zeros(j)
          {
            out := out + [0];
          }
        }
        assert rows[..i + 1][..i] == rows[..i];
      }
      assert rows[..height] == rows;
      out := out + [0];
      out := out + [0];
    }

    function GetByte(row: int, column: int): (b: Byte)
      reads data
      requires Valid() && 0 <= row < height && 0 <= column < 3 * width
      ensures b == Grid().rows[row][column]
    {
      data[row, column]
    }

    /** setByte: changes exactly one byte of the grid. */
    method SetByte(row: int, column: int, b: Byte)
      requires Valid() && 0 <= row < height && 0 <= column < 3 * width
      modifies data
      ensures GetByte(row, column) == b
      ensures forall r, c | 0 <= r < height && 0 <= c < 3 * width && (r, c) != (row, column) ::
        data[r, c] == old(data[r, c])
    {
      data[row, column] := b;
    }
  }

  /**
   * A bitmap whose data starts at byte 54, written with writeToFile and read back with
   * `new Bitmap(file)`, has the same sixteen header fields and the same grid.
   */
  method WriteThenRead(b: Bitmap) returns (copy: Bitmap)
    requires b.Valid() && b.offset == HEADER_SIZE
    ensures copy.Valid() && copy.HeaderView() == b.HeaderView() && copy.Grid() == b.Grid()
  {
    var out := b.WriteToFile();
    DecodeEncode(b.HeaderView(), b.Grid());
    copy := new Bitmap.FromFile(out);
  }
}
