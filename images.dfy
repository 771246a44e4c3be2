/** The pixel grid shared by the codec and the kernels, as a value. */
module Images {
  import opened JavaTypes

  /**
   * height rows of 3*width bytes; pixel j of a row is bytes 3j, 3j+1, 3j+2 holding
   * blue, green and red (the layout of Bitmap.java's `byte[height][width*3]`).
   */
  datatype Image = Image(height: nat, width: nat, rows: seq<seq<Byte>>) {
    predicate Valid() {
      |rows| == height && forall r | 0 <= r < height :: |rows[r]| == 3 * width
    }
  }

  /** The image of the given size whose bytes are all zero, as `new byte[h][w*3]` allocates it. */
  function Zero(h: nat, w: nat): (im: Image)
    ensures im.Valid() && im.height == h && im.width == w
    ensures forall r, c | 0 <= r < h && 0 <= c < 3 * w :: im.rows[r][c] == 0
  {
    Image(h, w, seq(h, _ => seq(3 * w, _ => 0)))
  }

  /** Two valid images of the same size that agree on every byte are equal. */
  lemma Extensionality(a: Image, b: Image)
    requires a.Valid() && b.Valid() && a.height == b.height && a.width == b.width
    requires forall r, c | 0 <= r < a.height && 0 <= c < 3 * a.width :: a.rows[r][c] == b.rows[r][c]
    ensures a == b
  {
    forall r | 0 <= r < a.height
      ensures a.rows[r] == b.rows[r]
    {
    }
  }
}
