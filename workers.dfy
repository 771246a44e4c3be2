/**
 * The strided row rule every kernel loop shares (`for (i = number; i < bound; i += threads)`)
 * and the sequential composition of the workers convert starts.
 */
module Workers {
  import opened JavaTypes
  import opened Images
  import opened Kernels

  /** Worker `number` of `threads` visits row i: i is number, number + threads, number + 2*threads, ... */
  predicate Owns(i: int, number: int, threads: int)
    requires threads >= 1
  {
    number <= i && (i - number) % threads == 0
  }

  /**
   * The loop position (row of the outer loop, index of the inner loop) at which kernel k writes
   * destination byte c of row r; w is the source width. The row is the one the strided rule
   * hands out.
   */
  function Pos(k: Kind, w: int, r: int, c: int): (int, int) {
    match k
    case Inverse => (r, c)
    case DoubleSize => (r / 2, c / 3 / 2)
    case Rotate => (c / 3, w - 1 - r)
    case _ => (r, c / 3)
  }

  /** The outer-loop row that writes destination byte (r, c). */
  function Domain(k: Kind, w: int, r: int, c: int): int {
    Pos(k, w, r, c).0
  }

  /** Whether byte (r, c) has been written once the loops have reached position (i, j). */
  predicate Done(k: Kind, w: int, number: int, threads: int, r: int, c: int, i: int, j: int)
    requires threads >= 1
  {
    var (row, col) := Pos(k, w, r, c);
    Owns(row, number, threads) && (row < i || (row == i && col < j))
  }

  /** The destination after worker `number` has run kernel k over its rows. */
  function WorkerStep(k: Kind, luma: Luma, src: Image, dst: Image, number: int, threads: int): (im: Image)
    requires src.Valid() && dst.Valid() && Fits(k, src, dst) && threads >= 1
    ensures im.Valid() && im.height == dst.height && im.width == dst.width
  {
    Image(dst.height, dst.width, seq(dst.height, r requires 0 <= r < dst.height =>
      seq(3 * dst.width, c requires 0 <= c < 3 * dst.width =>
        if Owns(Domain(k, src.width, r, c), number, threads) then Cell(k, luma, src, r, c) else dst.rows[r][c])))
  }

  /** The destination after the workers of `order` have run one after the other. */
  function RunWorkers(k: Kind, luma: Luma, src: Image, dst: Image, order: seq<int>, threads: int): (im: Image)
    requires src.Valid() && dst.Valid() && Fits(k, src, dst) && threads >= 1
    ensures im.Valid() && im.height == dst.height && im.width == dst.width
    decreases |order|
  {
    if order == [] then dst
    else
      var last := |order| - 1;
      WorkerStep(k, luma, src, RunWorkers(k, luma, src, dst, order[..last], threads), order[last], threads)
  }

  /** The worker numbers 0 .. n-1 in the order convert creates them. */
  function Range(n: nat): (s: seq<int>)
    ensures |s| == n && forall i | 0 <= i < n :: s[i] == i
  {
    seq(n, i => i)
  }

  /** Running workers 0 .. i is running workers 0 .. i-1, then worker i. */
  lemma RunRangeNext(k: Kind, luma: Luma, src: Image, dst: Image, i: nat, threads: int)
    requires src.Valid() && dst.Valid() && Fits(k, src, dst) && threads >= 1
    ensures RunWorkers(k, luma, src, dst, Range(i + 1), threads)
         == WorkerStep(k, luma, src, RunWorkers(k, luma, src, dst, Range(i), threads), i, threads)
  {
    assert Range(i + 1)[..i] == Range(i);
  }

  // ---------------------------------------------------------------- the strided rule

  /** For a worker number below the count, the rule is "row i modulo threads is number". */
  lemma OwnsIsResidue(i: int, number: int, threads: int)
    requires 0 <= i && 0 <= number < threads
    ensures Owns(i, number, threads) <==> i % threads == number
  {
    var q := i / threads;
    if Owns(i, number, threads) {
      var t := (i - number) / threads;
      DivModUnique(i, threads, t, number);
    } else if i % threads == number {
      DivModUnique(i - number, threads, q, 0);
    }
  }

  /** Every row belongs to exactly one of the workers 0 .. threads-1. */
  lemma RowsPartition(i: int, threads: int)
    requires 0 <= i && threads >= 1
    ensures 0 <= i % threads < threads && Owns(i, i % threads, threads)
    ensures forall n | 0 <= n < threads && Owns(i, n, threads) :: n == i % threads
  {
    OwnsIsResidue(i, i % threads, threads);
    forall n | 0 <= n < threads && Owns(i, n, threads)
      ensures n == i % threads
    {
      OwnsIsResidue(i, n, threads);
    }
  }

  /** Two different workers never write the same destination byte. */
  lemma DisjointWrites(k: Kind, w: int, r: int, c: int, n1: int, n2: int, threads: int)
    requires 0 <= r && 0 <= c && threads >= 1 && 0 <= n1 < threads && 0 <= n2 < threads
    requires Owns(Domain(k, w, r, c), n1, threads) && Owns(Domain(k, w, r, c), n2, threads)
    ensures n1 == n2
  {
    RowsPartition(Domain(k, w, r, c), threads);
  }

  /** A worker's next row is `threads` further on: none of its rows lies in between. */
  lemma NextStride(i: int, number: int, threads: int)
    requires threads >= 1 && Owns(i, number, threads)
    ensures Owns(i + threads, number, threads)
    ensures forall r | Owns(r, number, threads) && i < r :: i + threads <= r
  {
    var q := (i - number) / threads;
    DivModUnique(i - number, threads, q, 0);
    DivModUnique(i + threads - number, threads, q + 1, 0);
    forall r | Owns(r, number, threads) && i < r
      ensures i + threads <= r
    {
      var a, b := (i - number) / threads, (r - number) / threads;
      DivModUnique(i - number, threads, a, 0);
      DivModUnique(r - number, threads, b, 0);
      assert (b - a) * threads == r - i;
      if b - a <= 0 {
        MulLeftInt(b - a, 0, threads);
      }
      MulAtLeast(b - a, threads);
    }
  }

  // ---------------------------------------------------------------- composing the workers

  /** After the workers of `order`, a byte holds the kernel's value iff one of them owns its row. */
  lemma {:induction false} RunWorkersCell(k: Kind, luma: Luma, src: Image, dst: Image, order: seq<int>, threads: int, r: int, c: int)
    requires src.Valid() && dst.Valid() && Fits(k, src, dst) && threads >= 1
    requires 0 <= r < dst.height && 0 <= c < 3 * dst.width
    ensures RunWorkers(k, luma, src, dst, order, threads).rows[r][c]
         == if exists n | n in order :: Owns(Domain(k, src.width, r, c), n, threads)
            then Cell(k, luma, src, r, c) else dst.rows[r][c]
    decreases |order|
  {
    if order != [] {
      var last := |order| - 1;
      RunWorkersCell(k, luma, src, dst, order[..last], threads, r, c);
      var d := Domain(k, src.width, r, c);
      if exists n | n in order :: Owns(d, n, threads) {
        var n :| n in order && Owns(d, n, threads);
        if n != order[last] {
          assert n in order[..last];
        }
      } else {
        forall n | n in order[..last]
          ensures !Owns(d, n, threads)
        {
          assert n in order;
        }
      }
    }
  }

  /**
   * Whatever the destination held before, once every worker 0 .. threads-1 has run, in any
   * order and even more than once, it holds the kernel's image.
   */
  lemma AllWorkersGiveKernel(k: Kind, luma: Luma, src: Image, dst: Image, order: seq<int>, threads: int)
    requires src.Valid() && dst.Valid() && Fits(k, src, dst) && threads >= 1
    requires forall n | 0 <= n < threads :: n in order
    ensures RunWorkers(k, luma, src, dst, order, threads) == Apply(k, luma, src)
  {
    var im := RunWorkers(k, luma, src, dst, order, threads);
    var a := Apply(k, luma, src);
    forall r, c | 0 <= r < im.height && 0 <= c < 3 * im.width
      ensures im.rows[r][c] == a.rows[r][c]
    {
      RunWorkersCell(k, luma, src, dst, order, threads, r, c);
      var d := Domain(k, src.width, r, c);
      assert 0 <= d;
      RowsPartition(d, threads);
      assert d % threads in order;
    }
    Extensionality(im, a);
  }

  /** The result does not depend on how many workers share the rows. */
  lemma WorkerCountIrrelevant(k: Kind, luma: Luma, src: Image, dst: Image, t1: int, t2: int)
    requires src.Valid() && dst.Valid() && Fits(k, src, dst) && t1 >= 1 && t2 >= 1
    ensures RunWorkers(k, luma, src, dst, Range(t1), t1) == RunWorkers(k, luma, src, dst, Range(t2), t2)
  {
    assert forall n | 0 <= n < t1 :: n in Range(t1) by {
      forall n | 0 <= n < t1 ensures n in Range(t1) { assert Range(t1)[n] == n; }
    }
    assert forall n | 0 <= n < t2 :: n in Range(t2) by {
      forall n | 0 <= n < t2 ensures n in Range(t2) { assert Range(t2)[n] == n; }
    }
    AllWorkersGiveKernel(k, luma, src, dst, Range(t1), t1);
    AllWorkersGiveKernel(k, luma, src, dst, Range(t2), t2);
  }

  /** Two workers' steps can be run in either order. */
  lemma WorkersCommute(k: Kind, luma: Luma, src: Image, dst: Image, n1: int, n2: int, threads: int)
    requires src.Valid() && dst.Valid() && Fits(k, src, dst) && threads >= 1
    ensures WorkerStep(k, luma, src, WorkerStep(k, luma, src, dst, n1, threads), n2, threads)
         == WorkerStep(k, luma, src, WorkerStep(k, luma, src, dst, n2, threads), n1, threads)
  {
    var a := WorkerStep(k, luma, src, WorkerStep(k, luma, src, dst, n1, threads), n2, threads);
    var b := WorkerStep(k, luma, src, WorkerStep(k, luma, src, dst, n2, threads), n1, threads);
    Extensionality(a, b);
  }
}
