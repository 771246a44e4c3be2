/**
 * Manipulator.convert: allocate the destination bitmap the command calls for, create one worker
 * per thread number and run them all. The workers run one after the other here; the partition
 * lemmas of module Workers show that the order makes no difference.
 */
module Manipulators {
  import opened JavaTypes
  import opened Images
  import opened BitmapFormat
  import opened Bitmaps
  import opened Kernels
  import opened Workers
  import opened BitmapThreads

  /** The destination size convert needs, as a precondition: the grid for a known command can be allocated. */
  predicate Allocatable(b: Bitmap, command: char)
    requires b.Valid()
  {
    KindOf(command).Some? ==>
      var (h, w) := DestDims(KindOf(command).value, b.height, b.width);
      ValidDims(h, w)
  }

  /**
   * convert(b, command, numberOfThreads). An unknown command leaves `converted` null, and the
   * workers created for it do nothing, so null is returned. With no workers the destination keeps
   * its zero grid; with at least one, it holds the kernel's image of b.
   */
  method Convert(b: Bitmap, command: char, numberOfThreads: JInt, luma: Luma) returns (converted: Bitmap?)
    requires b.Valid() && numberOfThreads >= 0 && Allocatable(b, command)
    ensures KindOf(command).None? <==> converted == null
    ensures converted != null ==>
      var k := KindOf(command).value;
      var (h, w) := DestDims(k, b.height, b.width);
      && fresh(converted) && fresh(converted.data) && converted.Valid()
      && converted.HeaderView() == DefaultHeader(h, w)
      && converted.Grid() == if numberOfThreads == 0 then Zero(h, w) else Apply(k, luma, b.Grid())
    ensures b.Grid() == old(b.Grid())
  {
    converted := NewDestination(b, command);
    if converted == null {
      return;
    }
    ghost var k := KindOf(command).value;
    ghost var src, zero := b.Grid(), converted.Grid();
    var threads := NewWorkers(b, converted, command, numberOfThreads, luma);
    var workers := threads[..];
    for i := 0 to numberOfThreads
      invariant b.Grid() == src && b.data != converted.data
      invariant converted.Grid() == StartedWorkers(k, luma, src, zero, i, numberOfThreads)
    {
      workers[i].Run();
      RunRangeNext(k, luma, src, zero, i, numberOfThreads);
    }
    if numberOfThreads > 0 {
      forall n | 0 <= n < numberOfThreads
        ensures n in Range(numberOfThreads)
      {
        assert Range(numberOfThreads)[n] == n;
      }
      AllWorkersGiveKernel(k, luma, src, zero, Range(numberOfThreads), numberOfThreads);
    }
  }

  /** convert's switch: the destination bitmap of the command's size, or null for any other command. */
  method NewDestination(b: Bitmap, command: char) returns (converted: Bitmap?)
    requires b.Valid() && Allocatable(b, command)
    ensures KindOf(command).None? <==> converted == null
    ensures converted != null ==>
      var (h, w) := DestDims(KindOf(command).value, b.height, b.width);
      && fresh(converted) && fresh(converted.data) && converted.Valid()
      && converted.HeaderView() == DefaultHeader(h, w) && converted.Grid() == Zero(h, w)
  {
    converted := null;
    match command {
      case 'i' | 'g' | 'b' | 'h' =>
        converted := new Bitmap(b.height, b.width);
      case 's' =>
        converted := new Bitmap(b.height / 2, b.width / 2);
      case 'd' =>
        converted := new Bitmap(b.height * 2, b.width * 2);
      case 'r' =>
        converted := new Bitmap(b.width, b.height);
      case _ =>
    }
  }

  /** The loop creating `new BitmapThread(b, converted, command, i, numberOfThreads)` for each i. */
  method NewWorkers(b: Bitmap, converted: Bitmap, command: char, numberOfThreads: JInt, luma: Luma)
    returns (threads: array<BitmapThread>)
    requires numberOfThreads >= 0
    ensures fresh(threads) && threads.Length == numberOfThreads
    ensures forall n | 0 <= n < numberOfThreads ::
      (threads[n].source == b && threads[n].result == converted && threads[n].command == command
       && threads[n].number == n && threads[n].threads == numberOfThreads && threads[n].luma == luma)
  {
    var slots := new BitmapThread?[numberOfThreads];
    for i := 0 to numberOfThreads
      invariant forall n | 0 <= n < i ::
        (slots[n] != null && slots[n].source == b && slots[n].result == converted && slots[n].command == command
         && slots[n].number == n && slots[n].threads == numberOfThreads && slots[n].luma == luma)
    {
      slots[i] := new BitmapThread(b, converted, command, i, numberOfThreads, luma);
    }
    threads := new BitmapThread[numberOfThreads](n requires 0 <= n < numberOfThreads reads slots => slots[n]);
  }

  /** The destination once workers 0 .. i-1 of `threads` have run; with no workers, the start. */
  ghost function StartedWorkers(k: Kind, luma: Luma, src: Image, dst: Image, i: nat, threads: int): (im: Image)
    requires src.Valid() && dst.Valid() && Fits(k, src, dst) && threads >= 0
    ensures im.Valid() && im.height == dst.height && im.width == dst.width
  {
    if threads == 0 then dst else RunWorkers(k, luma, src, dst, Range(i), threads)
  }
}
