# BitmapManipulator in Dafny

A model of the core of a small Java program that reads a 24-bit Windows BMP file, transforms it
with one of seven pixel kernels on several worker threads, and writes it back. The model has three parts:

* **The BMP codec of `Bitmap.java`.**
  - A `Bitmap` class holds the sixteen header fields and the `byte[height][width*3]` pixel grid, an `array2<Byte>` updated in place by `setByte`.
  - `bytesToNumber` and `numberToBytes` are loops over Java signed bytes.
  - `writeToFile` produces a byte sequence. Its 54-byte header is a BITMAPFILEHEADER followed by a 40-byte BITMAPINFOHEADER. Then come the rows, each padded to a multiple of four bytes, then two zero bytes.
  - `new Bitmap(file)` (readHeader, then readData) consumes a byte sequence.
  - Pure reference functions (`BitmapFormat.Encode`, `ParseHeader`, `ParseImage`) specify the methods. Lemmas prove the layout: lengths, padding and the decode-after-encode round trip.
* **The seven kernels of `BitmapThread.java`:** inverse, grayscale, blur, mirror, shrink, doubleSize and rotate.
  - Each is a method with the source's strided outer loop (`i = number; i < bound; i += threads`) and its inner loop.
  - Each is proved to leave the destination equal to `Workers.WorkerStep`. That function states that every destination byte derived from a row this worker owns holds the kernel's reference value (`Kernels.Cell`), and every other byte is unchanged.
  - Module `KernelLaws` proves the kernels' algebra: inverse and mirror are involutions, shrink undoes doubleSize, four rotations are the identity, blur stays within its window's range, and grayscale is uniform per pixel.
* **`Manipulator.convert`.**
  - `Convert` allocates the destination the command calls for and creates workers `0 .. numberOfThreads-1`.
  - It runs them one after the other, and is proved to return the kernel's whole image of the source.
  - Module `Workers` proves that the strided row sets partition the rows and that workers write disjoint bytes. The result therefore does not depend on the worker count or on the order the workers run in.

Java's integer types are explicit (module `JavaTypes`):
* `Byte` is the signed range -128..127.
* `ToByte`, `ToShort`, `ToChar` and `ToInt` are the narrowing casts and the 32-bit wrap.
* `Unsigned` is the `+256` correction the source applies to negative bytes.

Notes on the code as written, which the model follows:
* Grayscale's formula puts the weight 0.3 on `temp[2]`. That is red, since a pixel is stored blue, green, red.
* Blur's window covers rows `i-2 .. i+1` and columns `j-2 .. j+1`: four by four, clipped at the edges, although a comment calls it 5x5.
* `writeToFile` writes the header fields the object holds. It does not recompute `size` or `dataSize`, so a bitmap read from a file is written back with that file's header values.
* `readData` ignores the count `read` returns, and on a short file leaves the zeros the buffers were allocated with. Decoding therefore reads a short input as if it went on with zero bytes (`BitmapFormat.ByteAt`).
* For an unknown command `convert` leaves `converted` null. The workers it creates then do nothing, and null is returned. With zero workers the untouched zero bitmap is returned.

## Model

| member | source | states |
|---|---|---|
| JavaTypes.Unsigned | BitmapThread.java:210-215 | the `+256` correction of a negative byte, also applied at Bitmap.java:222-224: the result is in 0..255 and congruent to the byte modulo 256 |
| JavaTypes.ToByte | BitmapThread.java:193-195 | the `(byte)` cast, also used at BitmapThread.java:64, 106 and 151 and at Bitmap.java:246: a signed byte congruent to its argument modulo 256 |
| JavaTypes.ToShort | Bitmap.java:159-160 | the `(short)` cast on planes and bits: a signed 16-bit value congruent to its argument modulo 2^16 |
| JavaTypes.ToChar | Bitmap.java:152-153 | the `(char)` cast on the type characters: an unsigned 16-bit value congruent to its argument modulo 2^16 |
| JavaTypes.ToInt | Bitmap.java:225 | Java int arithmetic, as in `sum += temp2 << 8*i`: the 32-bit two's complement value congruent to the exact result modulo 2^32 |
| Images.Zero | Bitmap.java:51 | the grid `new byte[height][width*3]` allocates: height rows of width*3 bytes, all zero |
| NumberCodec.BytesToNumber | Bitmap.java:219-228 | the result is the Java-int wrap of the little-endian value of the bytes, each byte read as 0..255 |
| NumberCodec.NumberToBytes | Bitmap.java:238-249 | returns `size` bytes in which byte i, read unsigned, is digit i (least significant first) of the number's 32-bit pattern |
| NumberCodec.LeBytesValue | Bitmap.java:238-249 | the first k base-256 digits of u, read back little-endian, give u mod 256^k |
| NumberCodec.NumberBytesValue | Bitmap.java:238-249 | numberToBytes(n, k) read back little-endian is n mod 256^k |
| NumberCodec.PowAdd | Bitmap.java:224-225 | helper for the codec proofs: the byte weights multiply, 256^(a+b) = 256^a * 256^b |
| NumberCodec.RoundTripInt | Bitmap.java:219-249 | bytesToNumber(numberToBytes(n, 4)) == n for every int n, negative ones included |
| NumberCodec.RoundTripNarrow | Bitmap.java:219-249 | bytesToNumber(numberToBytes(n, k)) == n for k in {1, 2} and 0 <= n < 256^k |
| BitmapFormat.DefaultHeader | Bitmap.java:33-49 | the header `new Bitmap(height, width)` stores: 'B', 'M', size = width*3*height+54 and dataSize = width*3*height, both wrapped to a Java int, offset 54, header 40, planes 1, bits 24, resolutions 72, zeros elsewhere |
| BitmapFormat.Padding | Bitmap.java:96-98 | the number of zero bytes after each row: below 4, it makes the padded row a multiple of 4, and it is `4 - rowBytes % 4` unless rowBytes is already a multiple of 4 |
| BitmapFormat.Encode | Bitmap.java:72-103 | the bytes writeToFile writes: the encoded header, each grid row followed by its padding, then two zero bytes |
| BitmapFormat.FieldAt | Bitmap.java:151-168 | the value readUnsignedNumber returns for header field f: the Java-int wrap of the little-endian value of the field's bytes at its offset, zero-extended past the end of the input |
| BitmapFormat.ParseHeader | Bitmap.java:151-168 | the header readHeader stores: the sixteen fields decoded little-endian at their offsets, with `(char)` casts on the type characters and `(short)` casts on planes and bits |
| BitmapFormat.ParseImage | Bitmap.java:175-184 | the grid readData fills: row i is the `width*3` bytes starting at 54 + (54 - offset) + i*paddedRow, with zeros past the end of the input |
| BitmapFormat.HeaderIs54Bytes | Bitmap.java:75-90 | the sixteen field widths 1,1,4,4,4,4,4,4,2,2,4,4,4,4,4,4 add up to 54 bytes |
| BitmapFormat.HeaderPrefixLayout | Bitmap.java:75-90 | the bytes of field f land at the sum of the widths before it, whatever follows |
| BitmapFormat.EncodeHeaderLength | Bitmap.java:75-90 | the encoded header is exactly 54 bytes |
| BitmapFormat.FieldReadsBack | Bitmap.java:151-167 | reading field f from an encoded file gives the value of the bytes written for field f |
| BitmapFormat.RoundTripChar | Bitmap.java:75-76 | a type character below 256 survives writeNumber(c, 1) followed by the `(char)` read |
| BitmapFormat.RoundTripShort | Bitmap.java:83-84 | every short survives writeNumber(s, 2) followed by the `(short)` read |
| BitmapFormat.HeaderRoundTrip | Bitmap.java:151-168 | readHeader recovers all sixteen fields writeToFile wrote, provided both type characters fit a byte |
| BitmapFormat.StrideIsWordAligned | Bitmap.java:93-99 | a padded row is a multiple of four bytes and at most three bytes longer than its `width*3` data bytes |
| BitmapFormat.EncodeRowsLength | Bitmap.java:93-99 | the rows section takes one padded row length per row |
| BitmapFormat.EncodeRowsAt | Bitmap.java:93-99 | byte j of row i of the rows section is grid byte j, or zero in the padding |
| BitmapFormat.EncodeLength | Bitmap.java:72-103 | the file is 54 + height * paddedRow + 2 bytes long and ends with two zero bytes |
| BitmapFormat.EncodeRowBytes | Bitmap.java:93-99 | file byte 54 + i*paddedRow + j is grid byte (i, j) for j < width*3, and zero after it |
| BitmapFormat.OnePixelFileIs60Bytes | Bitmap.java:72-103 | a 1x1 image encodes to 60 bytes |
| BitmapFormat.ParseEncodedByte | Bitmap.java:175-184 | readData, on an encoded file with offset 54, reads back grid byte (i, j) |
| BitmapFormat.ParseImageAt | Bitmap.java:175-184 | readData's byte (i, j) is the input byte at row i's start in the file plus j, or zero past the end |
| BitmapFormat.DecodeEncode | Bitmap.java:59-65 | decoding writeToFile's output with offset 54 recovers every header field and the whole grid, provided both type characters fit a byte (every `Bitmap` satisfies this) |
| BitmapFormat.ByteFieldFits | Bitmap.java:152-153 | a field read from one byte is in 0..255, so the `(char)` cast keeps it |
| BitmapFormat.TypeCharsFitAByte | Bitmap.java:152-153 | both type characters readHeader stores are below 256 |
| Bitmaps.ReadUnsignedNumber | Bitmap.java:194-198 | reads `bytes` bytes at the position, decodes them with bytesToNumber and advances the position by `bytes` |
| Bitmaps.ReadHeaderFields | Bitmap.java:151-168 | the sixteen reads in file order return, for each field, the value at that field's offset |
| Bitmaps.Bitmap.constructor | Bitmap.java:33-52 | the default header ('B', 'M', size = width*3*height+54, offset 54, header 40, planes 1, bits 24, dataSize = width*3*height, resolutions 72, zeros elsewhere) and a height x width*3 grid of zeros |
| Bitmaps.Bitmap.FromFile | Bitmap.java:59-65 | the stored header is the parsed header and the grid is the parsed image |
| Bitmaps.Bitmap.ReadData | Bitmap.java:175-184 | after skipping `54 - offset` bytes, row i of the grid is the `width*3` bytes at DataStart + i*paddedRow |
| Bitmaps.WriteThenRead | Bitmap.java:59-103 | a bitmap whose offset is 54, written by writeToFile and read back by `new Bitmap(file)`, has the same sixteen header fields and the same grid |
| Bitmaps.Bitmap.WriteToFile | Bitmap.java:72-103 | the bytes written are Encode of the stored header fields and the grid |
| Bitmaps.Bitmap.GetByte | Bitmap.java:142-144 | returns grid byte (row, column) |
| Bitmaps.Bitmap.SetByte | Bitmap.java:130-132 | a following getByte(row, column) returns b, and every other byte is unchanged |
| Kernels.KindOf | BitmapThread.java:30-55 | the kernel run's switch selects is the one whose command is the character |
| Kernels.KindOfCommand | BitmapThread.java:30-55 | a command selects kernel k exactly when it is k's command character |
| Kernels.DestDims | Manipulator.java:76-89 | the size convert allocates: half height and half width for shrink, double both for doubleSize, swapped for rotate, unchanged for the other four kernels |
| Kernels.InvertAt | BitmapThread.java:64 | inverse's byte: `(byte)(255 - b)` of the signed source byte b |
| Kernels.GrayAt | BitmapThread.java:76-78 | grayscale's byte: the formula applied to the pixel's unsigned blue, green and red, narrowed, in every channel |
| Kernels.InBounds | BitmapThread.java:97 | blur's corner check: (k, m) is a pixel of the source image |
| Kernels.BlurAt | BitmapThread.java:90-106 | blur's byte: the channel's sum over the in-bounds pixels of rows r-2 .. r+1 and columns j-2 .. j+1, divided by their count, narrowed |
| Kernels.MirrorAt | BitmapThread.java:116-118 | mirror's byte: the same channel of source pixel width-1-j in the same row |
| Kernels.ShrinkAt | BitmapThread.java:130-151 | shrink's byte: the truncated quarter of the channel's four unsigned values in the source block rows 2r, 2r+1 and columns 2j, 2j+1, narrowed |
| Kernels.DoubleAt | BitmapThread.java:161-166 | doubleSize's byte: the same channel of source pixel (r/2, j/2) |
| Kernels.RotateAt | BitmapThread.java:176-179 | rotate's byte: the same channel of source pixel (j, width-1-r) |
| Kernels.Cell | BitmapThread.java:30-55 | the destination byte (r, c) of the selected kernel, dispatching as run's switch does |
| Kernels.Apply | BitmapThread.java:60-181 | the whole destination of a kernel: DestDims in size, with every byte given by Cell |
| Kernels.Chan | BitmapThread.java:205-216 | each channel getPixel reads is in 0..255 |
| Kernels.WindowHoldsCentre | BitmapThread.java:94-103 | blur's window of pixel (r, j) holds between 1 and 16 in-bounds pixels, so the division is defined |
| Kernels.WinSumWithin | BitmapThread.java:94-103 | helper for BlurWithin: if every in-bounds window value lies in lo..hi, the window sum lies between count*lo and count*hi |
| Kernels.AverageWithin | BitmapThread.java:106 | helper for BlurWithin: an integer average lies between the bounds of the values averaged |
| Kernels.GrayAtPixel | BitmapThread.java:76-78 | all three bytes of grayscale pixel (r, j) hold the narrowed formula value of source pixel (r, j) |
| Kernels.BlurAtPixel | BitmapThread.java:90-106 | channel ch of blur pixel (r, j) is the window sum of channel ch divided by the window count, narrowed |
| Kernels.MirrorAtPixel | BitmapThread.java:116-118 | mirror pixel (r, p) is source pixel (r, W-1-p) |
| Kernels.ShrinkAtPixel | BitmapThread.java:134-151 | channel ch of shrink pixel (r, j) is the truncated quarter of the four source values at rows 2r, 2r+1 and columns 2j, 2j+1 |
| Kernels.DoubleAtPixel | BitmapThread.java:161-166 | destination pixel (r, p) of doubleSize is source pixel (r/2, p/2) |
| Kernels.RotateAtPixel | BitmapThread.java:176-179 | rotate pixel (r, p) is source pixel (p, W-1-r) |
| KernelLaws.InvertUnsigned | BitmapThread.java:63-65 | every inverted byte, read unsigned, is 255 minus the source byte read unsigned |
| KernelLaws.InvertTwice | BitmapThread.java:60-67 | inverting twice restores every byte |
| KernelLaws.GrayChannelsEqual | BitmapThread.java:76-78 | grayscale gives the three channels of a pixel the same value |
| KernelLaws.GrayOfBlack | BitmapThread.java:72-80 | when the formula maps black to 0, an all-zero image stays all zero |
| KernelLaws.BlurWithin | BitmapThread.java:85-108 | every blurred value lies between the minimum and the maximum of its window |
| KernelLaws.BlurUniform | BitmapThread.java:85-108 | blurring a single-coloured image changes nothing |
| KernelLaws.MirrorTwice | BitmapThread.java:113-120 | mirroring twice restores every byte |
| KernelLaws.BlockValue | BitmapThread.java:161-166 | each of the four pixels doubleSize writes for source pixel (r, j) holds that pixel's channels |
| KernelLaws.ShrinkOfBlock | BitmapThread.java:134-151 | shrinking a doubled image averages four copies of each source byte and gives that byte back |
| KernelLaws.ShrinkDouble | BitmapThread.java:125-168 | shrink after doubleSize is the identity |
| KernelLaws.ShrinkDropsOddEdge | BitmapThread.java:128-151 | shrink reads only rows below 2*(height/2) and columns below 2*(width/2): images agreeing there shrink alike |
| KernelLaws.RotateTwice | BitmapThread.java:173-181 | two quarter turns are the half turn |
| KernelLaws.HalfTurnTwice | BitmapThread.java:173-181 | two half turns restore the image |
| KernelLaws.RotateFourTimes | BitmapThread.java:173-181 | four rotations restore the original dimensions and every byte |
| Workers.Owns | BitmapThread.java:62 | the rows the outer loop of worker `number` visits: number, number + threads, number + 2*threads, ... |
| Workers.WorkerStep | BitmapThread.java:60-181 | the destination after one worker: every byte derived from a row the worker owns holds Cell, and every other byte keeps its old value |
| Workers.RunWorkers | Manipulator.java:91-97 | the start/join loops as sequential composition: the destination after the workers of the sequence have each run their whole step, one after the other |
| Workers.OwnsIsResidue | BitmapThread.java:62 | for worker numbers below the count, worker n visits row i exactly when i mod threads == n |
| Workers.RowsPartition | BitmapThread.java:62 | every row belongs to exactly one of the workers 0 .. threads-1 |
| Workers.DisjointWrites | BitmapThread.java:160-181 | two workers that both own the row a destination byte derives from are the same worker |
| Workers.NextStride | BitmapThread.java:62 | `i += threads` moves to the worker's next row, and no row of the worker lies in between |
| Workers.RunRangeNext | Manipulator.java:91-97 | running workers 0 .. i is running workers 0 .. i-1, then worker i |
| Workers.RunWorkersCell | Manipulator.java:91-97 | after a sequence of workers, a byte holds the kernel value exactly when one of them owns its row, and its old value otherwise |
| Workers.AllWorkersGiveKernel | Manipulator.java:91-99 | once every worker 0 .. threads-1 has run, in any order and any number of times, the destination is the kernel's image |
| Workers.WorkerCountIrrelevant | Manipulator.java:91-99 | the result is the same for every worker count of at least one |
| Workers.WorkersCommute | Manipulator.java:93-97 | two workers' steps can run in either order |
| BitmapThreads.BitmapThread.constructor | BitmapThread.java:18-24 | stores source, result, command, number and thread count, and the grayscale formula `luma` that stands for the floating-point expression |
| BitmapThreads.BitmapThread.GetPixel | BitmapThread.java:205-216 | the three channels of source pixel (i, j), each byte read unsigned |
| BitmapThreads.BitmapThread.PixelChannels | BitmapThread.java:205-216 | getPixel's channel ch is the unsigned reading of byte 3j+ch of row i |
| BitmapThreads.BitmapThread.PixelBytes | BitmapThread.java:192-216 | narrowing what getPixel returns gives back the source bytes |
| BitmapThreads.BitmapThread.SetPixel | BitmapThread.java:192-196 | writes the narrowed blue, green and red into bytes 3j, 3j+1, 3j+2 of result row i and changes nothing else |
| BitmapThreads.BitmapThread.Inverse | BitmapThread.java:60-67 | the destination becomes this worker's step of the inverse kernel |
| BitmapThreads.BitmapThread.Grayscale | BitmapThread.java:72-80 | the destination becomes this worker's step of the grayscale kernel |
| BitmapThreads.BitmapThread.GrayscalePixel | BitmapThread.java:75-79 | one inner iteration writes grayscale pixel (i, j) and keeps the loop invariant |
| BitmapThreads.BitmapThread.BlurWindow | BitmapThread.java:90-103 | the window loops return the three channel sums and the count of in-bounds pixels of rows i-2 .. i+1, columns j-2 .. j+1 |
| BitmapThreads.BitmapThread.Blur | BitmapThread.java:85-108 | the destination becomes this worker's step of the blur kernel |
| BitmapThreads.BitmapThread.BlurPixel | BitmapThread.java:87-106 | one inner iteration writes blur pixel (i, j) and keeps the loop invariant |
| BitmapThreads.BitmapThread.Mirror | BitmapThread.java:113-120 | the destination becomes this worker's step of the mirror kernel; the inner loop runs from W-1 down to 0 |
| BitmapThreads.BitmapThread.MirrorPixel | BitmapThread.java:116-119 | one inner iteration writes destination pixel W-1-j from source pixel j |
| BitmapThreads.BitmapThread.Shrink | BitmapThread.java:125-153 | the destination becomes this worker's step of the shrink kernel |
| BitmapThreads.BitmapThread.ShrinkBlock | BitmapThread.java:130-149 | the four getPixel calls give channel sums whose narrowed quarters are shrink's three bytes |
| BitmapThreads.BitmapThread.ShrinkPixel | BitmapThread.java:129-151 | one inner iteration writes shrink pixel (i, j) and keeps the loop invariant |
| BitmapThreads.BitmapThread.StorePixel | BitmapThread.java:192-196 | a setPixel of the kernel's values at the loop's own position advances the loop invariant by one pixel |
| BitmapThreads.BitmapThread.DoubleSize | BitmapThread.java:158-168 | the destination becomes this worker's step of the doubleSize kernel |
| BitmapThreads.BitmapThread.DoubleBlock | BitmapThread.java:161-166 | the four setPixel calls of one iteration write the 2x2 block of source pixel (i, j) |
| BitmapThreads.BitmapThread.DoublePair | BitmapThread.java:163-166 | two setPixel calls fill destination pixel p of rows 2i and 2i+1 |
| BitmapThreads.BitmapThread.DoubleStore | BitmapThread.java:163-166 | one setPixel fills destination pixel (r, p) of the block with source pixel (i, j) |
| BitmapThreads.BitmapThread.DoubleBlockDone | BitmapThread.java:161-166 | once the block is written the loop invariant holds at the next source pixel |
| BitmapThreads.BitmapThread.Rotate | BitmapThread.java:173-181 | the destination becomes this worker's step of the rotate kernel |
| BitmapThreads.BitmapThread.RotatePixel | BitmapThread.java:176-180 | one inner iteration writes destination pixel (W-1-j, i) from source pixel (i, j) |
| BitmapThreads.BitmapThread.Finish | BitmapThread.java:62 | when the outer loop has passed every row, the destination is the worker's step |
| BitmapThreads.BitmapThread.Run | BitmapThread.java:30-55 | a known command runs its kernel's step; any other command changes nothing |
| Manipulators.NewDestination | Manipulator.java:76-89 | 'i', 'g', 'b', 'h' allocate (height, width), 's' (height/2, width/2), 'd' (2*height, 2*width), 'r' (width, height), each fresh with the default header and a zero grid; any other command gives null |
| Manipulators.NewWorkers | Manipulator.java:91-92 | worker i gets source b, destination `converted`, the command, number i and the thread count |
| Manipulators.Convert | Manipulator.java:71-100 | returns null exactly for an unknown command; otherwise a fresh bitmap with the default header whose grid is zero for no workers and the kernel's image of b for one or more; b is unchanged |

## Left out

- `Manipulator.main` and the `ask*` helpers are left out: they are console prompts, `System.nanoTime` timing, `printf` output and the command loop.
- `Thread.start` and `Thread.join` are not modelled. The workers run one after the other, in creation order. `Workers.WorkersCommute` and `Workers.AllWorkersGiveKernel` prove that any order of complete worker runs gives the same grid. That interleaving individual writes changes nothing is not proved. It is argued from `Workers.DisjointWrites` and from the source being read-only.
- File streams are left out. Encoding produces a byte sequence, and decoding consumes one. The stream `writeToFile` never closes is not modelled.
- The floating-point grayscale formula `(int)(0.3*red + 0.59*green + 0.11*blue)` is a parameter `luma` of the model. Only structural facts are proved about it; no integer formula is claimed to match Java's doubles.
- Shrink's `double` sums are integers of at most 1020, and `/4.0` is exact. They are modelled as integer `/ 4`.
- `getWidth` and `getHeight` are read as the fields themselves.
- NumberCodec.BytesToNumber: requires at most four bytes. The source calls it only with 1, 2 or 4, and a longer array would make Java reduce the shift count modulo 32, which is not modelled.
- Bitmaps.Bitmap.constructor: requires `0 <= height < 2^31` and `width*3 < 2^31`. Negative sizes, which throw in Java, and a wrapping `width*3` are not modelled.
- Bitmaps.Bitmap.FromFile: requires a parsed header with allocatable sizes and `54 - 2^31 < offset <= 54`. Any offset in that range, negative ones included, gives the forward skip `54 - offset`. Two cases are not modelled. An offset above 54 asks `skip` for a negative count, whose effect depends on the stream. An offset of `54 - 2^31` or below makes the int `54 - offset` wrap. The exceptions for negative sizes are not modelled either.
- Bitmaps.Bitmap.ReadData: requires the same header condition, `Decodable`, for the same reasons as FromFile.
- BitmapThreads.BitmapThread.Run: requires, for a known command, two distinct grids, a destination of the size convert allocates, `number >= 0` and `threads >= 1`. A worker whose destination aliases its source or has another size is not modelled, and neither are the index exceptions such a worker would raise.
- The counter `i += threads` is an unbounded integer. The wrap of a Java int counter within `threads` of 2^31 is not modelled.
- Manipulators.Convert: requires `numberOfThreads >= 0`, since a negative count throws at the array creation. It also requires that the destination of a known command can be allocated (`Allocatable`), so a `2*height` or `2*width` that overflows is not modelled.
