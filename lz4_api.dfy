/** The LZ4 block wrapper: how `compress` and `decompress` size, clear and trim the
    caller's `dst` vector around one call to the LZ4 library. The library calls
    (`LZ4_compressBound`, `LZ4_compress_default`, `LZ4_decompress_safe`) are a parameter
    of type `Lz4Engine`; `WritesWithinCapacity` and `RoundTrips` state what the wrapper
    and its callers rely on them for. */
module Lz4Api {
  import opened Bytes
  import TextBytes

  /** `LZ4_MAX_INPUT_SIZE` */
  const MaxInputSize: nat := 0x7E00_0000

  // ---------------------------------------------------------------------------
  // The LZ4 library, as the wrapper sees it

  /** The `int` a library call returns and the bytes it stored through its `dst` pointer. */
  datatype EngineWrite = EngineWrite(code: int, written: seq<byte>)

  datatype Lz4Engine = Lz4Engine(
    compressBound: int -> int,                              // LZ4_compressBound(inputSize)
    compressDefault: (seq<byte>, int, int) -> EngineWrite,  // LZ4_compress_default(src, srcSize, dstCapacity)
    decompressSafe: (seq<byte>, int, int) -> EngineWrite)   // LZ4_decompress_safe(src, compressedSize, dstCapacity)

  /** The number of bytes an `int` capacity lets a call store. */
  function Room(capacity: int): nat
  {
    if capacity < 0 then 0 else capacity
  }

  /** A compression call stays within its capacity, and on success (a positive result)
      stores exactly that many bytes. */
  predicate CompressWriteOk(w: EngineWrite, capacity: int)
  {
    |w.written| <= Room(capacity) && (w.code > 0 ==> |w.written| == w.code)
  }

  /** A decompression call stays within its capacity, and on success (a non-negative
      result) stores exactly that many bytes. */
  predicate DecompressWriteOk(w: EngineWrite, capacity: int)
  {
    |w.written| <= Room(capacity) && (w.code >= 0 ==> |w.written| == w.code)
  }

  /** The memory-safety contract of the library, which the wrapper needs: the bound is a
      non-negative `int`, and no call writes past the capacity it is given. */
  ghost predicate WritesWithinCapacity(e: Lz4Engine)
  {
    (forall n :: 0 <= e.compressBound(n) <= IntMax) &&
    (forall src, srcSize, capacity ::
       CompressWriteOk(e.compressDefault(src, srcSize, capacity), capacity)) &&
    (forall src, srcSize, capacity ::
       DecompressWriteOk(e.decompressSafe(src, srcSize, capacity), capacity))
  }

  /** The functional contract of the library, which the wrapper's callers need:
      compressing an input within `LZ4_MAX_INPUT_SIZE` into a buffer of the bound succeeds,
      and decompressing the result into exactly the original size restores the input. */
  ghost predicate RoundTrips(e: Lz4Engine)
  {
    forall src: seq<byte> {:trigger e.compressDefault(src, |src|, e.compressBound(|src|))} ::
      |src| <= MaxInputSize ==>
        var c := e.compressDefault(src, |src|, e.compressBound(|src|));
        c.code > 0 &&
        e.decompressSafe(c.written, |c.written|, |src|) == EngineWrite(|src|, src)
  }

  // ---------------------------------------------------------------------------
  // What the wrapper leaves in `dst`

  /** The library call `compress` makes: the `(int)` size of `src`, with the bound as capacity. */
  function CompressCall(e: Lz4Engine, src: seq<byte>): EngineWrite
  {
    var bound := e.compressBound(ToInt(|src|));
    e.compressDefault(src, ToInt(|src|), bound)
  }

  /** The contents of `dst` after `compress`: empty on failure, the compressed block on
      success; never longer than the bound. */
  function Compressed(e: Lz4Engine, src: seq<byte>): (r: seq<byte>)
    requires WritesWithinCapacity(e)
    ensures |r| <= e.compressBound(ToInt(|src|))
    ensures r == [] <==> CompressCall(e, src).code <= 0
    ensures r != [] ==> |r| == CompressCall(e, src).code
  {
    var w := CompressCall(e, src);
    if w.code <= 0 then [] else w.written
  }

  /** The library call `decompress` makes: `(int)` sizes, with `original_size` as capacity. */
  function DecompressCall(e: Lz4Engine, src: seq<byte>, originalSize: nat): EngineWrite
  {
    e.decompressSafe(src, ToInt(|src|), ToInt(originalSize))
  }

  /** The contents of `dst` after `decompress`: empty on a negative result; otherwise the
      decoded bytes, whether or not their number is the declared original size. Never
      longer than the declared size. */
  function Decompressed(e: Lz4Engine, src: seq<byte>, originalSize: nat): (r: seq<byte>)
    requires WritesWithinCapacity(e)
    ensures |r| <= originalSize
    ensures DecompressCall(e, src, originalSize).code < 0 ==> r == []
    ensures DecompressCall(e, src, originalSize).code >= 0 ==> |r| == DecompressCall(e, src, originalSize).code
  {
    var w := DecompressCall(e, src, originalSize);
    if w.code < 0 then [] else w.written
  }

  // ---------------------------------------------------------------------------
  // The wrapper

  /** `lz4::compress`: size `dst` to the bound, let the library fill it, then clear it
      (failure) or trim it to the compressed size. `compressLevel` is never used. */
  method Compress(e: Lz4Engine, src: seq<byte>, dst: ByteVector, compressLevel: byte := 3)
    returns (size: nat)
    requires WritesWithinCapacity(e)
    requires dst.Valid()
    modifies dst
    ensures dst.Valid()
    ensures dst.bytes == Compressed(e, src)
    ensures size == |dst.bytes|
    ensures size > 0 ==> dst.capacity == size
    ensures size == 0 ==> old(dst.capacity) <= dst.capacity && e.compressBound(ToInt(|src|)) <= dst.capacity
  {
    var maxDstSize := e.compressBound(ToInt(|src|));
    dst.Resize(maxDstSize);
    var w := e.compressDefault(src, ToInt(|src|), maxDstSize);
    assert CompressWriteOk(w, maxDstSize);
    dst.WriteFront(w.written);
    if w.code <= 0 {
      dst.Clear();
      return 0;
    }
    dst.Resize(w.code);
    dst.ShrinkToFit();
    size := |dst.bytes|;
  }

  /** `lz4::decompress`: size `dst` to `original_size`, let the library fill it, then
      clear it (negative result) or trim it to the decoded size. A decoded size other
      than `original_size` is only reported on the console. */
  method Decompress(e: Lz4Engine, src: seq<byte>, dst: ByteVector, originalSize: nat)
    returns (size: nat)
    requires WritesWithinCapacity(e)
    requires dst.Valid()
    modifies dst
    ensures dst.Valid()
    ensures dst.bytes == Decompressed(e, src, originalSize)
    ensures size == |dst.bytes|
    ensures DecompressCall(e, src, originalSize).code >= 0 ==> dst.capacity == size
    ensures DecompressCall(e, src, originalSize).code < 0 ==>
              old(dst.capacity) <= dst.capacity && originalSize <= dst.capacity
  {
    dst.Resize(originalSize);
    var w := e.decompressSafe(src, ToInt(|src|), ToInt(originalSize));
    assert DecompressWriteOk(w, ToInt(originalSize));
    dst.WriteFront(w.written);
    if w.code < 0 {
      dst.Clear();
      return 0;
    }
    dst.Resize(w.code);
    dst.ShrinkToFit();
    size := |dst.bytes|;
  }

  // ---------------------------------------------------------------------------
  // Properties

  /** A block compressed by the wrapper, decompressed by the wrapper with the source's
      size as original size, is the source again (the empty source included). */
  lemma RoundTrip(e: Lz4Engine, src: seq<byte>)
    requires WritesWithinCapacity(e) && RoundTrips(e)
    requires |src| <= MaxInputSize
    ensures Compressed(e, src) != []
    ensures Decompressed(e, Compressed(e, src), |src|) == src
  {
    var c := e.compressDefault(src, |src|, e.compressBound(|src|));
    assert c.code > 0;
    assert Compressed(e, src) == c.written;
    assert |c.written| <= IntMax;
  }

  /** A declared size other than the decoded size is not an error: `dst` keeps every
      decoded byte and the result is their number, not the declared size. */
  lemma MismatchKeepsDecoded(e: Lz4Engine, src: seq<byte>, originalSize: nat)
    requires WritesWithinCapacity(e)
    requires 0 <= DecompressCall(e, src, originalSize).code != originalSize
    ensures Decompressed(e, src, originalSize) == DecompressCall(e, src, originalSize).written
    ensures |Decompressed(e, src, originalSize)| < originalSize
  {
    assert DecompressWriteOk(DecompressCall(e, src, originalSize), ToInt(originalSize));
  }

  /** The wrapper pair as its callers use it: compress into an empty vector at any level,
      then decompress into another empty vector with the source's size. */
  method BlockRoundTrip(e: Lz4Engine, src: seq<byte>, compressLevel: byte)
    returns (compressedSize: nat, decompressedSize: nat, recovered: seq<byte>)
    requires WritesWithinCapacity(e) && RoundTrips(e)
    requires |src| <= MaxInputSize
    ensures 0 < compressedSize <= e.compressBound(|src|)
    ensures decompressedSize == |src|
    ensures recovered == src
  {
    var compressed := new ByteVector();
    compressedSize := Compress(e, src, compressed, compressLevel);
    var decompressed := new ByteVector();
    RoundTrip(e, src);
    decompressedSize := Decompress(e, compressed.bytes, decompressed, |src|);
    recovered := decompressed.bytes;
  }

  /** The fixture's whole test: a string to bytes, compressed, decompressed with its
      size, and back to a string, gives the bytes and the string again. */
  method TextBlockRoundTrip(e: Lz4Engine, input: seq<TextBytes.char8>, compressLevel: byte)
    returns (src: seq<byte>, decompressed: seq<byte>, decompressedStr: seq<TextBytes.char8>)
    requires WritesWithinCapacity(e) && RoundTrips(e)
    requires |input| <= MaxInputSize
    ensures decompressed == src && |src| == |input|
    ensures decompressedStr == input
  {
    src := TextBytes.ToBytes(input);
    var _, _, recovered := BlockRoundTrip(e, src, compressLevel);
    decompressed := recovered;
    decompressedStr := TextBytes.ToString(decompressed);
    forall i | 0 <= i < |input| ensures decompressedStr[i] == input[i] {
      TextBytes.ConversionsInverse(input[i], src[i]);
    }
  }

  /** The output of `compress` is the same at every level. */
  method CompressIgnoresLevel(e: Lz4Engine, src: seq<byte>, level1: byte, level2: byte)
    returns (out1: seq<byte>, out2: seq<byte>)
    requires WritesWithinCapacity(e)
    ensures out1 == out2
  {
    var dst1 := new ByteVector();
    var _ := Compress(e, src, dst1, level1);
    var dst2 := new ByteVector();
    var _ := Compress(e, src, dst2, level2);
    out1, out2 := dst1.bytes, dst2.bytes;
  }

  // ---------------------------------------------------------------------------
  // The assumed contract is satisfiable

  /** A stand-in library that "compresses" by storing: one header byte, then the input. */
  function StoringEngine(): Lz4Engine
  {
    Lz4Engine(
      n => if 0 <= n <= MaxInputSize then n + 1 else 0,
      (src: seq<byte>, n: int, capacity: int) =>
        if 0 <= n <= |src| && n + 1 <= capacity then EngineWrite(n + 1, [0] + src[..n])
        else EngineWrite(0, []),
      (src: seq<byte>, n: int, capacity: int) =>
        if 1 <= n <= |src| && n - 1 <= capacity then EngineWrite(n - 1, src[1..n])
        else EngineWrite(-1, []))
  }

  lemma StoringEngineWritesWithinCapacity()
    ensures WritesWithinCapacity(StoringEngine())
  {
    var e := StoringEngine();
    forall n: int ensures 0 <= e.compressBound(n) <= IntMax {
    }
    forall src: seq<byte>, n: int, capacity: int
      ensures CompressWriteOk(e.compressDefault(src, n, capacity), capacity)
    {
    }
    forall src: seq<byte>, n: int, capacity: int
      ensures DecompressWriteOk(e.decompressSafe(src, n, capacity), capacity)
    {
    }
  }

  lemma StoringEngineRoundTrips()
    ensures RoundTrips(StoringEngine())
  {
    var e := StoringEngine();
    forall src: seq<byte> | |src| <= MaxInputSize
      ensures var c := e.compressDefault(src, |src|, e.compressBound(|src|));
              c.code > 0 && e.decompressSafe(c.written, |c.written|, |src|) == EngineWrite(|src|, src)
    {
      var c := e.compressDefault(src, |src|, e.compressBound(|src|));
      assert c.written == [0] + src;
      assert c.written[1..|c.written|] == src;
    }
  }
}
