/** Bytes, the C++ integer conversions both wrappers perform, and the
    `std::vector<uint8_t>` that both wrappers receive by reference and fill in place. */
module Bytes {

  /** `std::uint8_t` */
  newtype byte = x: int | 0 <= x < 0x100

  /** 2^64: `std::size_t` arithmetic is modulo this value. */
  const SizeModulus: nat := 0x1_0000_0000_0000_0000

  /** The largest size a `std::vector<uint8_t>` can reach (`max_size()`, PTRDIFF_MAX). */
  const MaxBufferLen: nat := 0x7FFF_FFFF_FFFF_FFFF

  /** Range of a 32-bit `int`. */
  const IntMin: int := -0x8000_0000
  const IntMax: int := 0x7FFF_FFFF

  /** The conversion `(int)n` of a `std::size_t` value: two's-complement wrap-around to 32 bits. */
  function ToInt(n: nat): (r: int)
    ensures IntMin <= r <= IntMax
    ensures r <= n
    ensures n <= IntMax ==> r == n
    ensures (n - r) % 0x1_0000_0000 == 0
  {
    (n + 0x8000_0000) % 0x1_0000_0000 - 0x8000_0000
  }

  /** `n` value-initialised bytes, as `resize` appends them. */
  function Zeros(n: nat): (z: seq<byte>)
    ensures |z| == n && forall i :: 0 <= i < n ==> z[i] == 0
  {
    seq(n, _ => 0)
  }

  /** A `std::vector<uint8_t>`: its elements and its allocated capacity. */
  class ByteVector {
    var bytes: seq<byte>
    var capacity: nat

    ghost predicate Valid()
      reads this
    {
      |bytes| <= capacity
    }

    /** An empty vector, as the callers declare `buffer_t cipher;`. */
    constructor ()
      ensures Valid() && bytes == [] && capacity == 0
    {
      bytes, capacity := [], 0;
    }

    /** `resize(n)`: truncates, or grows with zero bytes; capacity never shrinks
        (how far it grows is the library's choice). */
    method Resize(n: nat)
      requires Valid()
      modifies this
      ensures Valid()
      ensures |bytes| == n
      ensures n <= old(|bytes|) ==> bytes == old(bytes)[..n]
      ensures old(|bytes|) <= n ==> bytes == old(bytes) + Zeros(n - old(|bytes|))
      ensures old(capacity) <= capacity
    {
      if n <= |bytes| {
        bytes := bytes[..n];
      } else {
        bytes := bytes + Zeros(n - |bytes|);
      }
      if capacity < n {
        capacity := n;
      }
    }

    /** `clear()`: removes every element and keeps the allocation. */
    method Clear()
      requires Valid()
      modifies this
      ensures Valid() && bytes == [] && capacity == old(capacity)
    {
      bytes := [];
    }

    /** `shrink_to_fit()`: releases the capacity beyond the size. */
    method ShrinkToFit()
      requires Valid()
      modifies this
      ensures Valid() && bytes == old(bytes) && capacity == |bytes|
    {
      capacity := |bytes|;
    }

    /** A foreign routine writing `data` through `data()`, that is over the first `|data|` elements. */
    method WriteFront(data: seq<byte>)
      requires Valid()
      requires |data| <= |bytes|
      modifies this
      ensures Valid() && capacity == old(capacity)
      ensures |bytes| == old(|bytes|)
      ensures bytes[..|data|] == data && bytes[|data|..] == old(bytes)[|data|..]
    {
      bytes := data + bytes[|data|..];
    }

    /** A sink inserting `data` at `end()`. */
    method Append(data: seq<byte>)
      requires Valid()
      modifies this
      ensures Valid() && bytes == old(bytes) + data
      ensures old(capacity) <= capacity
    {
      bytes := bytes + data;
      if capacity < |bytes| {
        capacity := |bytes|;
      }
    }
  }
}
