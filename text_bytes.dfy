/** The conversions between a `std::string` and a byte vector that the test fixtures
    use around both wrappers: one `push_back` per element, converting `char` to
    `uint8_t` and back. */
module TextBytes {
  import opened Bytes

  /** A C++ `char`, taken here as signed. Its signedness is implementation-defined; where
      `char` is unsigned both conversions below are the identity and the round trip holds
      all the same. */
  newtype char8 = c: int | -0x80 <= c < 0x80

  /** The integral conversion `char` -> `uint8_t`: the value modulo 256. */
  function ByteOfChar(c: char8): (b: byte)
    ensures (b as int - c as int) % 0x100 == 0
  {
    if c < 0 then (c as int + 0x100) as byte else c as int as byte
  }

  /** The integral conversion `uint8_t` -> `char`: the value modulo 256, as a signed byte. */
  function CharOfByte(b: byte): (c: char8)
    ensures (b as int - c as int) % 0x100 == 0
  {
    if b >= 0x80 then (b as int - 0x100) as char8 else b as int as char8
  }

  /** The two conversions are inverse bijections. */
  lemma ConversionsInverse(c: char8, b: byte)
    ensures CharOfByte(ByteOfChar(c)) == c
    ensures ByteOfChar(CharOfByte(b)) == b
  {
  }

  /** The fixture's `to_bytes`: each character converted, in order. */
  method ToBytes(str: seq<char8>) returns (bytes: seq<byte>)
    ensures |bytes| == |str|
    ensures forall i :: 0 <= i < |str| ==> bytes[i] == ByteOfChar(str[i])
  {
    bytes := [];
    var k := 0;
    while k < |str|
      invariant 0 <= k <= |str|
      invariant |bytes| == k
      invariant forall i :: 0 <= i < k ==> bytes[i] == ByteOfChar(str[i])
    {
      bytes := bytes + [ByteOfChar(str[k])];
      k := k + 1;
    }
  }

  /** The fixture's `to_string`: each byte converted, in order. */
  method ToString(bytes: seq<byte>) returns (str: seq<char8>)
    ensures |str| == |bytes|
    ensures forall i :: 0 <= i < |bytes| ==> str[i] == CharOfByte(bytes[i])
  {
    str := [];
    var k := 0;
    while k < |bytes|
      invariant 0 <= k <= |bytes|
      invariant |str| == k
      invariant forall i :: 0 <= i < k ==> str[i] == CharOfByte(bytes[i])
    {
      str := str + [CharOfByte(bytes[k])];
      k := k + 1;
    }
  }

  /** Converting a string to bytes and back gives the string. */
  method TextRoundTrip(str: seq<char8>) returns (bytes: seq<byte>, back: seq<char8>)
    ensures |bytes| == |str|
    ensures forall i :: 0 <= i < |str| ==> bytes[i] == ByteOfChar(str[i])
    ensures back == str
  {
    bytes := ToBytes(str);
    back := ToString(bytes);
    forall i | 0 <= i < |str| ensures back[i] == str[i] {
      ConversionsInverse(str[i], bytes[i]);
    }
  }
}
