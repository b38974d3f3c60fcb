/** The AES-256-CBC buffer wrapper: the ciphertext length rule, the key and IV size
    checks, and how the outcome of the Crypto++ CBC transform reaches the caller.
    The transform itself (AES, CBC chaining, PKCS#7 padding inside the filter) is a
    parameter of type `CbcEngine`; `Lawful` states what the wrapper relies on it for. */
module AesApi {
  import opened Bytes

  /** `AES::BLOCKSIZE` */
  const BlockSize: nat := 16
  /** `AES::MAX_KEYLENGTH` (AES-256) */
  const MaxKeyLength: nat := 32

  // ---------------------------------------------------------------------------
  // Ciphertext length

  /** `GetCipherLen`: the plaintext length plus the padding, in `size_t` arithmetic.
      The result is always block-aligned, even where the sum wraps. */
  function GetCipherLen(plainLen: nat): (cipherLen: nat)
    requires plainLen < SizeModulus
    ensures cipherLen < SizeModulus
    ensures cipherLen % BlockSize == 0
  {
    var paddingLen := BlockSize - plainLen % BlockSize;
    (plainLen + paddingLen) % SizeModulus
  }

  /** The length of a PKCS#7-padded message (section 6.3 of RFC 5652): one more
      block than the number of whole blocks in the plaintext. */
  function PaddedLen(plainLen: nat): nat
  {
    (plainLen / BlockSize + 1) * BlockSize
  }

  /** Wherever the `size_t` sum does not wrap (every length a vector can have, and more),
      `GetCipherLen` is the PKCS#7 padded length. */
  lemma CipherLenIsPaddedLen(n: nat)
    requires n < SizeModulus - BlockSize
    ensures GetCipherLen(n) == PaddedLen(n)
  {
    var q, r := n / BlockSize, n % BlockSize;
    assert n == q * BlockSize + r;
    assert n + (BlockSize - r) == (q + 1) * BlockSize;
    assert n + (BlockSize - r) < SizeModulus;
  }

  /** The padding is never empty and never more than one block; an aligned input gains
      a whole block. */
  lemma PaddingExcessInRange(n: nat)
    requires n < SizeModulus - BlockSize
    ensures n < GetCipherLen(n) <= n + BlockSize
    ensures n % BlockSize == 0 <==> GetCipherLen(n) == n + BlockSize
  {
    assert n + (BlockSize - n % BlockSize) < SizeModulus;
  }

  /** A longer plaintext never yields a shorter ciphertext. */
  lemma CipherLenMonotonic(n: nat, m: nat)
    requires n <= m < SizeModulus - BlockSize
    ensures GetCipherLen(n) <= GetCipherLen(m)
  {
    CipherLenIsPaddedLen(n);
    CipherLenIsPaddedLen(m);
  }

  /** In the last block of the `size_t` range the sum wraps to 0; no vector is that long
      (`MaxBufferLen`), so the wrapper never meets it. */
  lemma CipherLenWrapsAtTop(n: nat)
    requires SizeModulus - BlockSize <= n < SizeModulus
    ensures GetCipherLen(n) == 0
  {
    var q, r := n / BlockSize, n % BlockSize;
    assert n == q * BlockSize + r;
  }

  // ---------------------------------------------------------------------------
  // The CBC transform, as the wrapper sees it

  /** What pumping a whole buffer through a `StreamTransformationFilter` into a
      `VectorSink` gives: either it completes, or a `CryptoPP::Exception` is thrown after
      the sink has received `partial`. */
  datatype EngineRun = Completed(output: seq<byte>) | Faulted(partial: seq<byte>)

  /** The bytes a run delivered to the sink, whichever way it ended. */
  function Delivered(run: EngineRun): seq<byte>
  {
    match run
    case Completed(output) => output
    case Faulted(partial) => partial
  }

  /** `CBC_Mode<AES>::Encryption` / `::Decryption` keyed with `SetKeyWithIV(key, iv)` and
      driven over a whole input buffer. */
  datatype CbcEngine = CbcEngine(
    encrypt: (seq<byte>, seq<byte>, seq<byte>) -> EngineRun,  // key, iv, plaintext
    decrypt: (seq<byte>, seq<byte>, seq<byte>) -> EngineRun)  // key, iv, ciphertext

  /** What the wrapper's callers rely on the library for (NIST SP 800-38A section 6.2 with
      PKCS#7 padding): with a 32-byte key and a 16-byte IV, encryption always completes with
      a padded-length output, and decryption under the same key and IV undoes it. */
  ghost predicate Lawful(e: CbcEngine)
  {
    forall key: seq<byte>, iv: seq<byte>, plain: seq<byte> ::
      |key| == MaxKeyLength && |iv| == BlockSize ==>
        e.encrypt(key, iv, plain).Completed? &&
        |e.encrypt(key, iv, plain).output| == PaddedLen(|plain|) &&
        e.decrypt(key, iv, e.encrypt(key, iv, plain).output) == Completed(plain)
  }

  // ---------------------------------------------------------------------------
  // The wrapper

  /** How a call leaves the wrapper: by returning a `bool`, or by letting the
      `std::runtime_error` of a size check escape (the handler only catches
      `CryptoPP::Exception`). */
  datatype Exit = Returned(ok: bool) | ThrewRuntimeError(what: string)

  const KeySizeIncorrect := "key size incorrect"
  const IvSizeIncorrect := "iv size incorrect"

  /** `AesCbcEncrypt`: size checks (key first), then the engine; its bytes go to the end
      of `cipher`; an engine fault becomes `false`. */
  method AesCbcEncrypt(e: CbcEngine, key: seq<byte>, iv: seq<byte>, plain: seq<byte>, cipher: ByteVector)
    returns (exit: Exit)
    requires cipher.Valid()
    modifies cipher
    ensures cipher.Valid()
    ensures |key| != MaxKeyLength ==> exit == ThrewRuntimeError(KeySizeIncorrect) && unchanged(cipher)
    ensures |key| == MaxKeyLength && |iv| != BlockSize ==>
              exit == ThrewRuntimeError(IvSizeIncorrect) && unchanged(cipher)
    ensures |key| == MaxKeyLength && |iv| == BlockSize ==>
              exit == Returned(e.encrypt(key, iv, plain).Completed?) &&
              cipher.bytes == old(cipher.bytes) + Delivered(e.encrypt(key, iv, plain))
  {
    if |key| != MaxKeyLength {
      return ThrewRuntimeError(KeySizeIncorrect);
    }
    if |iv| != BlockSize {
      return ThrewRuntimeError(IvSizeIncorrect);
    }
    var run := e.encrypt(key, iv, plain);
    cipher.Append(Delivered(run));
    exit := Returned(run.Completed?);
  }

  /** `AesCbcDecrypt`: the same checks in the same order, then the inverse engine; a
      rejected ciphertext (bad length or padding) is an engine fault and becomes `false`. */
  method AesCbcDecrypt(e: CbcEngine, key: seq<byte>, iv: seq<byte>, cipher: seq<byte>, plain: ByteVector)
    returns (exit: Exit)
    requires plain.Valid()
    modifies plain
    ensures plain.Valid()
    ensures |key| != MaxKeyLength ==> exit == ThrewRuntimeError(KeySizeIncorrect) && unchanged(plain)
    ensures |key| == MaxKeyLength && |iv| != BlockSize ==>
              exit == ThrewRuntimeError(IvSizeIncorrect) && unchanged(plain)
    ensures |key| == MaxKeyLength && |iv| == BlockSize ==>
              exit == Returned(e.decrypt(key, iv, cipher).Completed?) &&
              plain.bytes == old(plain.bytes) + Delivered(e.decrypt(key, iv, cipher))
  {
    if |key| != MaxKeyLength {
      return ThrewRuntimeError(KeySizeIncorrect);
    }
    if |iv| != BlockSize {
      return ThrewRuntimeError(IvSizeIncorrect);
    }
    var run := e.decrypt(key, iv, cipher);
    plain.Append(Delivered(run));
    exit := Returned(run.Completed?);
  }

  /** The round trip the wrapper's callers perform: encrypt into an empty buffer, check
      its length against `GetCipherLen`, decrypt into another empty buffer. */
  method AesCbcRoundTrip(e: CbcEngine, key: seq<byte>, iv: seq<byte>, plain: seq<byte>)
    returns (encrypted: Exit, cipherLen: nat, decrypted: Exit, recovered: seq<byte>)
    requires Lawful(e)
    requires |key| == MaxKeyLength && |iv| == BlockSize
    requires |plain| <= MaxBufferLen
    ensures encrypted == Returned(true) && decrypted == Returned(true)
    ensures cipherLen == GetCipherLen(|plain|)
    ensures recovered == plain
  {
    ghost var run := e.encrypt(key, iv, plain);
    assert run.Completed? && |run.output| == PaddedLen(|plain|);
    assert e.decrypt(key, iv, run.output) == Completed(plain);
    var cipher := new ByteVector();
    encrypted := AesCbcEncrypt(e, key, iv, plain, cipher);
    assert cipher.bytes == run.output;
    cipherLen := |cipher.bytes|;
    CipherLenIsPaddedLen(|plain|);
    var sink := new ByteVector();
    decrypted := AesCbcDecrypt(e, key, iv, cipher.bytes, sink);
    recovered := sink.bytes;
  }

  /** A key of the wrong size never returns, whatever else is passed: it throws, and the
      output buffer is untouched. */
  method AesCbcRejectsKey(e: CbcEngine, key: seq<byte>, iv: seq<byte>, data: seq<byte>)
    returns (encrypted: Exit, decrypted: Exit, written: nat)
    requires |key| != MaxKeyLength
    ensures encrypted == decrypted == ThrewRuntimeError(KeySizeIncorrect)
    ensures written == 0
  {
    var out := new ByteVector();
    encrypted := AesCbcEncrypt(e, key, iv, data, out);
    decrypted := AesCbcDecrypt(e, key, iv, data, out);
    written := |out.bytes|;
  }

  /** A ciphertext the library rejects (its length or its padding) ends the call with
      `false`, not with an exception; what the sink received before the fault stays. */
  method AesCbcDecryptFault(e: CbcEngine, key: seq<byte>, iv: seq<byte>, cipher: seq<byte>)
    returns (decrypted: Exit, recovered: seq<byte>)
    requires |key| == MaxKeyLength && |iv| == BlockSize
    requires e.decrypt(key, iv, cipher).Faulted?
    ensures decrypted == Returned(false)
    ensures recovered == e.decrypt(key, iv, cipher).partial
  {
    var sink := new ByteVector();
    decrypted := AesCbcDecrypt(e, key, iv, cipher, sink);
    recovered := sink.bytes;
  }

  // ---------------------------------------------------------------------------
  // The assumed contract is satisfiable

  /** The PKCS#7 padding of a `plainLen`-byte message: `k` bytes of value `k`. */
  function Padding(plainLen: nat): (pad: seq<byte>)
    ensures 1 <= |pad| <= BlockSize
  {
    var k := BlockSize - plainLen % BlockSize;
    seq(k, _ => k as byte)
  }

  /** A stand-in transform with the identity as block cipher: it pads, and strips the
      padding named by the last byte. */
  function PaddingOnlyEngine(): CbcEngine
  {
    CbcEngine(
      (key: seq<byte>, iv: seq<byte>, p: seq<byte>) => Completed(p + Padding(|p|)),
      (key: seq<byte>, iv: seq<byte>, c: seq<byte>) =>
        if |c| > 0 && 1 <= c[|c| - 1] as int <= |c| then Completed(c[..|c| - c[|c| - 1] as int])
        else Faulted([]))
  }

  lemma PaddingOnlyEngineIsLawful()
    ensures Lawful(PaddingOnlyEngine())
  {
    var e := PaddingOnlyEngine();
    forall key: seq<byte>, iv: seq<byte>, plain: seq<byte> | |key| == MaxKeyLength && |iv| == BlockSize
      ensures e.encrypt(key, iv, plain).Completed?
      ensures |e.encrypt(key, iv, plain).output| == PaddedLen(|plain|)
      ensures e.decrypt(key, iv, e.encrypt(key, iv, plain).output) == Completed(plain)
    {
      var pad := Padding(|plain|);
      var c := plain + pad;
      assert e.encrypt(key, iv, plain) == Completed(c);
      var q, r := |plain| / BlockSize, |plain| % BlockSize;
      assert |plain| == q * BlockSize + r;
      assert |c| == (q + 1) * BlockSize;
      assert c[|c| - 1] as int == |pad|;
      assert c[..|c| - |pad|] == plain;
    }
  }
}
