# compression-tools-examples: the AES-CBC and LZ4 block wrappers, in Dafny

The repository wraps two libraries behind small C++ headers. This project models the
logic those headers add on top of the libraries, and proves what it promises.

- `aes_api.dfy` (module `AesApi`) covers `src/cryptopp/aes_api.hpp`.
  - `GetCipherLen` is the ciphertext length rule. It is PKCS#7 padding (section 6.3 of
    RFC 5652) over the 16-byte AES block (FIPS 197), computed in `size_t` arithmetic.
  - `AesCbcEncrypt` and `AesCbcDecrypt` check the key size (32 bytes, AES-256) before the
    IV size (16 bytes). A failed check throws `std::runtime_error`. The handler only
    catches `CryptoPP::Exception`, so that error escapes the function. Only after both
    checks pass is the CBC transform (NIST SP 800-38A section 6.2) run. Its output is
    appended to the caller's vector. A library exception becomes `false`, and a
    completed run becomes `true`. These are the three outcomes of datatype `Exit`.
- `lz4_api.dfy` (module `Lz4Api`) covers `src/lz4/lz4_api.hpp`.
  - `compress` sizes `dst` to `LZ4_compressBound` and lets the library fill it. It then
    clears `dst` on a result of 0 or less, or trims it to the result.
  - `decompress` sizes `dst` to the caller-declared original size. It clears `dst` on a
    negative result. Otherwise it trims `dst` to the decoded size, even when that size
    differs from the declared one.
  - Both return `dst.size()`.
  - The `(int)` casts of `size_t` values are modelled as 32-bit wrap-around (`Bytes.ToInt`).
- `bytes.dfy` (module `Bytes`) holds the byte type and the integer conversions. It also
  holds class `ByteVector`, the `std::vector<uint8_t>` the wrappers fill by reference.
  `ByteVector` has the elements and the capacity. Its methods are `resize`
  (which zero-fills when it grows), `clear` (which keeps the capacity), `shrink_to_fit`,
  the library writing through `data()`, and appending at `end()`.
- `text_bytes.dfy` (module `TextBytes`) covers the test fixtures' `to_bytes` and
  `to_string`. They convert between a string and a byte vector with one `push_back` per
  element. The LZ4 test compares the decompressed text through them.

The libraries themselves are not modelled. Each is a parameter of the wrappers: a
datatype of function values (`AesApi.CbcEngine`, `Lz4Api.Lz4Engine`). What the wrappers
and their callers rely on is stated as predicates over that parameter:
- `AesApi.Lawful`: with a valid key and IV, encryption completes with a padded-length
  output, and decryption undoes it.
- `Lz4Api.WritesWithinCapacity`: the bound is a non-negative `int`, and no call writes past
  its capacity.
- `Lz4Api.RoundTrips`: compressing into a buffer of the bound succeeds, and decompressing
  into the original size restores the input.

The lemmas `AesApi.PaddingOnlyEngineIsLawful`, `Lz4Api.StoringEngineWritesWithinCapacity`
and `Lz4Api.StoringEngineRoundTrips` show that each of these predicates has a model.
Each one exhibits a trivial engine that satisfies the predicate, so no result below rests
on an unsatisfiable assumption.

Behaviour of the headers a caller may not expect:
- A key or IV of the wrong size throws `std::runtime_error` out of `AesCbcEncrypt` and
  `AesCbcDecrypt` (src/cryptopp/aes_api.hpp:36-39); only library exceptions become `false`.
- In `decompress`, a decoded size that differs from `original_size` is only written to
  `std::cerr` (src/lz4/lz4_api.hpp:65-69). `dst` keeps the decoded bytes, and their count is
  returned.
- `compress` never passes `compress_level` to LZ4 and never checks it.
- `GetCipherLen` always adds 1 to 16 bytes of padding, a whole block for an aligned input.

## Model

| member | source | states |
|---|---|---|
| `AesApi.GetCipherLen` | src/cryptopp/aes_api.hpp:22-30 | the ciphertext length is a `size_t` value and a multiple of the 16-byte block, even where the sum wraps |
| `AesApi.CipherLenIsPaddedLen` | src/cryptopp/aes_api.hpp:22-30 | wherever the `size_t` sum does not wrap (every n < 2^64 - 16, which includes every vector length), the result is the PKCS#7 padded length `(n / 16 + 1) * 16` |
| `AesApi.PaddingExcessInRange` | src/cryptopp/aes_api.hpp:27-29 | the padding added is between 1 and 16 bytes and never 0; it is exactly 16 if and only if the input is block-aligned |
| `AesApi.CipherLenMonotonic` | src/cryptopp/aes_api.hpp:25-29 | a longer plaintext never gets a shorter ciphertext length |
| `AesApi.CipherLenWrapsAtTop` | src/cryptopp/aes_api.hpp:27-29 | for every n from 2^64 - 16 up to `SIZE_MAX` the `size_t` sum wraps to 0; no vector reaches those lengths |
| `AesApi.AesCbcEncrypt` | src/cryptopp/aes_api.hpp:32-55 | a wrong key size throws "key size incorrect" and a wrong IV size throws "iv size incorrect", with the key checked first and `cipher` untouched; otherwise the engine's output is appended to `cipher`, and the call returns `true` if the engine completed or `false` if it faulted |
| `AesApi.AesCbcDecrypt` | src/cryptopp/aes_api.hpp:57-80 | the same checks in the same order, then the decryption engine; its output is appended to `plain`, with `true` on completion and `false` on a fault |
| `AesApi.AesCbcRoundTrip` | test/cryptopp/cryptopp_aes_test.cpp:40-57 | with a lawful engine, a 32-byte key and a 16-byte IV, encryption into an empty vector returns `true` with `GetCipherLen(plain.size())` bytes, and decrypting those bytes returns `true` with `plain` |
| `AesApi.AesCbcRejectsKey` | src/cryptopp/aes_api.hpp:36-37 | a key that is not 32 bytes makes both functions throw "key size incorrect", whatever the IV, and nothing is written |
| `AesApi.AesCbcDecryptFault` | src/cryptopp/aes_api.hpp:76-79 | a ciphertext the engine rejects makes decryption return `false`, not throw, and the bytes delivered before the fault stay in the output |
| `Bytes.ToInt` | src/lz4/lz4_api.hpp:23 | `(int)` of a `size_t` lies in the `int` range, is congruent to it modulo 2^32, is never larger, and is the same value up to `INT_MAX` |
| `Lz4Api.Compressed` | src/lz4/lz4_api.hpp:23-42 | `dst` after `compress` is empty if and only if the library returned 0 or less; otherwise it holds exactly the result's count of bytes, and never more than the bound |
| `Lz4Api.Compress` | src/lz4/lz4_api.hpp:18-43 | the level defaults to 3 and is unused; `dst` is sized to the bound, which is also the capacity passed to the library; `dst` ends as `Compressed(src)`, the return value equals `dst.size()`, and on success the capacity is trimmed to the size |
| `Lz4Api.CompressIgnoresLevel` | src/lz4/lz4_api.hpp:21-31 | two compressions of the same input at different levels leave the same bytes |
| `Lz4Api.Decompressed` | src/lz4/lz4_api.hpp:50-73 | `dst` after `decompress` is empty on a negative result; otherwise it holds exactly the result's count of bytes; it is never longer than `original_size` |
| `Lz4Api.Decompress` | src/lz4/lz4_api.hpp:45-74 | `dst` is sized to `original_size`, and `(int)original_size` is the capacity passed to the library; `dst` ends as `Decompressed(src, original_size)`, and the return value equals `dst.size()` |
| `Lz4Api.MismatchKeepsDecoded` | src/lz4/lz4_api.hpp:65-73 | a non-negative result other than `original_size` is not an error: `dst` keeps the decoded bytes, and there are fewer of them than declared |
| `Lz4Api.RoundTrip` | test/lz4/lz4cpp_test.cpp:43-55 | with a library meeting both contracts, compression of an input up to `LZ4_MAX_INPUT_SIZE` is non-empty, and decompressing it with the input's size gives back the input, the empty input included |
| `Lz4Api.BlockRoundTrip` | test/lz4/lz4cpp_test.cpp:43-55 | the two wrapper calls into fresh vectors, at any level, return a compressed size in (0, bound], then the input's size and the input itself |
| `Lz4Api.TextBlockRoundTrip` | test/lz4/lz4cpp_test.cpp:43-55 | the whole test: a string converted to bytes, compressed, decompressed with its size and converted back gives the same bytes and the same string |
| `TextBytes.ConversionsInverse` | test/lz4/lz4cpp_test.cpp:24-40 | the `char` to `uint8_t` conversion and its reverse undo each other |
| `TextBytes.ToBytes` | test/lz4/lz4cpp_test.cpp:24-32 | the result has one byte per character, each the character's value modulo 256, in order |
| `TextBytes.ToString` | test/lz4/lz4cpp_test.cpp:33-40 | the result has one character per byte, each the byte's value as a signed `char`, in order |
| `TextBytes.TextRoundTrip` | test/lz4/lz4cpp_test.cpp:24-40 | converting a string to bytes and back gives the string |

## Left out

- Bytes.ByteVector.ShrinkToFit: the C++ standard makes `shrink_to_fit` a non-binding request;
  the model follows the common standard libraries, which release all excess capacity.
- Lz4Api.Compress: its capacity clause on success (capacity equals size) rests on that
  reading of `shrink_to_fit`.
- Lz4Api.Decompress: the same holds for its capacity clause on a non-negative result.

- The AES round function, CBC chaining, and Crypto++'s padding and unpadding inside
  `StreamTransformationFilter` are not modelled. Neither is the LZ4 codec. They are
  engine parameters constrained by the contracts above. Decryption of a ciphertext that
  encryption did not produce is unconstrained, apart from the outcome mapping.
- The `std::cerr` diagnostics in both headers are console output with no effect on
  results. This includes the size-mismatch warning in `decompress`.
- `VectorSink` is modelled as appending to the output vector. The round-trip methods
  start from empty vectors, as the tests do.
- `ByteVector` does not model allocation failure (`std::bad_alloc`), `max_size()` errors,
  or the exact capacity growth policy. It only records that capacity never shrinks except
  through `shrink_to_fit`.
- `src/cryptopp/aes_sample.cpp` is not part of this model. It is a demo program: file
  reading, IV generation, timing and printing.
- `src/utility.hpp` is not part of this model. It is printing, clock reads and
  floating-point throughput. Its `to_bytes` and `to_string` copy into a buffer whose size
  is still zero, so no conversion can be stated for them.
- The zstd block and stream wrappers are not part of this model. Their implementation is
  not among the sources.
- Streaming (chunked) transforms are not part of this model. The two headers only have
  one-shot buffer calls.
