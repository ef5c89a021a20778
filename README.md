# HashCash proof of work, modelled in Dafny

This project models `HashCash.java`. It is a Hashcash-style client puzzle:

- It builds a challenge string `version:difficulty:timestamp:resource:token:`.
- The prover (`mine`) tries nonces 1, 2, 3, ... until the 256-bit digest of
  `challenge + Base64(decimal(nonce))` has its first `difficulty` bits clear.
- The verifier (`isValidSolution`) recomputes that digest for a claimed nonce
  and tests the same bit predicate. The difficulty it tests may differ from the
  one written in the challenge.

Modules, one per concern of the source file:

- `Primitives` (primitives.dfy): bytes as 0..255, Java `int`/`long` ranges, `Option`.
- `Decimal` (decimal.dfy): `Integer.toString`/`Long.toString`, and a parser that inverts them.
- `Utf8` (utf8.dfy): `String.getBytes(UTF_8)` for Unicode scalar values (no unpaired surrogates; see "Left out").
- `Base64` (base64.dfy): the encoder of section 4 of RFC 4648, with a decoder as its inverse.
- `LeadingZeros` (leading_zeros.dfy): `isBitSet` and `isSolutionToChallenge`.
- `HashCash` (hashcash.dfy): the `HashCash` class with its fields, its three
  constructors, `generateString`, `mine` and `isValidSolution`, and the `main` demonstration.

The environment enters as parameters:

- The SHA-256 digest is a parameter `hash: seq<byte> -> Digest`, where a `Digest` has exactly 32 bytes.
- `System.currentTimeMillis()` is the `timeStamp` argument of the constructors.
- The `java.util.Random` draws are a sequence of indices, one per token character.
  Each index lies in `[0, 63)`, because that is what `nextInt(randomCharacters.length - 1)` returns.

Three points about the source are worth stating up front:

- `nextInt(randomCharacters.length - 1)` (src/HashCash.java:84) only picks
  indices 0 to 62 of the 64-entry table. So `'/'`, the last entry, is never drawn
  (`HashCash.RawTokenAvoidsSlash`).
- No code checks `difficulty` against the digest length. Past bit 255 the scan
  reads beyond the 32-byte array and throws `ArrayIndexOutOfBoundsException`,
  unless a set bit ends it first. The model requires `difficulty <= 8 * |digest|`
  (see "Left out").
- The doc comments say each step of difficulty "doubles the difficulty". That
  describes the expected work: `difficulty` counts leading bits, and each extra
  bit halves the share of digests that pass.

The bit order is the code's: bit `i` is bit `i % 8` of byte `i / 8`, counted from the
least-significant end (`array[index] >> bitPosition & 1`).

## Model

| member | source | states |
|---|---|---|
| `LeadingZeros.IsBitSet` | src/HashCash.java:201-209 | `isBitSet`: `>>` by `bit % 8` and `& 1` on byte `bit / 8`; `IsBitSetIsBinaryDigit` and `SignExtensionKeepsLowBits` state what it reads |
| `LeadingZeros.IsSolutionToChallenge` | src/HashCash.java:181-192 | the early-return scan returns true iff bits `0 .. difficulty-1` are all clear, and true for any difficulty of 0 or less |
| `LeadingZeros.IsBitSetIsBinaryDigit` | src/HashCash.java:201-209 | `isBitSet(a, i)` is binary digit `i % 8` of byte `a[i / 8]`, least-significant first, and those eight digits spell the byte |
| `LeadingZeros.SignExtensionKeepsLowBits` | src/HashCash.java:208 | shifting the sign-extended byte `v - 256` gives the same bits 0..7 as shifting `v` |
| `LeadingZeros.LeadingZeroBitsAsBytes` | src/HashCash.java:181-209 | `d` leading bits are clear iff the first `d / 8` bytes are zero and `2^(d % 8)` divides the next byte |
| `LeadingZeros.LowBitsClear` | src/HashCash.java:201-209 | bits `0 .. r-1` of a value, read with `>>` and `& 1`, are clear iff `2^r` divides it |
| `LeadingZeros.Monotonic` | src/HashCash.java:181-192 | a digest that meets a difficulty meets every lower difficulty |
| `LeadingZeros.BitOrderExample` | src/HashCash.java:201-209 | a digest starting with byte `0b00000010` meets difficulty 1 but not 2 |
| `Decimal.IntToString` | src/HashCash.java:46-50 | the decimal rendering is non-empty, starts with '-' exactly for negatives, and never contains ':' |
| `Decimal.ParseIntToString` | src/HashCash.java:122 | parsing the rendering of any integer gives that integer back |
| `Decimal.IntToStringInjective` | src/HashCash.java:122 | distinct nonces have distinct decimal strings |
| `Utf8.Encode` | src/HashCash.java:99 | `String.getBytes(UTF_8)`, also called at src/HashCash.java:129 and :167: the concatenation of the per-character RFC 3629 encodings, at least one byte per character; the identity on ASCII (`EncodeAscii`); distributes over `+` (`EncodeAppend`) |
| `Utf8.EncodeChar` | src/HashCash.java:99 | one to four bytes per character; the lead byte fixes the length; the others are continuation bytes; ASCII maps to itself |
| `Utf8.EncodeAscii` | src/HashCash.java:99 | on ASCII text UTF-8 yields one byte per character, equal to its code |
| `Utf8.EncodeAppend` | src/HashCash.java:125-129 | the bytes of `challenge + nonceEncoded` are the bytes of each part, concatenated |
| `Base64.Symbol` | src/HashCash.java:98-100 | the RFC 4648 alphabet entry at position `k` is an ASCII character whose value is `k` |
| `Base64.EncodeString` | src/HashCash.java:98-100 | `generateBase64EncodedString`: decoding its result gives back the UTF-8 bytes of the input (`DecodeEncode`); the alphabet and length facts come from `Encode` and `EncodeAlphabet` |
| `Base64.Encode` | src/HashCash.java:98-100 | an `n`-byte input encodes to `4 * ceil(n / 3)` characters |
| `Base64.EncodeAlphabet` | src/HashCash.java:98-100 | every output character is an alphabet symbol or '='; there is no '=' when `n` is a multiple of 3 |
| `Base64.DecodeEncode` | src/HashCash.java:98-100 | decoding the encoding of any byte sequence returns it |
| `Base64.EncodeInjective` | src/HashCash.java:98-100 | different byte sequences have different encodings |
| `HashCash.RandomCharactersTable` | src/HashCash.java:15-19 | `randomCharacters` has 64 entries: 'a'..'z', 'A'..'Z', '0'..'9', then '+' and '/', in that order |
| `HashCash.RandomCharacter` | src/HashCash.java:15-19 | entries of `randomCharacters` are ASCII, never ':', and '/' is exactly the last (index 63) |
| `HashCash.GenerateString` | src/HashCash.java:77-90 | the result is the Base64 text of the characters the draws pick, in draw order |
| `HashCash.RawTokenAvoidsSlash` | src/HashCash.java:82-84 | a raw token has one ASCII character per draw and never contains '/' |
| `HashCash.TokenShape` | src/HashCash.java:42 | the 12-character token encodes to 16 alphabet symbols, with no '=' and no ':' |
| `HashCash.ChallengeString` | src/HashCash.java:45-57 | the challenge ends with ':' and begins with the decimal version followed by ':' |
| `HashCash.ParseChallengeString` | src/HashCash.java:45-57 | the challenge determines version, difficulty, timestamp, resource and token, even when the resource contains ':' |
| `HashCash.HashCash.Init` | src/HashCash.java:36-57 | fields take the arguments; the token comes from the draws; the challenge is the canonical string of those fields |
| `HashCash.HashCash.constructor` | src/HashCash.java:36-60 | `HashCash(version, difficulty, resource)` sets those fields and the canonical challenge |
| `HashCash.HashCash.WithResource` | src/HashCash.java:63-65 | `HashCash(resource)` uses version 1 and difficulty 24 |
| `HashCash.HashCash.WithVersion` | src/HashCash.java:67-69 | `HashCash(version, resource)` uses difficulty 24 |
| `HashCash.HashCash.Mine` | src/HashCash.java:102-150 | on return `nonce >= 1` passes the verifier, every nonce in `[1, nonce)` fails it, and only `nonce` changes |
| `HashCash.CombinedDigest` | src/HashCash.java:122-132 | the digest is taken over the UTF-8 bytes of the challenge followed by those of the Base64 text of the nonce string; the verifier computes the same at src/HashCash.java:164-170 |
| `HashCash.IsValidSolution` | src/HashCash.java:160-173 | `isValidSolution` tests the leading bits of `CombinedDigest`; a difficulty of 0 or less accepts every nonce; its byte-level reading is `ValidSolutionAsBytes` and its monotonicity is `AcceptedAtLowerDifficulty` |
| `HashCash.ValidSolutionAsBytes` | src/HashCash.java:160-173 | the verifier accepts a nonce iff the first `d / 8` bytes of the digest of `challenge + Base64(nonce)` are zero and `2^(d % 8)` divides the next byte |
| `HashCash.AcceptedAtLowerDifficulty` | src/HashCash.java:160-173 | a nonce the verifier accepts at one difficulty is accepted at every lower one |
| `HashCash.RunDemo` | src/HashCash.java:297-314 | mining at difficulty 24 and verifying at difficulty 20 always reports a valid solution |

## Left out

- SHA-256 (`SHAUtils.digest`) and `SHAUtils.bytesToHex`: `SHAUtils` is not part of this model. The digest is any function that returns 32 bytes.
- `System.currentTimeMillis()` and `java.util.Random`: replaced by the `timeStamp` and `draws` arguments. The model does not describe the distribution of the draws.
- All console output (`System.out.println`), and the timing with `System.nanoTime` in `main`: output and floating point only.
- `ByteBuffer.allocate(32)` and `Arrays.copyOf`: these only copy the digest, so the model uses the digest sequence directly.
- The getters and setters: folded into the class fields.
- The unused `bytes` and `bits` locals of `mine`: they are only printed.
- `HashCash.HashCash.Mine`: requires that some nonce in `[1, Long.MAX_VALUE]` solves the challenge, because Dafny's loops must terminate. Without one, the nonce wraps to `Long.MIN_VALUE` after `Long.MAX_VALUE`, and the search goes on through the negative nonces and 0. The source stops at the first of those that solves, leaving `nonce <= 0`, and loops forever if no `long` value solves. Neither run is modelled.
- `LeadingZeros.IsSolutionToChallenge`: requires `difficulty <= 8 * |byteArray|`, so no input above that bound is modelled. The source handles two such cases differently. When a set bit lies among the first `8 * |byteArray|` bits, it returns `false` normally. Otherwise it throws `ArrayIndexOutOfBoundsException`. Neither path is modelled.
- `HashCash.IsValidSolution` and `HashCash.HashCash.Mine`: require `difficulty <= 256` for the same reason. Above 256 neither the early `false` nor the `ArrayIndexOutOfBoundsException` is modelled.
- Java strings are UTF-16. For an unpaired surrogate, for example in `resource`, `getBytes(UTF_8)` writes `'?'` (0x3F). A Dafny `string` cannot hold an unpaired surrogate, so that input cannot be expressed in the model. The resource only reaches the abstract digest, through the challenge text.
