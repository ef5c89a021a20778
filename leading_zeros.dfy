/** The puzzle's acceptance test on a digest: the first `difficulty` bits must be
    clear. Bit `i` lives in byte `i / 8`, at position `i % 8` counted from the
    least-significant end of that byte (`array[index] >> bitPosition & 1`). */
module LeadingZeros {
  import opened Primitives

  function Pow2(k: nat): (p: nat)
    ensures p >= 1
  {
    if k == 0 then 1 else 2 * Pow2(k - 1)
  }

  /** Java's arithmetic shift right `x >> k`: halve k times, rounding down. */
  function Shr(x: int, k: nat): int
    decreases k
  {
    if k == 0 then x else Shr(x / 2, k - 1)
  }

  /** `isBitSet`: binary digit `bit % 8` of byte `bit / 8`, least-significant first. */
  function IsBitSet(bytes: seq<byte>, bit: int): bool
    requires 0 <= bit < 8 * |bytes|
  {
    var index := bit / 8;
    var bitPosition := bit % 8;
    Shr(bytes[index], bitPosition) % 2 == 1
  }

  /** The first `difficulty` bits of `digest` are clear; vacuously true when
      `difficulty` is zero or negative. */
  predicate HasLeadingZeroBits(digest: seq<byte>, difficulty: int)
    requires difficulty <= 8 * |digest|
  {
    forall i :: 0 <= i < difficulty ==> !IsBitSet(digest, i)
  }

  /** `isSolutionToChallenge`: scan the bits in increasing order and stop at the
      first one that is set. */
  method IsSolutionToChallenge(byteArray: seq<byte>, difficulty: int) returns (solved: bool)
    requires difficulty <= 8 * |byteArray|
    ensures solved <==> HasLeadingZeroBits(byteArray, difficulty)
    ensures difficulty <= 0 ==> solved
  {
    var i := 0;
    while i < difficulty
      invariant 0 <= i <= if difficulty < 0 then 0 else difficulty
      invariant forall j :: 0 <= j < i ==> !IsBitSet(byteArray, j)
    {
      if IsBitSet(byteArray, i) {
        return false;
      }
      i := i + 1;
    }
    return true;
  }

  // An independent reading of a byte: its binary expansion, least-significant
  // digit first.

  function ToBits(x: int, width: nat): (bits: seq<bool>)
    ensures |bits| == width
    decreases width
  {
    if width == 0 then [] else [x % 2 == 1] + ToBits(x / 2, width - 1)
  }

  function FromBits(bits: seq<bool>): nat {
    if bits == [] then 0 else (if bits[0] then 1 else 0) + 2 * FromBits(bits[1..])
  }

  /** Eight binary digits describe every byte exactly. */
  lemma {:induction false} FromToBits(x: nat, width: nat)
    requires x < Pow2(width)
    ensures FromBits(ToBits(x, width)) == x
  {
    if width > 0 {
      FromToBits(x / 2, width - 1);
    }
  }

  lemma {:induction false} ToBitsAt(x: int, width: nat, k: nat)
    requires k < width
    ensures ToBits(x, width)[k] == (Shr(x, k) % 2 == 1)
    decreases k
  {
    if k > 0 {
      ToBitsAt(x / 2, width - 1, k - 1);
    }
  }

  /** `isBitSet(a, i)` is binary digit `i % 8` of byte `a[i / 8]`, counting from
      the least-significant digit. */
  lemma IsBitSetIsBinaryDigit(bytes: seq<byte>, bit: int)
    requires 0 <= bit < 8 * |bytes|
    ensures IsBitSet(bytes, bit) == ToBits(bytes[bit / 8], 8)[bit % 8]
    ensures bytes[bit / 8] == FromBits(ToBits(bytes[bit / 8], 8))
  {
    ToBitsAt(bytes[bit / 8], 8, bit % 8);
    FromToBits(bytes[bit / 8], 8);
  }

  /** Java sign-extends a byte to an int before shifting, so a byte of 128 or more
      is shifted as `v - 256`. Bits 0..7 come out the same either way. */
  lemma SignExtensionKeepsLowBits(v: int, k: nat)
    requires k < 8
    ensures Shr(v - 256, k) % 2 == Shr(v, k) % 2
  {
    var c := 2 * Pow2(7 - k);
    Pow2Add(7 - k, k);
    assert Pow2(7) == 128 by {
      assert Pow2(1) == 2 && Pow2(2) == 4 && Pow2(3) == 8;
      assert Pow2(4) == 16 && Pow2(5) == 32 && Pow2(6) == 64;
    }
    assert c * Pow2(k) == 256;
    ShrMinusMultiple(v, c, k);
  }

  lemma {:induction false} Pow2Add(a: nat, b: nat)
    ensures Pow2(a + b) == Pow2(a) * Pow2(b)
    decreases a
  {
    if a > 0 {
      Pow2Add(a - 1, b);
    }
  }

  lemma {:induction false} ShrMinusMultiple(v: int, c: int, k: nat)
    ensures Shr(v - c * Pow2(k), k) == Shr(v, k) - c
    decreases k
  {
    if k > 0 {
      assert (v - c * Pow2(k)) / 2 == v / 2 - c * Pow2(k - 1);
      ShrMinusMultiple(v / 2, c, k - 1);
    }
  }

  lemma ShrZero(k: nat)
    ensures Shr(0, k) == 0
  {
  }

  lemma MulModZero(d: int, m: int)
    requires d > 0
    ensures (d * m) % d == 0 && (d * m) / d == m
  {
    var t := d * m;
    var k := m - t / d;
    assert d * k == t % d;
  }

  lemma ModDouble(x: int, p: int)
    requires p >= 1
    ensures x % (2 * p) == 0 <==> x % 2 == 0 && (x / 2) % p == 0
  {
    if x % (2 * p) == 0 {
      var m := x / (2 * p);
      assert x == (2 * p) * m;
      assert x == 2 * (p * m);
      assert x / 2 == p * m;
      MulModZero(p, m);
    }
    if x % 2 == 0 && (x / 2) % p == 0 {
      var m := (x / 2) / p;
      assert x / 2 == p * m;
      assert x == (2 * p) * m;
      MulModZero(2 * p, m);
    }
  }

  /** The low `r` binary digits of `x` are zero. */
  predicate LowDigitsZero(x: int, r: nat)
    decreases r
  {
    r == 0 || (x % 2 == 0 && LowDigitsZero(x / 2, r - 1))
  }

  /** Bits 0..r-1 of `x`, read with `Shr` as `isBitSet` reads them, are clear. */
  predicate ShrDigitsZero(x: int, r: nat) {
    forall k :: 0 <= k < r ==> Shr(x, k) % 2 == 0
  }

  lemma ShrDigitsSplit(x: int, r: nat)
    requires r > 0
    ensures ShrDigitsZero(x, r) ==> x % 2 == 0 && ShrDigitsZero(x / 2, r - 1)
    ensures x % 2 == 0 && ShrDigitsZero(x / 2, r - 1) ==> ShrDigitsZero(x, r)
  {
    assert Shr(x, 0) == x;
    if ShrDigitsZero(x, r) {
      forall k | 0 <= k < r - 1 ensures Shr(x / 2, k) % 2 == 0 {
        assert Shr(x, k + 1) == Shr(x / 2, k);
      }
    }
    if x % 2 == 0 && ShrDigitsZero(x / 2, r - 1) {
      forall k | 0 <= k < r ensures Shr(x, k) % 2 == 0 {
        if k > 0 {
          assert Shr(x, k) == Shr(x / 2, k - 1);
        }
      }
    }
  }

  lemma {:induction false} LowDigitsZeroShr(x: int, r: nat)
    ensures LowDigitsZero(x, r) <==> ShrDigitsZero(x, r)
    decreases r
  {
    if r > 0 {
      LowDigitsZeroShr(x / 2, r - 1);
      ShrDigitsSplit(x, r);
    }
  }

  lemma {:induction false} LowDigitsZeroMod(x: int, r: nat)
    ensures LowDigitsZero(x, r) <==> x % Pow2(r) == 0
    decreases r
  {
    if r > 0 {
      LowDigitsZeroMod(x / 2, r - 1);
      ModDouble(x, Pow2(r - 1));
    }
  }

  /** The low `r` binary digits of `x` are all zero exactly when `2^r` divides `x`. */
  lemma LowBitsClear(x: int, r: nat)
    ensures ShrDigitsZero(x, r) <==> x % Pow2(r) == 0
  {
    LowDigitsZeroShr(x, r);
    LowDigitsZeroMod(x, r);
  }

  lemma BitOfDigest(digest: seq<byte>, j: int, k: int)
    requires 0 <= j < |digest| && 0 <= k < 8
    ensures IsBitSet(digest, 8 * j + k) == (Shr(digest[j], k) % 2 == 1)
  {
    assert (8 * j + k) / 8 == j && (8 * j + k) % 8 == k;
  }

  /** The predicate read byte by byte, one direction at a time. */
  lemma BytesFromLeadingZeroBits(digest: seq<byte>, difficulty: int)
    requires 0 <= difficulty <= 8 * |digest|
    requires HasLeadingZeroBits(digest, difficulty)
    ensures forall j :: 0 <= j < difficulty / 8 ==> digest[j] == 0
    ensures difficulty % 8 != 0 ==> digest[difficulty / 8] % Pow2(difficulty % 8) == 0
  {
    var q, r := difficulty / 8, difficulty % 8;
    forall j | 0 <= j < q ensures digest[j] == 0 {
      forall k | 0 <= k < 8 ensures Shr(digest[j], k) % 2 == 0 {
        BitOfDigest(digest, j, k);
      }
      LowBitsClear(digest[j], 8);
    }
    if r != 0 {
      forall k | 0 <= k < r ensures Shr(digest[q], k) % 2 == 0 {
        BitOfDigest(digest, q, k);
      }
      LowBitsClear(digest[q], r);
    }
  }

  lemma LeadingZeroBitsFromBytes(digest: seq<byte>, difficulty: int)
    requires 0 <= difficulty <= 8 * |digest|
    requires forall j :: 0 <= j < difficulty / 8 ==> digest[j] == 0
    requires difficulty % 8 != 0 ==> digest[difficulty / 8] % Pow2(difficulty % 8) == 0
    ensures HasLeadingZeroBits(digest, difficulty)
  {
    var q, r := difficulty / 8, difficulty % 8;
    if r != 0 {
      LowBitsClear(digest[q], r);
    }
    forall i | 0 <= i < difficulty ensures !IsBitSet(digest, i) {
      BitOfDigest(digest, i / 8, i % 8);
      if i / 8 < q {
        ShrZero(i % 8);
      }
    }
  }

  /** Byte-level reading of the predicate: the first `difficulty / 8` bytes of the
      digest are zero, and `2^(difficulty % 8)` divides the byte after them. */
  lemma LeadingZeroBitsAsBytes(digest: seq<byte>, difficulty: int)
    requires 0 <= difficulty <= 8 * |digest|
    ensures HasLeadingZeroBits(digest, difficulty) <==>
              (forall j :: 0 <= j < difficulty / 8 ==> digest[j] == 0) &&
              (difficulty % 8 != 0 ==> digest[difficulty / 8] % Pow2(difficulty % 8) == 0)
  {
    if HasLeadingZeroBits(digest, difficulty) {
      BytesFromLeadingZeroBits(digest, difficulty);
    }
    if (forall j :: 0 <= j < difficulty / 8 ==> digest[j] == 0) &&
       (difficulty % 8 != 0 ==> digest[difficulty / 8] % Pow2(difficulty % 8) == 0) {
      LeadingZeroBitsFromBytes(digest, difficulty);
    }
  }

  /** Solving a harder puzzle solves every easier one. */
  lemma Monotonic(digest: seq<byte>, difficulty: int, easier: int)
    requires difficulty <= 8 * |digest| && easier <= difficulty
    requires HasLeadingZeroBits(digest, difficulty)
    ensures HasLeadingZeroBits(digest, easier)
  {
  }

  /** The bit order in one example: a first byte of 0b00000010 has bit 0 clear and
      bit 1 set, so it meets difficulty 1 but not difficulty 2. */
  lemma BitOrderExample()
    ensures HasLeadingZeroBits([2] + seq(31, _ => 0), 1)
    ensures !HasLeadingZeroBits([2] + seq(31, _ => 0), 2)
  {
    var digest: seq<byte> := [2] + seq(31, _ => 0);
    assert IsBitSet(digest, 1);
  }
}
