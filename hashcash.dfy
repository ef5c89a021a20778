/** The HashCash puzzle object: it builds the challenge string
    `version:difficulty:timestamp:resource:token:`, searches for the first nonce
    whose digest clears `difficulty` leading bits (the prover), and checks a
    claimed nonce on its own (the verifier).

    The 256-bit digest (SHA-256 in the source) is a parameter `hash`; the wall
    clock and `java.util.Random` are parameters too: the timestamp, and the
    indices the random source drew. */
module HashCash {
  import opened Primitives
  import opened Decimal
  import Utf8
  import Base64
  import LeadingZeros

  const DigestLength: nat := 32
  const DigestBits: nat := 8 * DigestLength

  /** What the digest function returns: exactly 32 bytes. */
  type Digest = s: seq<byte> | |s| == DigestLength witness seq(32, _ => 0)

  /** The digest of a byte sequence (SHA-256 in the source). */
  type Hasher = seq<byte> -> Digest

  const DefaultVersion: Int32 := 1
  const DefaultDifficulty: Int32 := 24
  const TokenLength: nat := 12

  /** Entry `i` of `randomCharacters`: 'a'..'z', then 'A'..'Z', '0'..'9', '+', '/'. */
  function RandomCharacter(i: int): (c: char)
    requires 0 <= i < 64
    ensures c as int < 0x80 && c != ':'
    ensures c == '/' <==> i == 63
  {
    if i < 26 then ('a' as int + i) as char
    else if i < 52 then ('A' as int + i - 26) as char
    else if i < 62 then ('0' as int + i - 52) as char
    else if i == 62 then '+'
    else '/'
  }

  /** `randomCharacters.length`. */
  const RandomCharacterCount: nat := 64

  /** `randomCharacters`, the symbols a token is drawn from. */
  const RandomCharacters: seq<char> := seq(RandomCharacterCount, i requires 0 <= i < RandomCharacterCount => RandomCharacter(i))

  /** The table in the order the source lists it: 26 lower-case letters, 26
      upper-case letters, 10 digits, then '+' and '/'. */
  lemma RandomCharactersTable()
    ensures |RandomCharacters| == 64
    ensures forall i :: 0 <= i < 26 ==> RandomCharacters[i] as int == 'a' as int + i
    ensures forall i :: 26 <= i < 52 ==> RandomCharacters[i] as int == 'A' as int + (i - 26)
    ensures forall i :: 52 <= i < 62 ==> RandomCharacters[i] as int == '0' as int + (i - 52)
    ensures RandomCharacters[62] == '+' && RandomCharacters[63] == '/'
  {
  }

  /** `random.nextInt(randomCharacters.length - 1)` yields an index from 0 to 62. */
  predicate ValidDraws(draws: seq<int>, size: nat) {
    |draws| == size && forall i :: 0 <= i < |draws| ==> 0 <= draws[i] < RandomCharacterCount - 1
  }

  /** The characters the random draws pick, before Base64 encoding. */
  function RawToken(draws: seq<int>): (raw: string)
    requires ValidDraws(draws, |draws|)
  {
    seq(|draws|, i requires 0 <= i < |draws| => RandomCharacters[draws[i]])
  }

  /** `generateString`: fill a character array from the draws, then Base64-encode it. */
  method GenerateString(size: nat, draws: seq<int>) returns (encoded: string)
    requires ValidDraws(draws, size)
    ensures encoded == Base64.EncodeString(RawToken(draws))
  {
    var characters := new char[size];
    for i := 0 to size
      invariant forall j :: 0 <= j < i ==> characters[j] == RandomCharacters[draws[j]]
    {
      characters[i] := RandomCharacters[draws[i]];
    }
    assert characters[..] == RawToken(draws);
    encoded := Base64.EncodeString(characters[..]);
  }

  /** The draw bound is one short of the table, so the last symbol, '/', never
      appears in a raw token; every character is ASCII. */
  lemma RawTokenAvoidsSlash(draws: seq<int>)
    requires ValidDraws(draws, |draws|)
    ensures |RawToken(draws)| == |draws|
    ensures '/' !in RawToken(draws)
    ensures Utf8.IsAscii(RawToken(draws))
  {
    var raw := RawToken(draws);
    forall i | 0 <= i < |raw| ensures raw[i] != '/' && raw[i] as int < 0x80 {
      assert raw[i] == RandomCharacter(draws[i]);
    }
  }

  /** Twelve ASCII characters are twelve bytes, an exact multiple of three, so the
      token is sixteen Base64 symbols with no '=' padding (and no ':'). */
  lemma TokenShape(draws: seq<int>)
    requires ValidDraws(draws, TokenLength)
    ensures |Base64.EncodeString(RawToken(draws))| == 16
    ensures forall i :: 0 <= i < 16 ==> Base64.IsSymbol(Base64.EncodeString(RawToken(draws))[i])
    ensures ':' !in Base64.EncodeString(RawToken(draws))
  {
    var raw := RawToken(draws);
    RawTokenAvoidsSlash(draws);
    assert |Utf8.Encode(raw)| == 12 by {
      Utf8.EncodeAscii(raw);
    }
    var bytes := Utf8.Encode(raw);
    Base64.EncodeAlphabet(bytes);
    assert !Base64.IsSymbol(':');
  }

  /** The canonical challenge text, with its trailing ':'. */
  function ChallengeString(version: int, difficulty: int, timeStamp: int, resource: string, randomString: string): (s: string)
    ensures |s| > 0 && s[|s| - 1] == ':'
    ensures IntToString(version) + ":" <= s
  {
    IntToString(version) + ":" + IntToString(difficulty) + ":" + IntToString(timeStamp) + ":" + resource + ":" + randomString + ":"
  }

  /** The fields a challenge string is made of. */
  datatype ChallengeFields = ChallengeFields(version: int, difficulty: int, timeStamp: int, resource: string, randomString: string)

  /** Splits at the first `sep`. */
  function SplitFirst(s: string, sep: char): Option<(string, string)>
    decreases |s|
  {
    if s == [] then None
    else if s[0] == sep then Some(([], s[1..]))
    else match SplitFirst(s[1..], sep)
      case None => None
      case Some(parts) => Some(([s[0]] + parts.0, parts.1))
  }

  /** Splits at the last `sep`. */
  function SplitLast(s: string, sep: char): Option<(string, string)>
    decreases |s|
  {
    if s == [] then None
    else if s[|s| - 1] == sep then Some((s[..|s| - 1], []))
    else match SplitLast(s[..|s| - 1], sep)
      case None => None
      case Some(parts) => Some((parts.0, parts.1 + [s[|s| - 1]]))
  }

  lemma {:induction false} SplitFirstAt(p: string, sep: char, rest: string)
    requires sep !in p
    ensures SplitFirst(p + [sep] + rest, sep) == Some((p, rest))
    decreases |p|
  {
    var s := p + [sep] + rest;
    if p == [] {
      assert s[1..] == rest;
    } else {
      assert s[0] == p[0] && s[1..] == p[1..] + [sep] + rest;
      SplitFirstAt(p[1..], sep, rest);
      assert [p[0]] + p[1..] == p;
    }
  }

  lemma {:induction false} SplitLastAt(p: string, sep: char, q: string)
    requires sep !in q
    ensures SplitLast(p + [sep] + q, sep) == Some((p, q))
    decreases |q|
  {
    var s := p + [sep] + q;
    if q == [] {
      assert s[..|s| - 1] == p;
    } else {
      var last := q[|q| - 1];
      assert s[|s| - 1] == last && s[..|s| - 1] == p + [sep] + q[..|q| - 1];
      SplitLastAt(p, sep, q[..|q| - 1]);
      assert q[..|q| - 1] + [last] == q;
    }
  }

  /** Reads the five fields back out of a challenge string. The version,
      difficulty and timestamp are the first three ':'-separated fields, the token
      is the last one, and the resource, which may itself contain ':', is what lies
      between. */
  function ParseChallenge(s: string): Option<ChallengeFields> {
    match SplitFirst(s, ':')
    case None => None
    case Some(p1) =>
      match SplitFirst(p1.1, ':')
      case None => None
      case Some(p2) =>
        match SplitFirst(p2.1, ':')
        case None => None
        case Some(p3) =>
          var tail := p3.1;
          if tail == [] || tail[|tail| - 1] != ':' then None
          else match SplitLast(tail[..|tail| - 1], ':')
            case None => None
            case Some(p4) =>
              match (ParseDecimal(p1.0), ParseDecimal(p2.0), ParseDecimal(p3.0))
              case (Some(v), Some(d), Some(t)) => Some(ChallengeFields(v, d, t, p4.0, p4.1))
              case _ => None
  }

  /** The challenge string determines every field it was built from, whatever
      the resource contains, as long as the token has no ':' (a Base64 token never
      does). */
  lemma ParseChallengeString(version: int, difficulty: int, timeStamp: int, resource: string, randomString: string)
    requires ':' !in randomString
    ensures ParseChallenge(ChallengeString(version, difficulty, timeStamp, resource, randomString))
            == Some(ChallengeFields(version, difficulty, timeStamp, resource, randomString))
  {
    var v, d, t := IntToString(version), IntToString(difficulty), IntToString(timeStamp);
    var tail := resource + ":" + randomString + ":";
    var r2 := t + ":" + tail;
    var r1 := d + ":" + r2;
    var s := ChallengeString(version, difficulty, timeStamp, resource, randomString);
    assert s == v + [':'] + r1;
    SplitFirstAt(v, ':', r1);
    assert r1 == d + [':'] + r2;
    SplitFirstAt(d, ':', r2);
    assert r2 == t + [':'] + tail;
    SplitFirstAt(t, ':', tail);
    assert tail[..|tail| - 1] == resource + [':'] + randomString;
    SplitLastAt(resource, ':', randomString);
    ParseIntToString(version);
    ParseIntToString(difficulty);
    ParseIntToString(timeStamp);
  }

  /** The digest that both the prover and the verifier test: the challenge, then
      the Base64 text of the nonce string, as UTF-8 bytes. */
  function CombinedDigest(hash: Hasher, challenge: string, nonce: string): (digest: Digest)
    ensures digest == hash(Utf8.Encode(challenge) + Utf8.Encode(Base64.EncodeString(nonce)))
  {
    Utf8.EncodeAppend(challenge, Base64.EncodeString(nonce));
    hash(Utf8.Encode(challenge + Base64.EncodeString(nonce)))
  }

  /** `isValidSolution`: the verifier, independent of any mining run and of the
      difficulty written inside the challenge text. A difficulty of zero or less
      accepts every nonce, since the scan then reads no bit. */
  function IsValidSolution(hash: Hasher, challenge: string, nonce: string, difficulty: int): (valid: bool)
    requires difficulty <= DigestBits
    ensures difficulty <= 0 ==> valid
  {
    LeadingZeros.HasLeadingZeroBits(CombinedDigest(hash, challenge, nonce), difficulty)
  }

  /** What the verifier accepts, byte by byte: the first `difficulty / 8` digest
      bytes are zero and `2^(difficulty % 8)` divides the byte after them. */
  lemma ValidSolutionAsBytes(hash: Hasher, challenge: string, nonce: string, difficulty: int)
    requires 0 <= difficulty <= DigestBits
    ensures IsValidSolution(hash, challenge, nonce, difficulty) <==>
              var digest := CombinedDigest(hash, challenge, nonce);
              (forall j :: 0 <= j < difficulty / 8 ==> digest[j] == 0) &&
              (difficulty % 8 != 0 ==> digest[difficulty / 8] % LeadingZeros.Pow2(difficulty % 8) == 0)
  {
    LeadingZeros.LeadingZeroBitsAsBytes(CombinedDigest(hash, challenge, nonce), difficulty);
  }

  /** A solution accepted at one difficulty is accepted at every lower one; this is
      what lets the demonstration mine at 24 and verify at 20. */
  lemma AcceptedAtLowerDifficulty(hash: Hasher, challenge: string, nonce: string, difficulty: int, lower: int)
    requires lower <= difficulty <= DigestBits
    requires IsValidSolution(hash, challenge, nonce, difficulty)
    ensures IsValidSolution(hash, challenge, nonce, lower)
  {
    LeadingZeros.Monotonic(CombinedDigest(hash, challenge, nonce), difficulty, lower);
  }

  /** The nonce `n`, written in decimal as `Long.toString` writes it, is accepted. */
  predicate NonceSolves(hash: Hasher, challenge: string, n: int, difficulty: int)
    requires difficulty <= DigestBits
  {
    IsValidSolution(hash, challenge, IntToString(n), difficulty)
  }

  /** Some nonce from 1 up to `Long.MAX_VALUE` solves the challenge. */
  predicate Solvable(hash: Hasher, challenge: string, difficulty: int)
    requires difficulty <= DigestBits
  {
    exists n :: 1 <= n <= MaxLong && NonceSolves(hash, challenge, n, difficulty)
  }

  class HashCash {
    var nonce: Int64
    var difficulty: Int32
    var version: Int32
    var resource: string
    var challenge: string
    var timeStamp: Int64
    var randomString: string

    /** `HashCash(version, difficulty, resource)`. */
    constructor (version: Int32, difficulty: Int32, resource: string, timeStamp: Int64, draws: seq<int>)
      requires ValidDraws(draws, TokenLength)
      ensures this.version == version && this.difficulty == difficulty
      ensures this.resource == resource && this.timeStamp == timeStamp
      ensures randomString == Base64.EncodeString(RawToken(draws))
      ensures challenge == ChallengeString(version, difficulty, timeStamp, resource, randomString)
      ensures nonce == 0
    {
      new;
      Init(version, difficulty, resource, timeStamp, draws);
    }

    /** `HashCash(resource)`: version 1, difficulty 24. */
    constructor WithResource(resource: string, timeStamp: Int64, draws: seq<int>)
      requires ValidDraws(draws, TokenLength)
      ensures version == DefaultVersion && difficulty == DefaultDifficulty
      ensures this.resource == resource && this.timeStamp == timeStamp
      ensures randomString == Base64.EncodeString(RawToken(draws))
      ensures challenge == ChallengeString(DefaultVersion, DefaultDifficulty, timeStamp, resource, randomString)
      ensures nonce == 0
    {
      new;
      Init(DefaultVersion, DefaultDifficulty, resource, timeStamp, draws);
    }

    /** `HashCash(version, resource)`: difficulty 24. */
    constructor WithVersion(version: Int32, resource: string, timeStamp: Int64, draws: seq<int>)
      requires ValidDraws(draws, TokenLength)
      ensures this.version == version && difficulty == DefaultDifficulty
      ensures this.resource == resource && this.timeStamp == timeStamp
      ensures randomString == Base64.EncodeString(RawToken(draws))
      ensures challenge == ChallengeString(version, DefaultDifficulty, timeStamp, resource, randomString)
      ensures nonce == 0
    {
      new;
      Init(version, DefaultDifficulty, resource, timeStamp, draws);
    }

    /** The body shared by the three constructors, which call it once on a fresh
        object; the source has no public re-initialisation. It sets the fields,
        draws the token, and appends the fields to the challenge one by one. */
    method Init(version: Int32, difficulty: Int32, resource: string, timeStamp: Int64, draws: seq<int>)
      requires ValidDraws(draws, TokenLength)
      modifies this
      ensures this.version == version && this.difficulty == difficulty
      ensures this.resource == resource && this.timeStamp == timeStamp
      ensures randomString == Base64.EncodeString(RawToken(draws))
      ensures challenge == ChallengeString(version, difficulty, timeStamp, resource, randomString)
      ensures nonce == 0
    {
      nonce := 0;
      this.difficulty := difficulty;
      this.version := version;
      this.resource := resource;
      this.timeStamp := timeStamp;
      randomString := GenerateString(TokenLength, draws);

      var builder := IntToString(this.version);
      builder := builder + ":";
      builder := builder + IntToString(this.difficulty);
      builder := builder + ":";
      builder := builder + IntToString(this.timeStamp);
      builder := builder + ":";
      builder := builder + this.resource;
      builder := builder + ":";
      builder := builder + randomString;
      builder := builder + ":";
      challenge := builder;
    }

    /** `mine`: try nonces 1, 2, 3, ... until one passes the verifier's test. On
        return `nonce` is the smallest solution; nothing but `nonce` changes. */
    method Mine(hash: Hasher)
      requires difficulty <= DigestBits
      requires Solvable(hash, challenge, difficulty)
      modifies this`nonce
      ensures 1 <= nonce
      ensures NonceSolves(hash, challenge, nonce, difficulty)
      ensures forall n :: 1 <= n < nonce ==> !NonceSolves(hash, challenge, n, difficulty)
    {
      ghost var bound :| 1 <= bound <= MaxLong && NonceSolves(hash, challenge, bound, difficulty);
      var isSolved := false;
      nonce := 1;
      while !isSolved
        invariant 1 <= nonce <= bound
        invariant isSolved ==> NonceSolves(hash, challenge, nonce, difficulty)
        invariant forall n :: 1 <= n < nonce ==> !NonceSolves(hash, challenge, n, difficulty)
        decreases bound - nonce, if isSolved then 0 else 1
      {
        var nonceEncoded := Base64.EncodeString(IntToString(nonce));
        var combinedChallengeWithNonce := challenge + nonceEncoded;
        var byteArray := hash(Utf8.Encode(combinedChallengeWithNonce));
        assert byteArray == CombinedDigest(hash, challenge, IntToString(nonce));
        isSolved := LeadingZeros.IsSolutionToChallenge(byteArray, difficulty);
        assert isSolved == NonceSolves(hash, challenge, nonce, difficulty);
        if !isSolved {
          assert nonce != bound;
          forall n | 1 <= n <= nonce ensures !NonceSolves(hash, challenge, n, difficulty) {
            if n == nonce {
              assert !NonceSolves(hash, challenge, nonce, difficulty);
            }
          }
          nonce := nonce + 1;
        }
      }
    }
  }

  /** The demonstration in `main`: build a challenge for "Dylan Hoffman" at
      version 1 and difficulty 24, mine it, and verify the nonce at difficulty 20.
      The verification always succeeds. */
  method RunDemo(hash: Hasher, timeStamp: Int64, draws: seq<int>) returns (valid: bool)
    requires ValidDraws(draws, TokenLength)
    requires Solvable(hash, ChallengeString(1, 24, timeStamp, "Dylan Hoffman", Base64.EncodeString(RawToken(draws))), 24)
    ensures valid
  {
    var hashCash := new HashCash(1, 24, "Dylan Hoffman", timeStamp, draws);
    hashCash.Mine(hash);
    valid := IsValidSolution(hash, hashCash.challenge, IntToString(hashCash.nonce), 20);
    AcceptedAtLowerDifficulty(hash, hashCash.challenge, IntToString(hashCash.nonce), 24, 20);
  }
}
