/** Base64 as defined in section 4 of RFC 4648: the standard 64-symbol alphabet,
    every three input bytes become four symbols, and a final group of one or two
    bytes is completed with '=' padding (`Base64.getEncoder()` in Java). */
module Base64 {
  import opened Primitives
  import Utf8

  const Pad: char := '='

  /** The value of a symbol of the alphabet, or -1 for any other character. */
  function SymbolValue(c: char): (v: int)
    ensures -1 <= v < 64
  {
    if 'A' <= c <= 'Z' then c as int - 'A' as int
    else if 'a' <= c <= 'z' then c as int - 'a' as int + 26
    else if '0' <= c <= '9' then c as int - '0' as int + 52
    else if c == '+' then 62
    else if c == '/' then 63
    else -1
  }

  predicate IsSymbol(c: char) {
    SymbolValue(c) >= 0
  }

  /** The alphabet of Table 1 of RFC 4648: 'A'..'Z', 'a'..'z', '0'..'9', '+', '/'.
      Each symbol stands for its own position in the table. */
  function Symbol(k: int): (c: char)
    requires 0 <= k < 64
    ensures SymbolValue(c) == k
    ensures c as int < 0x80
  {
    if k < 26 then ('A' as int + k) as char
    else if k < 52 then ('a' as int + k - 26) as char
    else if k < 62 then ('0' as int + k - 52) as char
    else if k == 62 then '+'
    else '/'
  }

  /** Four symbols for three bytes. */
  function EncodeGroup(b0: byte, b1: byte, b2: byte): string {
    [Symbol(b0 / 4), Symbol((b0 % 4) * 16 + b1 / 16), Symbol((b1 % 16) * 4 + b2 / 64), Symbol(b2 % 64)]
  }

  /** The encoding of a byte sequence. */
  function Encode(s: seq<byte>): (r: string)
    ensures |r| == 4 * ((|s| + 2) / 3)
    decreases |s|
  {
    if |s| == 0 then []
    else if |s| == 1 then [Symbol(s[0] / 4), Symbol((s[0] % 4) * 16), Pad, Pad]
    else if |s| == 2 then [Symbol(s[0] / 4), Symbol((s[0] % 4) * 16 + s[1] / 16), Symbol((s[1] % 16) * 4), Pad]
    else EncodeGroup(s[0], s[1], s[2]) + Encode(s[3..])
  }

  /** Every character of an encoding is a symbol of the alphabet or '='; the
      '=' padding appears only when the input length is not a multiple of three. */
  lemma {:induction false} EncodeAlphabet(s: seq<byte>)
    ensures forall i :: 0 <= i < |Encode(s)| ==> IsSymbol(Encode(s)[i]) || Encode(s)[i] == Pad
    ensures |s| % 3 == 0 ==> forall i :: 0 <= i < |Encode(s)| ==> IsSymbol(Encode(s)[i])
    decreases |s|
  {
    if |s| >= 3 {
      EncodeAlphabet(s[3..]);
      var g, rest := EncodeGroup(s[0], s[1], s[2]), Encode(s[3..]);
      assert Encode(s) == g + rest;
      assert forall i :: 0 <= i < 4 ==> IsSymbol(g[i]);
      assert forall i :: 4 <= i < |Encode(s)| ==> Encode(s)[i] == rest[i - 4];
    }
  }

  /** `generateBase64EncodedString`: the Base64 text of the string's UTF-8 bytes. */
  function EncodeString(s: string): (r: string)
    ensures Decode(r) == Some(Utf8.Encode(s))
  {
    DecodeEncode(Utf8.Encode(s));
    Encode(Utf8.Encode(s))
  }

  /** The bytes of a group of two, three or four symbols (the rest padding). */
  function DecodeGroup(s: string): (r: Option<seq<byte>>)
    requires |s| == 4
  {
    var v0, v1, v2, v3 := SymbolValue(s[0]), SymbolValue(s[1]), SymbolValue(s[2]), SymbolValue(s[3]);
    if v0 < 0 || v1 < 0 then None
    else if s[2] == Pad && s[3] == Pad then Some([v0 * 4 + v1 / 16])
    else if v2 < 0 then None
    else if s[3] == Pad then Some([v0 * 4 + v1 / 16, (v1 % 16) * 16 + v2 / 4])
    else if v3 < 0 then None
    else Some([v0 * 4 + v1 / 16, (v1 % 16) * 16 + v2 / 4, (v2 % 4) * 64 + v3])
  }

  /** Decoding: groups of four symbols, padding allowed only in the last group. */
  function Decode(s: string): (r: Option<seq<byte>>)
    decreases |s|
  {
    if |s| == 0 then Some([])
    else if |s| < 4 then None
    else if |s| == 4 then DecodeGroup(s)
    else if s[3] == Pad then None
    else match DecodeGroup(s[..4])
      case None => None
      case Some(g) =>
        match Decode(s[4..])
        case None => None
        case Some(rest) => Some(g + rest)
  }

  lemma DecodeTail1(b0: byte)
    ensures DecodeGroup(Encode([b0])) == Some([b0])
  {
    var e := Encode([b0]);
    assert SymbolValue(e[0]) == b0 / 4 && SymbolValue(e[1]) == (b0 % 4) * 16;
  }

  lemma DecodeTail2(b0: byte, b1: byte)
    ensures DecodeGroup(Encode([b0, b1])) == Some([b0, b1])
  {
    var e := Encode([b0, b1]);
    assert SymbolValue(e[0]) == b0 / 4;
    assert SymbolValue(e[1]) == (b0 % 4) * 16 + b1 / 16;
    assert SymbolValue(e[2]) == (b1 % 16) * 4 && e[2] != Pad;
  }

  lemma DecodeFullGroup(b0: byte, b1: byte, b2: byte)
    ensures DecodeGroup(EncodeGroup(b0, b1, b2)) == Some([b0, b1, b2])
  {
    var g := EncodeGroup(b0, b1, b2);
    var v0, v1, v2, v3 := b0 / 4, (b0 % 4) * 16 + b1 / 16, (b1 % 16) * 4 + b2 / 64, b2 % 64;
    assert SymbolValue(g[0]) == v0 && SymbolValue(g[1]) == v1;
    assert SymbolValue(g[2]) == v2 && g[2] != Pad;
    assert SymbolValue(g[3]) == v3 && g[3] != Pad;
    assert v0 * 4 + v1 / 16 == b0 by {
      assert v1 / 16 == b0 % 4;
    }
    assert (v1 % 16) * 16 + v2 / 4 == b1 by {
      assert v1 % 16 == b1 / 16 && v2 / 4 == b1 % 16;
    }
    assert (v2 % 4) * 64 + v3 == b2 by {
      assert v2 % 4 == b2 / 64;
    }
  }

  /** Decoding undoes encoding, so the encoding loses no information. */
  lemma {:induction false} DecodeEncode(s: seq<byte>)
    ensures Decode(Encode(s)) == Some(s)
    decreases |s|
  {
    if |s| == 1 {
      assert [s[0]] == s;
      DecodeTail1(s[0]);
    } else if |s| == 2 {
      assert [s[0], s[1]] == s;
      DecodeTail2(s[0], s[1]);
    } else if |s| >= 3 {
      var e, g, rest := Encode(s), EncodeGroup(s[0], s[1], s[2]), Encode(s[3..]);
      DecodeFullGroup(s[0], s[1], s[2]);
      assert e == g + rest;
      assert s == [s[0], s[1], s[2]] + s[3..];
      if |s| == 3 {
        assert s[3..] == [] && rest == [];
        assert e == g;
        assert [s[0], s[1], s[2]] == s;
      } else {
        assert e[..4] == g && e[4..] == rest;
        DecodeEncode(s[3..]);
        assert Decode(e) == Some([s[0], s[1], s[2]] + s[3..]);
      }
    }
  }

  /** Encoding is one-to-one. */
  lemma EncodeInjective(s: seq<byte>, t: seq<byte>)
    requires Encode(s) == Encode(t)
    ensures s == t
  {
    DecodeEncode(s);
    DecodeEncode(t);
  }
}
