/**
  Base64 with the standard alphabet and canonical padding, as section 4 of
  RFC 4648 defines it: encoding, and a decoder that accepts nothing but
  encodings.
 */
module Base64 {
  import opened Octets
  import opened Wrappers

  type Sextet = v: nat | v < 64

  // ---------- three bytes are four sextets ----------

  function S0(a: Byte): Sextet { a / 4 }
  function S1(a: Byte, b: Byte): Sextet { a % 4 * 16 + b / 16 }
  function S2(b: Byte, c: Byte): Sextet { b % 16 * 4 + c / 64 }
  function S3(c: Byte): Sextet { c % 64 }

  function B0(p: Sextet, q: Sextet): Byte { p * 4 + q / 16 }
  function B1(q: Sextet, r: Sextet): Byte { q % 16 * 16 + r / 4 }
  function B2(r: Sextet, t: Sextet): Byte { r % 4 * 64 + t }

  lemma BytesRegroup(a: Byte, b: Byte, c: Byte)
    ensures B0(S0(a), S1(a, b)) == a && B1(S1(a, b), S2(b, c)) == b && B2(S2(b, c), S3(c)) == c
    ensures S1(a, 0) % 16 == 0 && S2(b, 0) % 4 == 0
  {
  }

  lemma SextetsRegroup(p: Sextet, q: Sextet, r: Sextet, t: Sextet)
    ensures S0(B0(p, q)) == p && S1(B0(p, q), B1(q, r)) == q && S2(B1(q, r), B2(r, t)) == r && S3(B2(r, t)) == t
    ensures q % 16 == 0 ==> S1(B0(p, q), 0) == q
    ensures r % 4 == 0 ==> S2(B1(q, r), 0) == r
  {
  }

  // ---------- the alphabet ----------

  function Letter(v: Sextet): char {
    if v < 26 then 'A' + v as char
    else if v < 52 then 'a' + (v - 26) as char
    else if v < 62 then '0' + (v - 52) as char
    else if v == 62 then '+'
    else '/'
  }

  function CharValue(c: char): Option<Sextet> {
    if 'A' <= c <= 'Z' then Some((c - 'A') as int)
    else if 'a' <= c <= 'z' then Some((c - 'a') as int + 26)
    else if '0' <= c <= '9' then Some((c - '0') as int + 52)
    else if c == '+' then Some(62)
    else if c == '/' then Some(63)
    else None
  }

  lemma LetterValue(v: Sextet)
    ensures CharValue(Letter(v)) == Some(v) && Letter(v) != '='
  {
  }

  lemma ValueLetter(c: char)
    ensures CharValue(c).Some? ==> Letter(CharValue(c).value) == c && c != '='
  {
  }

  // ---------- encoding ----------

  function Quad(a: Byte, b: Byte, c: Byte): string {
    [Letter(S0(a)), Letter(S1(a, b)), Letter(S2(b, c)), Letter(S3(c))]
  }

  /** The last one to three bytes. */
  function Tail(bytes: seq<Byte>): (s: string)
    requires 1 <= |bytes| <= 3
    ensures |s| == 4
  {
    if |bytes| == 1 then [Letter(S0(bytes[0])), Letter(S1(bytes[0], 0)), '=', '=']
    else if |bytes| == 2 then [Letter(S0(bytes[0])), Letter(S1(bytes[0], bytes[1])), Letter(S2(bytes[1], 0)), '=']
    else Quad(bytes[0], bytes[1], bytes[2])
  }

  function Encode(bytes: seq<Byte>): string {
    if bytes == [] then ""
    else if |bytes| <= 3 then Tail(bytes)
    else Quad(bytes[0], bytes[1], bytes[2]) + Encode(bytes[3..])
  }

  // ---------- decoding ----------

  /** Four characters without padding. */
  function FullQuad(s: string): Option<seq<Byte>>
    requires |s| == 4
  {
    match (CharValue(s[0]), CharValue(s[1]), CharValue(s[2]), CharValue(s[3]))
    case (Some(p), Some(q), Some(r), Some(t)) => Some([B0(p, q), B1(q, r), B2(r, t)])
    case _ => None
  }

  /** The last four characters: padding is allowed, and the bits it cuts off must be zero. */
  function LastQuad(s: string): Option<seq<Byte>>
    requires |s| == 4
  {
    if s[3] != '=' then FullQuad(s)
    else if s[2] != '=' then
      match (CharValue(s[0]), CharValue(s[1]), CharValue(s[2]))
      case (Some(p), Some(q), Some(r)) => if r % 4 == 0 then Some([B0(p, q), B1(q, r)]) else None
      case _ => None
    else
      match (CharValue(s[0]), CharValue(s[1]))
      case (Some(p), Some(q)) => if q % 16 == 0 then Some([B0(p, q)]) else None
      case _ => None
  }

  function Decode(s: string): Option<seq<Byte>> {
    if s == "" then Some([])
    else if |s| < 4 then None
    else if |s| == 4 then LastQuad(s)
    else match (FullQuad(s[..4]), Decode(s[4..]))
      case (Some(first), Some(rest)) => Some(first + rest)
      case _ => None
  }

  // ---------- the two are inverse ----------

  lemma QuadDecodes(a: Byte, b: Byte, c: Byte)
    ensures FullQuad(Quad(a, b, c)) == Some([a, b, c])
    ensures Quad(a, b, c)[3] != '='
  {
    hide S0, S1, S2, S3, B0, B1, B2, Letter, CharValue;
    LetterValue(S0(a));
    LetterValue(S1(a, b));
    LetterValue(S2(b, c));
    LetterValue(S3(c));
    BytesRegroup(a, b, c);
  }

  lemma TailDecodes(bytes: seq<Byte>)
    requires 1 <= |bytes| <= 3
    ensures LastQuad(Tail(bytes)) == Some(bytes)
  {
    hide S0, S1, S2, S3, B0, B1, B2, Letter, CharValue;
    var a, b := bytes[0], if |bytes| > 1 then bytes[1] else 0;
    if |bytes| == 3 {
      QuadDecodes(a, b, bytes[2]);
      assert bytes == [a, b, bytes[2]];
    } else {
      assert bytes == if |bytes| == 1 then [a] else [a, b];
      LetterValue(S0(a));
      LetterValue(S1(a, b));
      LetterValue(S2(b, 0));
      BytesRegroup(a, b, 0);
    }
  }

  lemma FourLetters(a: Byte, b: Byte, c: Byte)
    ensures |Quad(a, b, c)| == 4
  {
  }

  lemma {:induction false} EncodeLength(bytes: seq<Byte>)
    ensures |Encode(bytes)| == (|bytes| + 2) / 3 * 4
  {
    hide Quad, Tail;
    if |bytes| > 3 {
      FourLetters(bytes[0], bytes[1], bytes[2]);
      EncodeLength(bytes[3..]);
      assert |bytes| + 2 == (|bytes[3..]| + 2) + 3;
    }
  }

  /** Decoding undoes encoding on every byte string. */
  lemma {:induction false} DecodeEncode(bytes: seq<Byte>)
    ensures Decode(Encode(bytes)) == Some(bytes)
  {
    hide Quad, Tail, FullQuad, LastQuad;
    if |bytes| > 3 {
      var head := Quad(bytes[0], bytes[1], bytes[2]);
      var rest := Encode(bytes[3..]);
      DecodeEncode(bytes[3..]);
      EncodeLength(bytes[3..]);
      QuadDecodes(bytes[0], bytes[1], bytes[2]);
      FourLetters(bytes[0], bytes[1], bytes[2]);
      assert (head + rest)[..4] == head && (head + rest)[4..] == rest;
      assert bytes == [bytes[0], bytes[1], bytes[2]] + bytes[3..];
    } else if bytes != [] {
      TailDecodes(bytes);
    }
  }

  lemma FullQuadEncodes(s: string)
    requires |s| == 4 && FullQuad(s).Some?
    ensures var v := FullQuad(s).value; |v| == 3 && Quad(v[0], v[1], v[2]) == s && s[3] != '='
  {
    hide S0, S1, S2, S3, B0, B1, B2, Letter, CharValue;
    ValueLetter(s[0]);
    ValueLetter(s[1]);
    ValueLetter(s[2]);
    ValueLetter(s[3]);
    SextetsRegroup(CharValue(s[0]).value, CharValue(s[1]).value, CharValue(s[2]).value, CharValue(s[3]).value);
  }

  lemma LastQuadEncodes(s: string)
    requires |s| == 4 && LastQuad(s).Some?
    ensures 1 <= |LastQuad(s).value| <= 3 && Tail(LastQuad(s).value) == s
  {
    hide S0, S1, S2, S3, B0, B1, B2, Letter, CharValue;
    if s[3] != '=' {
      FullQuadEncodes(s);
    } else {
      ValueLetter(s[0]);
      ValueLetter(s[1]);
      ValueLetter(s[2]);
      var r: Sextet := if s[2] != '=' then CharValue(s[2]).value else 0;
      SextetsRegroup(CharValue(s[0]).value, CharValue(s[1]).value, r, 0);
    }
  }

  /** Whatever decodes is the encoding of what it decodes to: there is one encoding of each byte string. */
  lemma {:induction false} EncodeDecode(s: string)
    requires Decode(s).Some?
    ensures Encode(Decode(s).value) == s
    ensures Decode(s).value == [] <==> s == ""
  {
    hide Quad, Tail, FullQuad, LastQuad;
    if |s| == 4 {
      LastQuadEncodes(s);
    } else if s != "" {
      EncodeDecode(s[4..]);
      FullQuadEncodes(s[..4]);
      var first, rest := FullQuad(s[..4]).value, Decode(s[4..]).value;
      assert (first + rest)[3..] == rest;
      assert s == s[..4] + s[4..];
    }
  }

  /** Alphabet or padding. */
  predicate Plain(c: char) { CharValue(c).Some? || c == '=' }

  /** Encodings consist of alphabet and padding characters only. */
  lemma {:induction false} EncodeChars(bytes: seq<Byte>)
    ensures forall c :: c in Encode(bytes) ==> Plain(c)
  {
    hide S0, S1, S2, S3, Letter, CharValue;
    if |bytes| > 3 {
      EncodeChars(bytes[3..]);
      QuadChars(bytes[0], bytes[1], bytes[2]);
    } else if |bytes| == 3 {
      QuadChars(bytes[0], bytes[1], bytes[2]);
    } else if bytes != [] {
      var b := if |bytes| > 1 then bytes[1] else 0;
      LetterValue(S0(bytes[0]));
      LetterValue(S1(bytes[0], b));
      LetterValue(S2(b, 0));
    }
  }

  lemma QuadChars(a: Byte, b: Byte, c: Byte)
    ensures forall x :: x in Quad(a, b, c) ==> Plain(x)
  {
    hide S0, S1, S2, S3, Letter, CharValue;
    LetterValue(S0(a));
    LetterValue(S1(a, b));
    LetterValue(S2(b, c));
    LetterValue(S3(c));
  }

  // ---------- what an encoding is ----------

  const CAPITALS: string := "ABCDEFGHIJKLMNOPQRSTUVWXYZ"
  const SMALLS: string := "abcdefghijklmnopqrstuvwxyz"
  const OTHERS: string := "0123456789+/"

  function Alphabet(): (s: string)
    ensures |s| == 64
  {
    CAPITALS + SMALLS + OTHERS
  }

  lemma CapitalIs(v: nat)
    requires v < 26
    ensures Letter(v) == CAPITALS[v] && Letter(v + 26) == SMALLS[v]
  {
  }

  lemma OtherIs(v: nat)
    requires v < 12
    ensures Letter(v + 52) == OTHERS[v]
  {
  }

  lemma LetterIs(v: Sextet)
    ensures Letter(v) == Alphabet()[v]
  {
    hide Letter;
    if v < 26 {
      CapitalIs(v);
    } else if v < 52 {
      CapitalIs(v - 26);
    } else {
      OtherIs(v - 52);
    }
  }

  /** Three bytes, read as one number with the first byte on top, are four digits to the base of 64. */
  lemma QuadExact(a: Byte, b: Byte, c: Byte) returns (d0: Sextet, d1: Sextet, d2: Sextet, d3: Sextet)
    ensures d0 * 262144 + d1 * 4096 + d2 * 64 + d3 == a * 65536 + b * 256 + c
    ensures Quad(a, b, c) == [Alphabet()[d0], Alphabet()[d1], Alphabet()[d2], Alphabet()[d3]]
  {
    d0, d1, d2, d3 := S0(a), S1(a, b), S2(b, c), S3(c);
    LetterIs(d0);
    LetterIs(d1);
    LetterIs(d2);
    LetterIs(d3);
    hide Letter, Alphabet;
  }

  /** Group i of an encoding stands for bytes 3i to 3i + 2. */
  lemma {:induction false} GroupExact(bytes: seq<Byte>, i: nat)
    requires 3 * i + 3 <= |bytes|
    ensures 4 * i + 4 <= |Encode(bytes)|
    ensures Encode(bytes)[4 * i..4 * i + 4] == Quad(bytes[3 * i], bytes[3 * i + 1], bytes[3 * i + 2])
  {
    hide Quad;
    var group := Quad(bytes[0], bytes[1], bytes[2]);
    EncodeLength(bytes);
    FourLetters(bytes[0], bytes[1], bytes[2]);
    if |bytes| == 3 {
      assert Encode(bytes) == group;
    } else {
      var rest := Encode(bytes[3..]);
      assert Encode(bytes) == group + rest;
      if i == 0 {
        assert (group + rest)[..4] == group;
      } else {
        GroupExact(bytes[3..], i - 1);
        assert (group + rest)[4 * i..4 * i + 4] == rest[4 * (i - 1)..4 * (i - 1) + 4];
      }
    }
  }

  lemma FirstTwo(a: Byte)
    ensures Quad(a, 0, 0)[..2] == [Letter(S0(a)), Letter(S1(a, 0))]
  {
    hide S0, S1, S2, S3, Letter;
  }

  lemma FirstThree(a: Byte, b: Byte)
    ensures Quad(a, b, 0)[..3] == [Letter(S0(a)), Letter(S1(a, b)), Letter(S2(b, 0))]
  {
    hide S0, S1, S2, S3, Letter;
  }

  /** One or two bytes that are left make the first digits of the group they would begin with zeros, and padding. */
  lemma LastExact(bytes: seq<Byte>)
    requires 1 <= |bytes| <= 2
    ensures |bytes| == 1 ==> Encode(bytes) == Quad(bytes[0], 0, 0)[..2] + "=="
    ensures |bytes| == 2 ==> Encode(bytes) == Quad(bytes[0], bytes[1], 0)[..3] + "="
  {
    hide S0, S1, S2, S3, Letter, Quad;
    if |bytes| == 1 {
      FirstTwo(bytes[0]);
    } else {
      FirstThree(bytes[0], bytes[1]);
    }
  }
}
