/**
  Encrypted strings as text: type number, IV, ciphertext and MAC in Base64,
  with the parser of that form.
 */
module EncStrings {
  import opened Base64
  import opened Octets
  import opened Text
  import opened Wrappers

  datatype EncString = EncString(encType: nat, iv: seq<Byte>, ciphertext: seq<Byte>, mac: Option<seq<Byte>>)

  // ---------- the text form ----------

  function Decimal(n: nat): (s: string)
    ensures |s| >= 1 && AllDigits(s)
  {
    if n < 10 then ['0' + n as char] else Decimal(n / 10) + ['0' + (n % 10) as char]
  }

  function Display(e: EncString): string {
    Decimal(e.encType) + "." + Encode(e.iv) + "|" + Encode(e.ciphertext)
    + (if e.mac.Some? then "|" + Encode(e.mac.value) else "")
  }

  /** Rust's u8 parser: an optional plus sign, at least one digit, nothing else, and in range. */
  function ParseU8(s: string): Option<nat> {
    var digits := if s != "" && s[0] == '+' then s[1..] else s;
    if digits == "" || !AllDigits(digits) || DigitsValue(digits) > 255 then None else Some(DigitsValue(digits))
  }

  function ParseParts(encType: nat, parts: seq<string>): Option<EncString> {
    if encType == 2 && |parts| == 3 then
      match (Decode(parts[0]), Decode(parts[1]), Decode(parts[2]))
      case (Some(iv), Some(ciphertext), Some(mac)) => Some(EncString(encType, iv, ciphertext, Some(mac)))
      case _ => None
    else if encType == 0 && |parts| == 2 then
      match (Decode(parts[0]), Decode(parts[1]))
      case (Some(iv), Some(ciphertext)) => Some(EncString(encType, iv, ciphertext, None))
      case _ => None
    else None
  }

  function Parse(s: string): Option<EncString> {
    match SplitOnce(s, '.')
    case None => None
    case Some((prefix, rest)) =>
      match ParseU8(prefix)
      case None => None
      case Some(encType) => ParseParts(encType, Split(rest, '|'))
  }

  // ---------- parsing and printing ----------

  lemma {:induction false} DecimalValue(n: nat)
    ensures DigitsValue(Decimal(n)) == n
  {
    if n >= 10 {
      DecimalValue(n / 10);
      var front := Decimal(n / 10);
      assert (front + ['0' + (n % 10) as char])[..|front|] == front;
    }
  }

  lemma DecimalParses(n: nat)
    requires n < 256
    ensures ParseU8(Decimal(n)) == Some(n)
    ensures '.' !in Decimal(n)
  {
    DecimalValue(n);
    assert IsDigit(Decimal(n)[0]);
  }

  lemma SplitTwo(a: string, b: string, c: char)
    requires c !in a && c !in b
    ensures Split(a + [c] + b, c) == [a, b]
  {
    SplitOnceAt(a, c, b);
    SplitOnceNone(b, c);
    assert [a] + [b] == [a, b];
  }

  lemma NoSeparators(bytes: seq<Byte>)
    ensures '.' !in Encode(bytes) && '|' !in Encode(bytes)
  {
    EncodeChars(bytes);
    assert !Plain('.') && !Plain('|');
  }

  /** The two or three encoded fields. */
  function Fields(e: EncString): seq<string> {
    if e.mac.Some? then [Encode(e.iv), Encode(e.ciphertext), Encode(e.mac.value)] else [Encode(e.iv), Encode(e.ciphertext)]
  }

  function Body(e: EncString): string { Join(Fields(e), '|') }

  lemma JoinTwo(a: string, b: string, c: char)
    ensures Join([a, b], c) == a + [c] + b
  {
    assert [a, b][1..] == [b];
  }

  lemma JoinThree(a: string, b: string, d: string, c: char)
    ensures Join([a, b, d], c) == a + [c] + b + [c] + d
  {
    assert [a, b, d][1..] == [b, d];
    JoinTwo(b, d, c);
    assert a + [c] + (b + [c] + d) == a + [c] + b + [c] + d;
  }

  lemma DisplayShape(e: EncString)
    ensures Display(e) == Decimal(e.encType) + ['.'] + Body(e)
  {
    hide Encode, Join;
    var n, a, b := Decimal(e.encType), Encode(e.iv), Encode(e.ciphertext);
    if e.mac.Some? {
      var m := Encode(e.mac.value);
      JoinThree(a, b, m, '|');
      assert n + "." + a + "|" + b + ("|" + m) == n + ['.'] + (a + ['|'] + b + ['|'] + m);
    } else {
      JoinTwo(a, b, '|');
      assert n + "." + a + "|" + b + "" == n + ['.'] + (a + ['|'] + b);
    }
  }

  lemma BodySplits(e: EncString)
    ensures Split(Body(e), '|') == Fields(e)
  {
    hide Encode, Join, Split;
    var a, b := Encode(e.iv), Encode(e.ciphertext);
    NoSeparators(e.iv);
    NoSeparators(e.ciphertext);
    if e.mac.Some? {
      var m := Encode(e.mac.value);
      NoSeparators(e.mac.value);
      JoinThree(a, b, m, '|');
      SplitThree(a, b, m, '|');
    } else {
      JoinTwo(a, b, '|');
      SplitTwo(a, b, '|');
    }
  }

  /** The values the type can stand for: standard with a MAC, or legacy without one. */
  predicate Standard(e: EncString) {
    (e.encType == 2 && e.mac.Some?) || (e.encType == 0 && e.mac.None?)
  }

  /** Parsing undoes printing exactly for the standard values; any other printed value is rejected. */
  lemma ParseDisplay(e: EncString)
    requires e.encType < 256
    ensures Parse(Display(e)) == if Standard(e) then Some(e) else None
  {
    hide Encode, Decode, Split, SplitOnce, ParseU8;
    DisplayShape(e);
    DecimalParses(e.encType);
    SplitOnceAt(Decimal(e.encType), '.', Body(e));
    BodySplits(e);
    DecodeEncode(e.iv);
    DecodeEncode(e.ciphertext);
    if e.mac.Some? {
      DecodeEncode(e.mac.value);
    }
  }

  lemma PartsEncode(encType: nat, parts: seq<string>)
    requires ParseParts(encType, parts).Some?
    ensures var e := ParseParts(encType, parts).value; Standard(e) && e.encType == encType && Fields(e) == parts
  {
    hide Encode, Decode;
    EncodeDecode(parts[0]);
    EncodeDecode(parts[1]);
    if encType == 2 {
      EncodeDecode(parts[2]);
    }
  }

  /** Whatever parses is standard and prints back to itself up to the spelling of the type number. */
  lemma DisplayParse(s: string) returns (prefix: string)
    requires Parse(s).Some?
    ensures var e := Parse(s).value;
      && Standard(e) && ParseU8(prefix) == Some(e.encType) && '.' !in prefix
      && s == prefix + ['.'] + Body(e)
      && Display(e) == Decimal(e.encType) + ['.'] + Body(e)
      && (Display(e) == s <==> prefix == "0" || prefix == "2")
  {
    hide Encode, Decode, Split, SplitOnce, ParseU8;
    SplitOnceParts(s, '.');
    var (before, rest) := SplitOnce(s, '.').value;
    prefix := before;
    var e := Parse(s).value;
    PartsEncode(e.encType, Split(rest, '|'));
    JoinSplit(rest, '|');
    DisplayShape(e);
    DecimalParses(e.encType);
    assert Decimal(2) == "2" && Decimal(0) == "0";
    if Display(e) == s {
      SplitOnceAt(prefix, '.', rest);
      SplitOnceAt(Decimal(e.encType), '.', Body(e));
    }
    if prefix == "0" || prefix == "2" {
      SingleDigit(prefix);
    }
  }

  lemma SingleDigit(s: string)
    requires |s| == 1 && IsDigit(s[0])
    ensures ParseU8(s) == Some((s[0] - '0') as int)
  {
    assert s[..0] == "";
    assert AllDigits(s);
    assert DigitsValue(s) == 10 * DigitsValue("") + (s[0] - '0') as int;
  }

  /** Another spelling of the type is accepted: such a text does not print back to itself. */
  lemma OtherSpellings(e: EncString)
    requires Standard(e)
    ensures Parse("+" + Display(e)) == Some(e)
  {
    hide Encode, Decode, Split, SplitOnce;
    ParseDisplay(e);
    DisplayShape(e);
    var n := Decimal(e.encType);
    DecimalParses(e.encType);
    DecimalValue(e.encType);
    assert ("+" + n)[1..] == n;
    assert "+" + Display(e) == ("+" + n) + ['.'] + Body(e);
    SplitOnceAt(n, '.', Body(e));
    SplitOnceAt("+" + n, '.', Body(e));
  }
}
