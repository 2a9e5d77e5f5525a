/**
  The client's Base32 decoder: clean the text, map each character to five bits,
  shift them into a 64-bit buffer and push a byte whenever eight bits are there.
  The specification works on plain bit strings.
 */
module Base32 {
  import opened Octets
  import opened Wrappers

  type Bits = seq<bool>
  type Quintet = q: nat | q < 32

  // ---------- bit strings ----------

  /** The k lowest bits of n, most significant first. */
  function BitsOf(n: nat, k: nat): (b: Bits)
    ensures |b| == k
  {
    if k == 0 then [] else BitsOf(n / 2, k - 1) + [n % 2 == 1]
  }

  function Value(b: Bits): nat {
    if b == [] then 0 else 2 * Value(b[..|b| - 1]) + (if b[|b| - 1] then 1 else 0)
  }

  /** Logical shift right. */
  function ShiftRight(n: nat, k: nat): nat {
    if k == 0 then n else ShiftRight(n / 2, k - 1)
  }

  lemma {:induction false} BitsOfValue(b: Bits)
    ensures Value(b) < Pow2(|b|)
    ensures BitsOf(Value(b), |b|) == b
  {
    if b != [] {
      BitsOfValue(b[..|b| - 1]);
      assert b == b[..|b| - 1] + [b[|b| - 1]];
    }
  }

  lemma {:induction false} ValueOfBits(n: nat, k: nat)
    requires n < Pow2(k)
    ensures Value(BitsOf(n, k)) == n
  {
    if k > 0 {
      ValueOfBits(n / 2, k - 1);
      assert BitsOf(n, k)[..k - 1] == BitsOf(n / 2, k - 1);
    }
  }

  lemma {:induction false} BitsSplit(n: nat, a: nat, b: nat)
    ensures BitsOf(n, a + b) == BitsOf(ShiftRight(n, b), a) + BitsOf(n, b)
  {
    if b > 0 {
      BitsSplit(n / 2, a, b - 1);
    }
  }

  lemma AtLeastOnce(a: int, m: int)
    requires a >= 1 && m >= 0
    ensures a * m >= m
  {
    assert a * m == (a - 1) * m + m;
    assert (a - 1) * m >= 0;
  }

  lemma RemainderUnique(k: int, m: int, r: int, k': int, r': int)
    requires 0 <= r < m && 0 <= r' < m && k * m + r == k' * m + r'
    ensures r == r'
  {
    if k > k' {
      AtLeastOnce(k - k', m);
    } else if k < k' {
      AtLeastOnce(k' - k, m);
    }
  }

  lemma HalfMod(n: nat, p: nat)
    requires p > 0
    ensures (n % (2 * p)) / 2 == (n / 2) % p && (n % (2 * p)) % 2 == n % 2
  {
    var q, r := n / (2 * p), n % (2 * p);
    var t := q * p;
    assert n == 2 * t + r;
    var q', r' := (n / 2) / p, (n / 2) % p;
    RemainderUnique(q, p, r / 2, q', r');
  }

  /** Reducing modulo a higher power of two leaves the low bits. */
  lemma {:induction false} LowBits(n: nat, m: nat, k: nat)
    requires k <= m
    ensures BitsOf(n % Pow2(m), k) == BitsOf(n, k)
  {
    if k > 0 {
      HalfMod(n, Pow2(m - 1));
      LowBits(n / 2, m - 1, k - 1);
    }
  }

  lemma PowersUsed()
    ensures Pow2(5) == 32 && Pow2(8) == 256 && Pow2(59) == 0x800_0000_0000_0000
  {
    DoubledEight(0, 1);
    DoubledEight(8, 256);
    DoubledEight(16, 0x1_0000);
    DoubledEight(24, 0x100_0000);
    DoubledEight(32, 0x1_0000_0000);
    DoubledEight(40, 0x100_0000_0000);
    DoubledEight(48, 0x1_0000_0000_0000);
    assert Pow2(57) == 2 * Pow2(56);
    assert Pow2(58) == 2 * Pow2(57);
    assert Pow2(59) == 2 * Pow2(58);
  }

  lemma DoubledEight(k: nat, p: nat)
    requires Pow2(k) == p
    ensures Pow2(k + 5) == 32 * p && Pow2(k + 8) == 256 * p
  {
    assert Pow2(k + 1) == 2 * p;
    assert Pow2(k + 2) == 4 * p;
    assert Pow2(k + 3) == 8 * p;
    assert Pow2(k + 4) == 16 * p;
    assert Pow2(k + 5) == 32 * p;
    assert Pow2(k + 6) == 64 * p;
    assert Pow2(k + 7) == 128 * p;
  }

  // ---------- blocks of bits ----------

  /** The concatenated w-bit groups of v. */
  function BlockBits(v: seq<nat>, w: nat): Bits {
    if v == [] then [] else BitsOf(v[0], w) + BlockBits(v[1..], w)
  }

  /** The values of the complete w-bit groups of a bit string; an incomplete rest is dropped. */
  function Blocks(bits: Bits, w: nat): (v: seq<nat>)
    requires w > 0
    ensures forall i :: 0 <= i < |v| ==> v[i] < Pow2(w)
  {
    if |bits| < w then [] else
    BitsOfValue(bits[..w]);
    [Value(bits[..w])] + Blocks(bits[w..], w)
  }

  lemma {:induction false} BlockBitsAppend(v: seq<nat>, x: nat, w: nat)
    ensures BlockBits(v + [x], w) == BlockBits(v, w) + BitsOf(x, w)
  {
    if v == [] {
      assert BlockBits([x], w) == BitsOf(x, w) + BlockBits([x][1..], w);
    } else {
      assert (v + [x])[1..] == v[1..] + [x];
      BlockBitsAppend(v[1..], x, w);
    }
  }

  lemma FirstBlock(x: nat, bits: Bits, w: nat)
    requires w > 0 && x < Pow2(w)
    ensures Blocks(BitsOf(x, w) + bits, w) == [x] + Blocks(bits, w)
  {
    var all := BitsOf(x, w) + bits;
    assert all[..w] == BitsOf(x, w);
    assert all[w..] == bits;
    ValueOfBits(x, w);
  }

  lemma {:induction false} BlocksOfBlockBits(v: seq<nat>, rest: Bits, w: nat)
    requires |rest| < w && forall i :: 0 <= i < |v| ==> v[i] < Pow2(w)
    ensures Blocks(BlockBits(v, w) + rest, w) == v
  {
    if v == [] {
      assert BlockBits(v, w) + rest == rest;
    } else {
      assert BlockBits(v, w) + rest == BitsOf(v[0], w) + (BlockBits(v[1..], w) + rest);
      FirstBlock(v[0], BlockBits(v[1..], w) + rest, w);
      BlocksOfBlockBits(v[1..], rest, w);
    }
  }

  lemma {:induction false} FiveBlocks(bits: Bits)
    requires |bits| % 5 == 0
    ensures BlockBits(Blocks(bits, 5), 5) == bits
  {
    if bits != [] {
      BitsOfValue(bits[..5]);
      FiveBlocks(bits[5..]);
      assert bits == bits[..5] + bits[5..];
    }
  }

  lemma SliceOfDrop(s: Bits, d: nat, lo: nat, hi: nat)
    requires lo <= hi && d + hi <= |s|
    ensures s[d..][lo..hi] == s[d + lo..d + hi]
  {
  }

  /** Byte k of the output is bits 8k to 8k+7 of the input. */
  lemma {:induction false} ByteAt(bits: Bits, k: nat)
    requires 8 * k + 8 <= |bits|
    ensures |Blocks(bits, 8)| == |bits| / 8
    ensures Blocks(bits, 8)[k] == Value(bits[8 * k..8 * k + 8])
    decreases |bits|
  {
    BlockCount(bits);
    if k > 0 {
      ByteAt(bits[8..], k - 1);
      SliceOfDrop(bits, 8, 8 * (k - 1), 8 * (k - 1) + 8);
    }
  }

  lemma BlockCount(bits: Bits)
    ensures |Blocks(bits, 8)| == |bits| / 8
  {
  }

  // ---------- the 64-bit buffer ----------

  const U64: nat := 0x1_0000_0000_0000_0000

  /** The buffer after shifting in one character; the 64-bit shift drops high bits. */
  function Shifted(buf: nat, val: Quintet): nat { buf * 32 % U64 + val }

  lemma ShiftedFive(buf: nat, val: Quintet)
    ensures ShiftRight(Shifted(buf, val), 5) == buf % 0x800_0000_0000_0000
    ensures Shifted(buf, val) % 32 == val
  {
    var w := Shifted(buf, val);
    var q := buf / 0x800_0000_0000_0000;
    assert buf * 32 == q * U64 + 32 * (buf % 0x800_0000_0000_0000);
    assert w == 32 * (buf % 0x800_0000_0000_0000) + val;
    assert ShiftRight(w, 5) == ShiftRight(w / 2, 4) == ShiftRight(w / 2 / 2, 3) == ShiftRight(w / 2 / 2 / 2, 2);
    assert ShiftRight(w / 2 / 2 / 2, 2) == ShiftRight(w / 2 / 2 / 2 / 2, 1) == w / 2 / 2 / 2 / 2 / 2;
  }

  /** Whatever the shift dropped, the buffer's low bits are the old low bits followed by the new five. */
  lemma ShiftKeepsPending(buf: nat, len: nat, val: Quintet)
    requires len < 8
    ensures BitsOf(Shifted(buf, val), len + 5) == BitsOf(buf, len) + BitsOf(val, 5)
  {
    PowersUsed();
    ShiftedFive(buf, val);
    BitsSplit(Shifted(buf, val), len, 5);
    LowBits(buf, 59, len);
    LowBits(Shifted(buf, val), 5, 5);
  }

  /** Taking the top eight of len + 8 bits by shift and mask. */
  lemma TakeByte(word: nat, len: nat)
    ensures BitsOf(word, len + 8) == BitsOf(ShiftRight(word, len) % 256, 8) + BitsOf(word, len)
  {
    PowersUsed();
    assert len + 8 == 8 + len;
    BitsSplit(word, 8, len);
    LowBits(ShiftRight(word, len), 8, 8);
  }

  /** Bytes pushed so far followed by the bits still in the buffer are the bits read so far. */
  ghost predicate Pending(out: seq<Byte>, buf: nat, len: nat, v: seq<Quintet>) {
    BlockBits(out, 8) + BitsOf(buf, len) == BlockBits(v, 5)
  }

  lemma Associative(a: Bits, b: Bits, c: Bits)
    ensures a + b + c == a + (b + c)
  {
  }

  lemma ReadQuintet(out: seq<Byte>, buf: nat, len: nat, v: seq<Quintet>, val: Quintet)
    requires len < 8 && Pending(out, buf, len, v)
    ensures Pending(out, Shifted(buf, val), len + 5, v + [val])
  {
    ShiftKeepsPending(buf, len, val);
    BlockBitsAppend(v, val, 5);
    Associative(BlockBits(out, 8), BitsOf(buf, len), BitsOf(val, 5));
  }

  lemma PushByte(out: seq<Byte>, buf: nat, len: nat, v: seq<Quintet>)
    requires Pending(out, buf, len + 8, v)
    ensures Pending(out + [ShiftRight(buf, len) % 256], buf, len, v)
  {
    var b := ShiftRight(buf, len) % 256;
    TakeByte(buf, len);
    BlockBitsAppend(out, b, 8);
    Associative(BlockBits(out, 8), BitsOf(b, 8), BitsOf(buf, len));
  }

  // ---------- the text ----------

  datatype DecodeError = Empty | InvalidCharacter(c: char)

  const ALPHABET: string := "ABCDEFGHIJKLMNOPQRSTUVWXYZ234567"

  function CharValue(c: char): Option<Quintet> {
    if 'A' <= c <= 'Z' then Some((c - 'A') as int)
    else if '2' <= c <= '7' then Some((c - '2') as int + 26)
    else None
  }

  lemma AlphabetValues(q: Quintet)
    ensures |ALPHABET| == 32 && CharValue(ALPHABET[q]) == Some(q)
  {
  }

  /** Rust's is_ascii_whitespace: vertical tab is not in it. */
  predicate AsciiWhite(c: char) { c in " \t\n\r" || c == '\U{000C}' }

  /** Unicode White_Space, what trim removes at both ends. */
  predicate White(c: char) {
    || '\U{0009}' <= c <= '\U{000D}' || c == ' ' || c == '\U{0085}' || c == '\U{00A0}' || c == '\U{1680}'
    || '\U{2000}' <= c <= '\U{200A}' || c == '\U{2028}' || c == '\U{2029}' || c == '\U{202F}' || c == '\U{205F}'
    || c == '\U{3000}'
  }

  /** Whitespace that trim removes but the later filter does not. */
  predicate OddWhite(c: char) { White(c) && !AsciiWhite(c) }

  predicate AllWhite(s: string) { forall i :: 0 <= i < |s| ==> White(s[i]) }

  function TrimWhiteStart(s: string): string {
    if s != "" && White(s[0]) then TrimWhiteStart(s[1..]) else s
  }

  function TrimWhiteEnd(s: string): string {
    if s != "" && White(s[|s| - 1]) then TrimWhiteEnd(s[..|s| - 1]) else s
  }

  function AsciiUpper(c: char): char { if 'a' <= c <= 'z' then c - 'a' + 'A' else c }

  /** What is needed of the Unicode uppercase table, which stays a parameter. */
  ghost predicate UpperTable(upper: char -> string) {
    forall c :: c < '\U{0080}' || White(c) ==> upper(c) == [AsciiUpper(c)]
  }

  function Kept(s: string): string {
    if s == "" then "" else
    (if s[0] != '=' && !AsciiWhite(s[0]) then [s[0]] else "") + Kept(s[1..])
  }

  /** Uppercase, then drop '=' and ASCII whitespace. */
  function Filtered(s: string, upper: char -> string): string {
    if s == "" then "" else Kept(upper(s[0])) + Filtered(s[1..], upper)
  }

  function Clean(text: string, upper: char -> string): string {
    Filtered(TrimWhiteEnd(TrimWhiteStart(text)), upper)
  }

  /** The decoder works on bytes: the character it reports is the first byte of the UTF-8 form. */
  function Reported(c: char): char {
    var n := c as int;
    if n < 0x80 then c
    else if n < 0x800 then (0xc0 + n / 64) as char
    else if n < 0x1_0000 then (0xe0 + n / 4096) as char
    else (0xf0 + n / 0x4_0000) as char
  }

  function Values(s: string): (r: Result<seq<Quintet>, DecodeError>) {
    if s == "" then Ok([]) else
    match Values(s[..|s| - 1])
    case Err(e) => Err(e)
    case Ok(v) =>
      match CharValue(s[|s| - 1])
      case None => Err(InvalidCharacter(Reported(s[|s| - 1])))
      case Some(q) => Ok(v + [q])
  }

  function DecodeCleaned(cleaned: string): Result<seq<nat>, DecodeError> {
    if cleaned == "" then Err(Empty) else
    match Values(cleaned)
    case Err(e) => Err(e)
    case Ok(v) => Ok(Blocks(BlockBits(v, 5), 8))
  }

  /** The decoder's specification. */
  function Decode(text: string, upper: char -> string): Result<seq<nat>, DecodeError> {
    DecodeCleaned(Clean(text, upper))
  }

  lemma {:induction false} ErrorStays(s: string, n: nat)
    requires n <= |s| && Values(s[..n]).Err?
    ensures Values(s) == Values(s[..n])
    decreases |s| - n
  {
    if n == |s| {
      assert s[..n] == s;
    } else {
      assert s[..n + 1][..n] == s[..n];
      ErrorStays(s, n + 1);
    }
  }

  /** Reading one more character. */
  lemma ReadOne(s: string, i: nat, v: seq<Quintet>)
    requires i < |s| && Values(s[..i]) == Ok(v)
    ensures Values(s[..i + 1]) ==
      if CharValue(s[i]).Some? then Ok(v + [CharValue(s[i]).value]) else Err(InvalidCharacter(Reported(s[i])))
  {
    hide CharValue, Reported;
    assert s[..i + 1][..i] == s[..i];
  }

  /** Less than a byte is left in the buffer, and it is dropped. */
  lemma AllPushed(s: string, out: seq<Byte>, buf: nat, len: nat, v: seq<Quintet>)
    requires s != "" && len < 8 && Values(s) == Ok(v) && Pending(out, buf, len, v)
    ensures DecodeCleaned(s) == Ok(out)
  {
    hide Values;
    PowersUsed();
    BlocksOfBlockBits(out, BitsOf(buf, len), 8);
  }

  /** One quintet more, and a byte out if there are eight bits. */
  lemma TakeQuintet(out: seq<Byte>, buf: nat, len: nat, v: seq<Quintet>, val: Quintet)
    requires len < 8 && Pending(out, buf, len, v)
    ensures var b := Shifted(buf, val);
      if len + 5 >= 8 then Pending(out + [ShiftRight(b, len + 5 - 8) % 256], b, len + 5 - 8, v + [val])
      else Pending(out, b, len + 5, v + [val])
  {
    hide Pending, Shifted, ShiftRight;
    ReadQuintet(out, buf, len, v, val);
    if len + 5 >= 8 {
      PushByte(out, Shifted(buf, val), len + 5 - 8, v + [val]);
    }
  }

  lemma ErrorFound(s: string, i: nat)
    requires i < |s| && Values(s[..i + 1]).Err?
    ensures DecodeCleaned(s) == Err(Values(s[..i + 1]).error)
  {
    ErrorStays(s, i + 1);
    hide Values;
  }

  /** The program's loop with its shift buffer. */
  method DecodeText(text: string, upper: char -> string) returns (r: Result<seq<nat>, DecodeError>)
    ensures r == Decode(text, upper)
  {
    assert Pending([], 0, 0, []) && Values("") == Ok([]);
    var cleaned := Clean(text, upper);
    if cleaned == "" {
      return Err(Empty);
    }
    assert cleaned[..0] == "";
    hide Clean, CharValue, Reported, Pending, Shifted, ShiftRight, Values, DecodeCleaned;
    var buf: nat, len: nat := 0, 0;
    var out: seq<Byte> := [];
    ghost var v: seq<Quintet> := [];
    for i := 0 to |cleaned|
      invariant len < 8
      invariant Values(cleaned[..i]) == Ok(v)
      invariant Pending(out, buf, len, v)
    {
      ReadOne(cleaned, i, v);
      match CharValue(cleaned[i]) {
        case None =>
          ErrorFound(cleaned, i);
          return Err(InvalidCharacter(Reported(cleaned[i])));
        case Some(val) =>
          TakeQuintet(out, buf, len, v, val);
          v := v + [val];
          buf := Shifted(buf, val);
          len := len + 5;
          if len >= 8 {
            len := len - 8;
            out := out + [ShiftRight(buf, len) % 256];
          }
      }
    }
    assert cleaned[..|cleaned|] == cleaned;
    AllPushed(cleaned, out, buf, len, v);
    return Ok(out);
  }

  // ---------- encoding, section 6 of RFC 4648 ----------

  function PadToFive(bits: Bits): (p: Bits)
    ensures |p| % 5 == 0 && |bits| <= |p| < |bits| + 5 && p[..|bits|] == bits
  {
    bits + seq((5 - |bits| % 5) % 5, i => false)
  }

  function Letters(v: seq<nat>): string
    requires forall i :: 0 <= i < |v| ==> v[i] < 32
  {
    if v == [] then "" else Letters(v[..|v| - 1]) + [ALPHABET[v[|v| - 1]]]
  }

  function Encode(bytes: seq<Byte>): string {
    PowersUsed();
    Letters(Blocks(PadToFive(BlockBits(bytes, 8)), 5))
  }

  function Padding(n: nat): string { seq(n, i => '=') }

  predicate InAlphabet(s: string) { forall i :: 0 <= i < |s| ==> CharValue(s[i]).Some? }

  lemma {:induction false} LettersRead(v: seq<nat>)
    requires forall i :: 0 <= i < |v| ==> v[i] < 32
    ensures Values(Letters(v)) == Ok(v) && InAlphabet(Letters(v)) && |Letters(v)| == |v|
  {
    if v != [] {
      var w := v[..|v| - 1];
      LettersRead(w);
      AlphabetValues(v[|v| - 1]);
      assert Letters(v)[..|Letters(v)| - 1] == Letters(w);
      assert v == w + [v[|v| - 1]];
    }
  }

  lemma {:induction false} FilteredConcat(a: string, b: string, upper: char -> string)
    ensures Filtered(a + b, upper) == Filtered(a, upper) + Filtered(b, upper)
  {
    if a == "" {
      assert a + b == b;
    } else {
      assert (a + b)[1..] == a[1..] + b;
      FilteredConcat(a[1..], b, upper);
    }
  }

  lemma {:induction false} FilteredLetters(s: string, upper: char -> string)
    requires UpperTable(upper) && InAlphabet(s)
    ensures Filtered(s, upper) == s
  {
    if s != "" {
      FilteredLetters(s[1..], upper);
      assert CharValue(s[0]).Some?;
      assert Kept([s[0]]) == [s[0]] + Kept([s[0]][1..]);
    }
  }

  lemma {:induction false} FilteredPadding(n: nat, upper: char -> string)
    requires UpperTable(upper)
    ensures Filtered(Padding(n), upper) == ""
  {
    if n > 0 {
      assert Padding(n)[1..] == Padding(n - 1);
      assert upper('=') == ['='] && Kept(['=']) == "";
      FilteredPadding(n - 1, upper);
    }
  }

  lemma EncodedQuintets(bytes: seq<Byte>)
    requires bytes != []
    ensures Encode(bytes) != "" && InAlphabet(Encode(bytes)) && Values(Encode(bytes)).Ok?
    ensures BlockBits(Values(Encode(bytes)).value, 5) == PadToFive(BlockBits(bytes, 8))
  {
    PowersUsed();
    var padded := PadToFive(BlockBits(bytes, 8));
    LettersRead(Blocks(padded, 5));
    FiveBlocks(padded);
  }

  lemma CutPadded(bytes: seq<Byte>)
    ensures Blocks(PadToFive(BlockBits(bytes, 8)), 8) == bytes
  {
    PowersUsed();
    var bits := BlockBits(bytes, 8);
    var padded := PadToFive(bits);
    assert padded == bits + padded[|bits|..];
    BlocksOfBlockBits(bytes, padded[|bits|..], 8);
  }

  lemma CleanPadded(letters: string, pads: nat, upper: char -> string)
    requires UpperTable(upper) && InAlphabet(letters) && letters != ""
    ensures Clean(letters + Padding(pads), upper) == letters
  {
    NoWhiteEnds(letters + Padding(pads), letters);
    FilteredConcat(letters, Padding(pads), upper);
    FilteredLetters(letters, upper);
    FilteredPadding(pads, upper);
  }

  /** Decoding undoes encoding for every non-empty byte string, with any number of '=' behind it. */
  lemma RoundTrip(bytes: seq<Byte>, pads: nat, upper: char -> string)
    requires UpperTable(upper) && bytes != []
    ensures Decode(Encode(bytes) + Padding(pads), upper) == Ok(bytes)
  {
    EncodedQuintets(bytes);
    CleanPadded(Encode(bytes), pads, upper);
    CutPadded(bytes);
  }

  lemma NoWhiteEnds(text: string, letters: string)
    requires InAlphabet(letters) && letters != "" && letters <= text
    requires forall i :: |letters| <= i < |text| ==> text[i] == '='
    ensures TrimWhiteEnd(TrimWhiteStart(text)) == text
  {
    assert CharValue(text[0]).Some?;
    assert text[|text| - 1] == '=' || CharValue(letters[|letters| - 1]).Some?;
  }

  // ---------- what does not matter ----------

  lemma {:induction false} TrimStartWhite(a: string, b: string)
    requires AllWhite(a)
    ensures TrimWhiteStart(a + b) == TrimWhiteStart(b)
  {
    if a == "" {
      assert a + b == b;
    } else {
      assert (a + b)[1..] == a[1..] + b;
      TrimStartWhite(a[1..], b);
    }
  }

  lemma SolidTail(s: string)
    requires !AllWhite(s) && White(s[0])
    ensures !AllWhite(s[1..])
  {
    var i :| 0 <= i < |s| && !White(s[i]);
    assert s[1..][i - 1] == s[i];
  }

  lemma SolidHead(s: string)
    requires !AllWhite(s) && White(s[|s| - 1])
    ensures !AllWhite(s[..|s| - 1])
  {
    var i :| 0 <= i < |s| && !White(s[i]);
    assert s[..|s| - 1][i] == s[i];
  }

  lemma {:induction false} TrimStartSolid(a: string, b: string)
    requires !AllWhite(a)
    ensures TrimWhiteStart(a + b) == TrimWhiteStart(a) + b && !AllWhite(TrimWhiteStart(a))
  {
    if White(a[0]) {
      assert (a + b)[1..] == a[1..] + b;
      SolidTail(a);
      TrimStartSolid(a[1..], b);
    }
  }

  lemma {:induction false} TrimEndWhite(a: string, b: string)
    requires AllWhite(b)
    ensures TrimWhiteEnd(a + b) == TrimWhiteEnd(a)
  {
    if b == "" {
      assert a + b == a;
    } else {
      assert (a + b)[..|a + b| - 1] == a + b[..|b| - 1];
      TrimEndWhite(a, b[..|b| - 1]);
    }
  }

  lemma {:induction false} TrimEndSolid(a: string, b: string)
    requires !AllWhite(b)
    ensures TrimWhiteEnd(a + b) == a + TrimWhiteEnd(b)
  {
    if White(b[|b| - 1]) {
      assert (a + b)[..|a + b| - 1] == a + b[..|b| - 1];
      SolidHead(b);
      TrimEndSolid(a, b[..|b| - 1]);
    }
  }

  /** An ASCII whitespace character inserted anywhere leaves the cleaned text alone. */
  lemma WhitespaceIgnored(a: string, c: char, b: string, upper: char -> string)
    requires UpperTable(upper) && AsciiWhite(c)
    ensures Decode(a + [c] + b, upper) == Decode(a + b, upper)
  {
    assert a + [c] + b == a + ([c] + b);
    if AllWhite(a) {
      TrimStartWhite(a + [c], b);
      TrimStartWhite(a, b);
    } else {
      TrimStartSolid(a, [c] + b);
      TrimStartSolid(a, b);
      var a' := TrimWhiteStart(a);
      if AllWhite(b) {
        TrimEndWhite(a', [c] + b);
        TrimEndWhite(a', b);
      } else {
        assert a' + ([c] + b) == a' + [c] + b;
        TrimEndSolid(a' + [c], b);
        TrimEndSolid(a', b);
        FilteredSkip(a', c, TrimWhiteEnd(b), upper);
      }
    }
  }

  lemma FilteredDropped(c: char, upper: char -> string)
    requires UpperTable(upper) && (AsciiWhite(c) || c == '=')
    ensures Filtered([c], upper) == ""
  {
    assert [c][1..] == "";
    assert Filtered([c], upper) == Kept([c]) + Filtered([c][1..], upper);
    assert Kept([c]) == Kept([c][1..]);
  }

  lemma FilteredSkip(a: string, c: char, b: string, upper: char -> string)
    requires UpperTable(upper) && (AsciiWhite(c) || c == '=')
    ensures Filtered(a + [c] + b, upper) == Filtered(a + b, upper)
  {
    FilteredDropped(c, upper);
    hide Filtered, UpperTable;
    FilteredConcat(a + [c], b, upper);
    FilteredConcat(a, [c], upper);
    FilteredConcat(a, b, upper);
  }

  /** What TrimWhiteStart and TrimWhiteEnd take off. */
  function Lead(s: string): (l: string)
    ensures s == l + TrimWhiteStart(s) && AllWhite(l)
  {
    if s != "" && White(s[0]) then
      assert s == [s[0]] + s[1..];
      [s[0]] + Lead(s[1..])
    else ""
  }

  function Trail(s: string): (t: string)
    ensures s == TrimWhiteEnd(s) + t && AllWhite(t)
  {
    if s != "" && White(s[|s| - 1]) then
      assert s == s[..|s| - 1] + [s[|s| - 1]];
      Trail(s[..|s| - 1]) + [s[|s| - 1]]
    else ""
  }

  lemma {:induction false} TrailSolid(a: string, b: string)
    requires !AllWhite(b)
    ensures Trail(a + b) == Trail(b)
  {
    if White(b[|b| - 1]) {
      assert (a + b)[..|a + b| - 1] == a + b[..|b| - 1];
      SolidHead(b);
      TrailSolid(a, b[..|b| - 1]);
    }
  }

  predicate HasOdd(s: string) { exists i :: 0 <= i < |s| && OddWhite(s[i]) }

  lemma {:induction false} InvalidSpoils(s: string, i: nat)
    requires i < |s| && CharValue(s[i]).None?
    ensures Values(s).Err?
  {
    if i < |s| - 1 {
      InvalidSpoils(s[..|s| - 1], i);
    }
  }

  lemma FilteredOne(c: char, upper: char -> string)
    requires UpperTable(upper) && White(c)
    ensures Filtered([c], upper) == if OddWhite(c) then [c] else ""
  {
    assert [c][1..] == "";
    assert Filtered([c], upper) == Kept([c]) + Filtered([c][1..], upper);
    assert Kept([c]) == (if c != '=' && !AsciiWhite(c) then [c] else "") + Kept([c][1..]);
  }

  /** Odd whitespace left inside the trimmed text makes the decoder fail. */
  lemma OddSpoils(s: string, i: nat, upper: char -> string)
    requires UpperTable(upper) && i < |s| && OddWhite(s[i])
    ensures DecodeCleaned(Filtered(s, upper)).Err?
  {
    var x, y := s[..i], s[i + 1..];
    assert s == x + ([s[i]] + y);
    FilteredConcat(x, [s[i]] + y, upper);
    FilteredConcat([s[i]], y, upper);
    FilteredOne(s[i], upper);
    InvalidSpoils(Filtered(s, upper), |Filtered(x, upper)|);
  }

  lemma {:induction false} PlainWhiteVanishes(w: string, upper: char -> string)
    requires UpperTable(upper) && AllWhite(w) && !HasOdd(w)
    ensures Filtered(w, upper) == ""
  {
    if w != "" {
      assert w == [w[0]] + w[1..];
      FilteredOne(w[0], upper);
      FilteredConcat([w[0]], w[1..], upper);
      PlainWhiteVanishes(w[1..], upper);
    }
  }

  predicate SameOutcome(r: Result<seq<nat>, DecodeError>, s: Result<seq<nat>, DecodeError>) {
    r == s || (r.Err? && s.Err?)
  }

  lemma WhiteBefore(w: string, rest: string, upper: char -> string)
    requires UpperTable(upper) && AllWhite(w)
    ensures HasOdd(w) ==> DecodeCleaned(Filtered(w + rest, upper)).Err?
    ensures !HasOdd(w) ==> Filtered(w + rest, upper) == Filtered(rest, upper)
  {
    if HasOdd(w) {
      var i :| 0 <= i < |w| && OddWhite(w[i]);
      OddSpoils(w + rest, i, upper);
    } else {
      FilteredConcat(w, rest, upper);
      PlainWhiteVanishes(w, upper);
    }
  }

  lemma WhiteAfter(rest: string, w: string, upper: char -> string)
    requires UpperTable(upper) && AllWhite(w)
    ensures HasOdd(w) ==> DecodeCleaned(Filtered(rest + w, upper)).Err?
    ensures !HasOdd(w) ==> Filtered(rest + w, upper) == Filtered(rest, upper)
  {
    if HasOdd(w) {
      var i :| 0 <= i < |w| && OddWhite(w[i]);
      OddSpoils(rest + w, |rest| + i, upper);
    } else {
      FilteredConcat(rest, w, upper);
      PlainWhiteVanishes(w, upper);
    }
  }

  lemma Reassociate(a: string, b: string, c: string)
    ensures a + b + c == a + (b + c)
  {
  }

  lemma EqualsStops(b: string)
    ensures TrimWhiteStart("=" + b) == "=" + b
  {
  }

  lemma LeadStays(b: string)
    requires !AllWhite(b)
    ensures TrimWhiteEnd("=" + b) == "=" + (Lead(b) + TrimWhiteEnd(TrimWhiteStart(b)))
  {
    hide TrimWhiteStart, TrimWhiteEnd, AllWhite, Lead;
    TrimStartSolid(b, "");
    TrimEndSolid("=", b);
    TrimEndSolid(Lead(b), TrimWhiteStart(b));
  }

  lemma TrimAroundEqualsStart(a: string, b: string)
    requires AllWhite(a) && !AllWhite(b)
    ensures TrimWhiteEnd(TrimWhiteStart(a + "=" + b)) == "=" + (Lead(b) + TrimWhiteEnd(TrimWhiteStart(b)))
    ensures TrimWhiteEnd(TrimWhiteStart(a + b)) == TrimWhiteEnd(TrimWhiteStart(b))
  {
    hide TrimWhiteStart, TrimWhiteEnd, AllWhite, Lead;
    Reassociate(a, "=", b);
    TrimStartWhite(a, "=" + b);
    TrimStartWhite(a, b);
    EqualsStops(b);
    LeadStays(b);
  }

  lemma FilteredEquals(s: string, upper: char -> string)
    requires UpperTable(upper)
    ensures Filtered("=" + s, upper) == Filtered(s, upper)
  {
    FilteredConcat("=", s, upper);
    FilteredDropped('=', upper);
  }

  lemma EqualsFiltered(upper: char -> string)
    requires UpperTable(upper)
    ensures Filtered("=", upper) == "" == Filtered("", upper)
  {
    FilteredEquals("", upper);
    assert "=" + "" == "=";
  }

  lemma EqualsAtStartClean(a: string, b: string, upper: char -> string)
    requires UpperTable(upper) && AllWhite(a) && !AllWhite(b)
    ensures Clean(a + "=" + b, upper) == Filtered(Lead(b) + TrimWhiteEnd(TrimWhiteStart(b)), upper)
    ensures Clean(a + b, upper) == Filtered(TrimWhiteEnd(TrimWhiteStart(b)), upper)
  {
    TrimAroundEqualsStart(a, b);
    var kept := Lead(b) + TrimWhiteEnd(TrimWhiteStart(b));
    FilteredEquals(kept, upper);
  }

  lemma EqualsAtStart(a: string, b: string, upper: char -> string)
    requires UpperTable(upper) && AllWhite(a) && !AllWhite(b)
    ensures HasOdd(Lead(b)) ==> Decode(a + "=" + b, upper).Err?
    ensures !HasOdd(Lead(b)) ==> Decode(a + "=" + b, upper) == Decode(a + b, upper)
  {
    EqualsAtStartClean(a, b, upper);
    WhiteBefore(Lead(b), TrimWhiteEnd(TrimWhiteStart(b)), upper);
  }

  lemma TrimEndShielded(t: string, b: string)
    requires AllWhite(b)
    ensures TrimWhiteEnd(t + "=" + b) == t + "="
  {
    TrimEndWhite(t + "=", b);
  }

  lemma TrimAroundEqualsEnd(a: string, b: string)
    requires !AllWhite(a) && AllWhite(b)
    ensures TrimWhiteEnd(TrimWhiteStart(a + "=" + b)) == TrimWhiteEnd(TrimWhiteStart(a)) + Trail(a) + "="
    ensures TrimWhiteEnd(TrimWhiteStart(a + b)) == TrimWhiteEnd(TrimWhiteStart(a))
  {
    var t := TrimWhiteStart(a);
    TrailSolid(Lead(a), t);
    TrimStartSolid(a, b);
    TrimEndWhite(t, b);
    TrimStartSolid(a, "=" + b);
    Reassociate(a, "=", b);
    Reassociate(t, "=", b);
    TrimEndShielded(t, b);
  }

  lemma EqualsAtEndClean(a: string, b: string, upper: char -> string)
    requires UpperTable(upper) && !AllWhite(a) && AllWhite(b)
    ensures Clean(a + "=" + b, upper) == Filtered(TrimWhiteEnd(TrimWhiteStart(a)) + Trail(a), upper)
    ensures Clean(a + b, upper) == Filtered(TrimWhiteEnd(TrimWhiteStart(a)), upper)
  {
    TrimAroundEqualsEnd(a, b);
    var kept := TrimWhiteEnd(TrimWhiteStart(a)) + Trail(a);
    FilteredSkip(kept, '=', "", upper);
    assert kept + ['='] + "" == kept + "=" && kept + "" == kept;
  }

  lemma EqualsAtEnd(a: string, b: string, upper: char -> string)
    requires UpperTable(upper) && !AllWhite(a) && AllWhite(b)
    ensures HasOdd(Trail(a)) ==> Decode(a + "=" + b, upper).Err?
    ensures !HasOdd(Trail(a)) ==> Decode(a + "=" + b, upper) == Decode(a + b, upper)
  {
    EqualsAtEndClean(a, b, upper);
    WhiteAfter(TrimWhiteEnd(TrimWhiteStart(a)), Trail(a), upper);
  }

  lemma TrimAroundEqualsAlone(a: string, b: string)
    requires AllWhite(a) && AllWhite(b)
    ensures TrimWhiteEnd(TrimWhiteStart(a + "=" + b)) == "=" && TrimWhiteEnd(TrimWhiteStart(a + b)) == ""
  {
    Reassociate(a, "=", b);
    TrimStartWhite(a, "=" + b);
    TrimStartWhite(a, b);
    TrimEndWhite("=", b);
    TrimStartWhite(b, "");
    assert b + "" == b;
  }

  lemma TrimAroundEqualsBoth(a: string, b: string)
    requires !AllWhite(a) && !AllWhite(b)
    ensures TrimWhiteEnd(TrimWhiteStart(a + "=" + b)) == TrimWhiteStart(a) + "=" + TrimWhiteEnd(b)
    ensures TrimWhiteEnd(TrimWhiteStart(a + b)) == TrimWhiteStart(a) + TrimWhiteEnd(b)
  {
    var t := TrimWhiteStart(a);
    Reassociate(a, "=", b);
    TrimStartSolid(a, "=" + b);
    TrimStartSolid(a, b);
    Reassociate(t, "=", b);
    TrimEndSolid(t + "=", b);
    TrimEndSolid(t, b);
  }

  lemma EqualsInside(a: string, b: string, upper: char -> string)
    requires UpperTable(upper) && AllWhite(a) == AllWhite(b)
    ensures Decode(a + "=" + b, upper) == Decode(a + b, upper)
    ensures AllWhite(a) ==> Decode(a + b, upper).Err?
  {
    hide TrimWhiteStart, TrimWhiteEnd, AllWhite, Filtered, UpperTable, Values;
    if AllWhite(a) {
      TrimAroundEqualsAlone(a, b);
      EqualsFiltered(upper);
    } else {
      TrimAroundEqualsBoth(a, b);
      FilteredSkip(TrimWhiteStart(a), '=', TrimWhiteEnd(b), upper);
    }
  }

  lemma {:induction false} AlphabetReads(s: string)
    ensures Values(s).Ok? <==> InAlphabet(s)
  {
    if s != "" {
      AlphabetReads(s[..|s| - 1]);
      assert s == s[..|s| - 1] + [s[|s| - 1]];
    }
  }

  /** Cleaning leaves something, and nothing but letters of the alphabet. */
  predicate Decodable(text: string, upper: char -> string) {
    Clean(text, upper) != "" && InAlphabet(Clean(text, upper))
  }

  /** Which texts decode. */
  lemma DecodesExactly(text: string, upper: char -> string)
    ensures Decode(text, upper).Ok? <==> Decodable(text, upper)
  {
    AlphabetReads(Clean(text, upper));
  }

  /**
    An '=' inserted anywhere changes the outcome exactly when it shields
    whitespace such as a vertical tab at an end of a decodable text from trim,
    which would have removed it; the later filter does not.
   */
  lemma EqualsSignIgnored(a: string, b: string, upper: char -> string)
    requires UpperTable(upper)
    ensures SameOutcome(Decode(a + "=" + b, upper), Decode(a + b, upper)) <==>
            (Decodable(a + b, upper) ==>
             !(AllWhite(a) && HasOdd(Lead(b))) && !(AllWhite(b) && HasOdd(Trail(a))))
  {
    DecodesExactly(a + b, upper);
    if AllWhite(a) == AllWhite(b) {
      EqualsInside(a, b, upper);
    } else if AllWhite(a) {
      EqualsAtStart(a, b, upper);
    } else {
      EqualsAtEnd(a, b, upper);
    }
  }

  const TABBED: string := "\U{000B}MY"

  lemma TabbedTrims()
    ensures TrimWhiteEnd(TrimWhiteStart(TABBED)) == "MY" && !AllWhite(TABBED)
    ensures HasOdd(Lead(TABBED))
  {
    NoWhiteEnds("MY", "MY");
    assert White(TABBED[0]) && TABBED[1..] == "MY" && !White(TABBED[1]);
    assert TrimWhiteStart("MY") == "MY";
    assert TrimWhiteStart(TABBED) == TrimWhiteStart(TABBED[1..]);
    assert Lead(TABBED)[0] == TABBED[0] && OddWhite(TABBED[0]);
  }

  lemma AlphabetStart(upper: char -> string)
    requires UpperTable(upper)
    ensures Filtered("MY", upper) == "MY" && InAlphabet("MY")
  {
    FilteredLetters("MY", upper);
  }

  lemma NothingBefore(a: string, b: string)
    ensures [] + a + b == a + b && [] + b == b
  {
  }

  /** A vertical tab before "MY" is trimmed away and the text decodes; behind an '=' it stays and is refused. */
  lemma ShieldedTab(upper: char -> string)
    requires UpperTable(upper)
    ensures Decode(TABBED, upper).Ok? && Decode("=" + TABBED, upper).Err?
  {
    hide Decode, Filtered, TrimWhiteStart, TrimWhiteEnd, Lead, CharValue, AllWhite, Values;
    TabbedTrims();
    AlphabetStart(upper);
    DecodesExactly(TABBED, upper);
    EqualsAtStart([], TABBED, upper);
    NothingBefore("=", TABBED);
  }

  /** One is the small letter of which the other is the ASCII capital. */
  predicate SmallOf(small: char, capital: char) { 'a' <= small <= 'z' && capital == small - 'a' + 'A' }

  ghost predicate SameButCase(s: string, t: string) {
    |s| == |t| && forall i :: 0 <= i < |s| ==> s[i] == t[i] || SmallOf(s[i], t[i]) || SmallOf(t[i], s[i])
  }

  lemma {:induction false} CaseFoldedFiltered(s: string, t: string, upper: char -> string)
    requires UpperTable(upper) && SameButCase(s, t)
    ensures Filtered(s, upper) == Filtered(t, upper)
  {
    if s != "" {
      CaseFoldedFiltered(s[1..], t[1..], upper);
    }
  }

  lemma {:induction false} CaseTrimStart(s: string, t: string)
    requires SameButCase(s, t)
    ensures SameButCase(TrimWhiteStart(s), TrimWhiteStart(t))
  {
    if s != "" && White(s[0]) {
      CaseTrimStart(s[1..], t[1..]);
    }
  }

  lemma {:induction false} CaseTrimEnd(s: string, t: string)
    requires SameButCase(s, t)
    ensures SameButCase(TrimWhiteEnd(s), TrimWhiteEnd(t))
  {
    if s != "" && White(s[|s| - 1]) {
      CaseTrimEnd(s[..|s| - 1], t[..|t| - 1]);
    }
  }

  /** Texts that differ only in the case of ASCII letters decode alike. */
  lemma CaseIgnored(s: string, t: string, upper: char -> string)
    requires UpperTable(upper) && SameButCase(s, t)
    ensures Decode(s, upper) == Decode(t, upper)
  {
    CaseTrimStart(s, t);
    CaseTrimEnd(TrimWhiteStart(s), TrimWhiteStart(t));
    CaseFoldedFiltered(TrimWhiteEnd(TrimWhiteStart(s)), TrimWhiteEnd(TrimWhiteStart(t)), upper);
  }

  // ---------- characters ----------

  /** The Unicode whitespace characters, all of them. */
  const WHITESPACE: string :=
    "\U{0009}\U{000A}\U{000B}\U{000C}\U{000D} \U{0085}\U{00A0}\U{1680}" +
    "\U{2000}\U{2001}\U{2002}\U{2003}\U{2004}\U{2005}\U{2006}\U{2007}\U{2008}\U{2009}\U{200A}" +
    "\U{2028}\U{2029}\U{202F}\U{205F}\U{3000}"

  lemma WhiteExact(c: char)
    ensures White(c) <==> c in WHITESPACE
  {
  }

  /** The byte reported for a character carries its top bits, and its mark says how many bytes of six bits follow. */
  lemma LeadByte(c: char) returns (rest: nat)
    ensures c < '\U{0080}' ==> Reported(c) == c
    ensures '\U{0080}' <= c < '\U{0800}' ==>
      0xc2 <= Reported(c) as int < 0xe0 && rest < 64 && (Reported(c) as int - 0xc0) * 64 + rest == c as int
    ensures '\U{0800}' <= c <= '\U{FFFF}' ==>
      0xe0 <= Reported(c) as int < 0xf0 && rest < 64 * 64 && (Reported(c) as int - 0xe0) * 64 * 64 + rest == c as int
    ensures '\U{10000}' <= c ==>
      0xf0 <= Reported(c) as int < 0xf5 && rest < 64 * 64 * 64 && (Reported(c) as int - 0xf0) * 64 * 64 * 64 + rest == c as int
  {
    var n := c as int;
    rest := if n < 0x80 then 0 else if n < 0x800 then n % 64 else if n < 0x1_0000 then n % 4096 else n % 0x4_0000;
  }
}
