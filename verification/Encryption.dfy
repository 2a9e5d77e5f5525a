/**
  Encryption of strings: PKCS#7 padding, cipher block chaining over a block
  cipher of which only the inverse law is known, and a MAC over IV and
  ciphertext that is checked before anything is decrypted.
 */
module Encryption {
  import opened Base64
  import opened EncStrings
  import opened Octets
  import opened Text
  import opened Wrappers

  type Bytes = seq<Byte>

  const BLOCK: nat := 16

  type Iv = b: Bytes | |b| == BLOCK witness seq(BLOCK, _ => 0)

  datatype Keys = Keys(enc: Bytes, mac: Bytes)

  /** The primitives: one block forward and back under a key, the MAC, and UTF-8. */
  datatype Primitives = Primitives(
    forward: (Bytes, Bytes) -> Bytes, back: (Bytes, Bytes) -> Bytes, sign: (Bytes, Bytes) -> Bytes,
    toUtf8: string -> Bytes, fromUtf8: Bytes -> Option<string>)

  ghost predicate Permutes(p: Primitives, key: Bytes) {
    forall b: Bytes :: |b| == BLOCK ==>
      && |p.forward(key, b)| == BLOCK && |p.back(key, b)| == BLOCK
      && p.back(key, p.forward(key, b)) == b && p.forward(key, p.back(key, b)) == b
  }

  ghost predicate Utf8(p: Primitives) {
    forall s: string, b: Bytes :: p.fromUtf8(b) == Some(s) <==> p.toUtf8(s) == b
  }

  // ---------- exclusive or ----------

  function XorBits(a: nat, b: nat, k: nat): (x: nat) {
    if k == 0 then 0 else 2 * XorBits(a / 2, b / 2, k - 1) + (a + b) % 2
  }

  lemma {:induction false} XorBitsBound(a: nat, b: nat, k: nat)
    ensures XorBits(a, b, k) < Pow2(k)
  {
    if k > 0 {
      XorBitsBound(a / 2, b / 2, k - 1);
    }
  }

  lemma {:induction false} XorBitsTwice(a: nat, b: nat, k: nat)
    requires a < Pow2(k)
    ensures XorBits(XorBits(a, b, k), b, k) == a
  {
    if k > 0 {
      XorBitsTwice(a / 2, b / 2, k - 1);
      var x := XorBits(a / 2, b / 2, k - 1);
      HalfOf(x, (a + b) % 2);
      Parity(x, a, b);
    }
  }

  lemma Parity(x: nat, a: nat, b: nat)
    ensures (2 * x + (a + b) % 2 + b) % 2 == a % 2
  {
  }

  lemma HalfOf(x: nat, bit: nat)
    requires bit < 2
    ensures (2 * x + bit) / 2 == x
  {
  }

  function XorByte(a: Byte, b: Byte): Byte {
    XorBitsBound(a, b, 8);
    EightBits();
    XorBits(a, b, 8)
  }

  lemma EightBits()
    ensures Pow2(8) == 256
  {
    assert Pow2(4) == 16;
  }

  lemma XorByteTwice(a: Byte, b: Byte)
    ensures XorByte(XorByte(a, b), b) == a
  {
    EightBits();
    XorBitsTwice(a, b, 8);
  }

  function Xor(s: Bytes, t: Bytes): (r: Bytes)
    requires |s| == |t|
    ensures |r| == |s|
  {
    seq(|s|, i requires 0 <= i < |s| => XorByte(s[i], t[i]))
  }

  lemma XorTwice(s: Bytes, t: Bytes)
    requires |s| == |t|
    ensures Xor(Xor(s, t), t) == s
  {
    forall i | 0 <= i < |s| ensures Xor(Xor(s, t), t)[i] == s[i] {
      XorByteTwice(s[i], t[i]);
    }
  }

  // ---------- padding ----------

  function Pad(s: Bytes): Bytes {
    var n := BLOCK - |s| % BLOCK;
    s + seq(n, _ => n)
  }

  function Unpad(s: Bytes): Option<Bytes> {
    if s == [] then None
    else
      var n := s[|s| - 1];
      if 1 <= n <= BLOCK && n <= |s| && (forall i :: |s| - n <= i < |s| ==> s[i] == n) then Some(s[..|s| - n]) else None
  }

  lemma UnpadPad(s: Bytes)
    ensures Whole(Pad(s)) && Pad(s) != [] && Unpad(Pad(s)) == Some(s)
  {
    var n := BLOCK - |s| % BLOCK;
    assert Pad(s)[|Pad(s)| - 1] == n;
    assert Pad(s)[..|s|] == s;
  }

  /** Only a padded text unpads, so padding is unambiguous. */
  lemma PadUnpad(s: Bytes)
    requires Whole(s) && Unpad(s).Some?
    ensures Pad(Unpad(s).value) == s
  {
    var n := s[|s| - 1];
    var t := Unpad(s).value;
    WholeBlocks(|s|, n);
    assert BLOCK - |t| % BLOCK == n;
  }

  lemma WholeBlocks(len: nat, n: nat)
    requires len % BLOCK == 0 && 1 <= n <= BLOCK && n <= len
    ensures BLOCK - (len - n) % BLOCK == n
  {
    if n == BLOCK {
      assert (len - n) % BLOCK == 0;
    } else {
      assert (len - n) % BLOCK == BLOCK - n;
    }
  }

  // ---------- block chaining ----------

  /** Whole blocks and nothing over. */
  predicate Whole(s: Bytes) { |s| % BLOCK == 0 }

  lemma OneBlockLess(s: Bytes)
    requires Whole(s) && s != []
    ensures |s| >= BLOCK && Whole(s[BLOCK..])
  {
  }

  function CbcEncrypt(p: Primitives, key: Bytes, iv: Bytes, text: Bytes): Bytes
    requires |iv| == BLOCK && Whole(text)
    decreases |text|
  {
    if text == [] then [] else
    var c := p.forward(key, Xor(text[..BLOCK], iv));
    if |c| != BLOCK then [] else c + CbcEncrypt(p, key, c, text[BLOCK..])
  }

  function CbcDecrypt(p: Primitives, key: Bytes, iv: Bytes, cipher: Bytes): Bytes
    requires |iv| == BLOCK && Whole(cipher)
    decreases |cipher|
  {
    if cipher == [] then [] else
    var b := p.back(key, cipher[..BLOCK]);
    if |b| != BLOCK then [] else Xor(b, iv) + CbcDecrypt(p, key, cipher[..BLOCK], cipher[BLOCK..])
  }

  /** The law of the block cipher at one block. */
  lemma Inverts(p: Primitives, key: Bytes, b: Bytes)
    requires Permutes(p, key) && |b| == BLOCK
    ensures |p.forward(key, b)| == BLOCK && |p.back(key, b)| == BLOCK
    ensures p.back(key, p.forward(key, b)) == b && p.forward(key, p.back(key, b)) == b
  {
  }

  lemma {:induction false} CbcLength(p: Primitives, key: Bytes, iv: Bytes, text: Bytes)
    requires Permutes(p, key) && |iv| == BLOCK && Whole(text)
    ensures |CbcEncrypt(p, key, iv, text)| == |text|
    ensures |CbcDecrypt(p, key, iv, text)| == |text|
    decreases |text|
  {
    if text != [] {
      OneBlockLess(text);
      hide Whole, Xor, Permutes;
      Inverts(p, key, Xor(text[..BLOCK], iv));
      Inverts(p, key, text[..BLOCK]);
      CbcLength(p, key, p.forward(key, Xor(text[..BLOCK], iv)), text[BLOCK..]);
      CbcLength(p, key, text[..BLOCK], text[BLOCK..]);
    }
  }

  lemma {:induction false} CbcDecryptEncrypt(p: Primitives, key: Bytes, iv: Bytes, text: Bytes)
    requires Permutes(p, key) && |iv| == BLOCK && Whole(text)
    ensures |CbcEncrypt(p, key, iv, text)| == |text|
    ensures CbcDecrypt(p, key, iv, CbcEncrypt(p, key, iv, text)) == text
    decreases |text|
  {
    CbcLength(p, key, iv, text);
    if text != [] {
      OneBlockLess(text);
      hide Whole, Xor, Permutes;
      var first := text[..BLOCK];
      Inverts(p, key, Xor(first, iv));
      var c := p.forward(key, Xor(first, iv));
      var rest := CbcEncrypt(p, key, c, text[BLOCK..]);
      CbcDecryptEncrypt(p, key, c, text[BLOCK..]);
      XorTwice(first, iv);
      assert (c + rest)[..BLOCK] == c && (c + rest)[BLOCK..] == rest;
      assert text == first + text[BLOCK..];
    }
  }

  lemma {:induction false} CbcEncryptDecrypt(p: Primitives, key: Bytes, iv: Bytes, cipher: Bytes)
    requires Permutes(p, key) && |iv| == BLOCK && Whole(cipher)
    ensures |CbcDecrypt(p, key, iv, cipher)| == |cipher|
    ensures CbcEncrypt(p, key, iv, CbcDecrypt(p, key, iv, cipher)) == cipher
    decreases |cipher|
  {
    CbcLength(p, key, iv, cipher);
    if cipher != [] {
      OneBlockLess(cipher);
      hide Whole, Xor, Permutes;
      var c := cipher[..BLOCK];
      Inverts(p, key, c);
      var b := p.back(key, c);
      var rest := CbcDecrypt(p, key, c, cipher[BLOCK..]);
      CbcEncryptDecrypt(p, key, c, cipher[BLOCK..]);
      XorTwice(b, iv);
      assert (Xor(b, iv) + rest)[..BLOCK] == Xor(b, iv) && (Xor(b, iv) + rest)[BLOCK..] == rest;
      assert cipher == c + cipher[BLOCK..];
    }
  }

  // ---------- encrypted strings ----------

  function Encrypt(p: Primitives, k: Keys, iv: Bytes, text: Bytes): EncString
    requires |iv| == BLOCK
  {
    UnpadPad(text);
    var cipher := CbcEncrypt(p, k.enc, iv, Pad(text));
    EncString(2, iv, cipher, Some(p.sign(k.mac, iv + cipher)))
  }

  function Decrypt(p: Primitives, k: Keys, e: EncString): Option<Bytes> {
    if e.mac.Some? && p.sign(k.mac, e.iv + e.ciphertext) != e.mac.value then None
    else if |e.iv| != BLOCK then None
    else if !Whole(e.ciphertext) then None
    else Unpad(CbcDecrypt(p, k.enc, e.iv, e.ciphertext))
  }

  /** Decryption undoes encryption, whatever the IV. */
  lemma DecryptEncrypt(p: Primitives, k: Keys, iv: Bytes, text: Bytes)
    requires Permutes(p, k.enc) && |iv| == BLOCK
    ensures Decrypt(p, k, Encrypt(p, k, iv, text)) == Some(text)
  {
    UnpadPad(text);
    CbcDecryptEncrypt(p, k.enc, iv, Pad(text));
  }

  /** What decrypts under a MAC is the encryption of its plaintext with its IV: nothing else carries the tag. */
  lemma EncryptDecrypt(p: Primitives, k: Keys, e: EncString)
    requires Permutes(p, k.enc) && Decrypt(p, k, e).Some? && e.encType == 2 && e.mac.Some?
    ensures |e.iv| == BLOCK && Encrypt(p, k, e.iv, Decrypt(p, k, e).value) == e
  {
    CbcEncryptDecrypt(p, k.enc, e.iv, e.ciphertext);
    PadUnpad(CbcDecrypt(p, k.enc, e.iv, e.ciphertext));
  }

  function EncryptStr(p: Primitives, k: Keys, iv: Bytes, text: string): string
    requires |iv| == BLOCK
  {
    Display(Encrypt(p, k, iv, p.toUtf8(text)))
  }

  function DecryptStr(p: Primitives, k: Keys, s: string): Option<string> {
    match Parse(s)
    case None => None
    case Some(e) =>
      match Decrypt(p, k, e)
      case None => None
      case Some(bytes) => p.fromUtf8(bytes)
  }

  /** Every string survives encryption to text and back, under any IV. */
  lemma DecryptStrEncryptStr(p: Primitives, k: Keys, iv: Bytes, text: string)
    requires Permutes(p, k.enc) && Utf8(p) && |iv| == BLOCK
    ensures DecryptStr(p, k, EncryptStr(p, k, iv, text)) == Some(text)
  {
    hide Display, Parse, Decrypt, Encrypt;
    var e := Encrypt(p, k, iv, p.toUtf8(text));
    EncryptedIsStandard(p, k, iv, p.toUtf8(text));
    ParseDisplay(e);
    DecryptEncrypt(p, k, iv, p.toUtf8(text));
  }

  lemma EncryptedIsStandard(p: Primitives, k: Keys, iv: Bytes, text: Bytes)
    requires |iv| == BLOCK
    ensures var e := Encrypt(p, k, iv, text); e.encType == 2 && Standard(e)
  {
  }

  /** A text that decrypts and starts with the usual type is the encryption of its plaintext. */
  lemma EncryptStrDecryptStr(p: Primitives, k: Keys, s: string)
    requires Permutes(p, k.enc) && Utf8(p) && DecryptStr(p, k, s).Some? && "2." <= s
    ensures |Parse(s).value.iv| == BLOCK
    ensures EncryptStr(p, k, Parse(s).value.iv, DecryptStr(p, k, s).value) == s
  {
    hide Display, Parse, Decrypt, Encrypt;
    var e := Parse(s).value;
    var prefix := DisplayParse(s);
    PrefixIsTwo(s, prefix, Body(e));
    EncryptDecrypt(p, k, e);
    assert p.toUtf8(DecryptStr(p, k, s).value) == Decrypt(p, k, e).value;
  }

  lemma PrefixIsTwo(s: string, prefix: string, body: string)
    requires "2." <= s && s == prefix + ['.'] + body && '.' !in prefix
    ensures prefix == "2"
    ensures ParseU8(prefix) == Some(2)
  {
    assert s == "2" + ['.'] + s[2..];
    SplitOnceAt("2", '.', s[2..]);
    SplitOnceAt(prefix, '.', body);
    SingleDigit("2");
  }

  // ---------- the protected key ----------

  /** The account key travels as 64 encrypted bytes: the encryption key, then the MAC key. */
  function UnwrapKeys(p: Primitives, k: Keys, e: EncString): Option<Keys> {
    match Decrypt(p, k, e)
    case None => None
    case Some(raw) => if |raw| == 64 then Some(Keys(raw[..32], raw[32..])) else None
  }

  lemma UnwrapWrapped(p: Primitives, k: Keys, iv: Bytes, inner: Keys)
    requires Permutes(p, k.enc) && |iv| == BLOCK && |inner.enc| == 32 && |inner.mac| == 32
    ensures UnwrapKeys(p, k, Encrypt(p, k, iv, inner.enc + inner.mac)) == Some(inner)
  {
    hide Encrypt, Decrypt;
    var raw := inner.enc + inner.mac;
    DecryptEncrypt(p, k, iv, raw);
    assert raw[..32] == inner.enc && raw[32..] == inner.mac;
  }

  // ---------- what an encryption is ----------

  /** Padding adds one to sixteen bytes, each saying how many, up to a multiple of sixteen. */
  lemma PadExact(s: Bytes)
    ensures var n := |Pad(s)| - |s|;
      1 <= n <= 16 && |Pad(s)| % 16 == 0 && s <= Pad(s) && forall i :: |s| <= i < |Pad(s)| ==> Pad(s)[i] == n
  {
    UnpadPad(s);
  }

  /** What the next block is mixed with: the last block of the ciphertext so far, or the IV if there is none. */
  function LastBlock(iv: Bytes, cipher: Bytes): (b: Bytes)
    requires |iv| == BLOCK && (cipher == [] || |cipher| >= BLOCK)
    ensures |b| == BLOCK
  {
    if cipher == [] then iv else cipher[|cipher| - BLOCK..]
  }

  lemma LastOfJoined(iv: Bytes, c: Bytes, rest: Bytes)
    requires |iv| == |c| == BLOCK && (rest == [] || |rest| >= BLOCK)
    ensures LastBlock(iv, c + rest) == LastBlock(c, rest)
  {
  }

  /** A single block is mixed with the IV. */
  lemma OneBlock(p: Primitives, key: Bytes, iv: Bytes, block: Bytes)
    requires Permutes(p, key) && |iv| == |block| == BLOCK
    ensures Whole(block) && CbcEncrypt(p, key, iv, block) == p.forward(key, Xor(block, iv))
  {
    hide Xor;
    assert block[..BLOCK] == block && block[BLOCK..] == [];
  }

  lemma WholeInFront(first: Bytes, left: Bytes)
    requires |first| == BLOCK && Whole(left)
    ensures Whole(first + left) && (first + left)[..BLOCK] == first && (first + left)[BLOCK..] == left
  {
  }

  lemma EncryptUnfolded(p: Primitives, key: Bytes, iv: Bytes, text: Bytes)
    requires |iv| == BLOCK && Whole(text) && text != []
    ensures |text| >= BLOCK && Whole(text[BLOCK..])
    ensures var c := p.forward(key, Xor(text[..BLOCK], iv));
      |c| == BLOCK ==> CbcEncrypt(p, key, iv, text) == c + CbcEncrypt(p, key, c, text[BLOCK..])
  {
    OneBlockLess(text);
    hide Xor, Whole;
  }

  /** A block in front: encrypted on its own, and in place of the IV for what follows. */
  lemma BlockInFront(p: Primitives, key: Bytes, iv: Bytes, first: Bytes, left: Bytes)
    requires Permutes(p, key) && |iv| == |first| == BLOCK && Whole(left)
    ensures Whole(first + left)
    ensures var c := p.forward(key, Xor(first, iv));
      |c| == BLOCK && CbcEncrypt(p, key, iv, first + left) == c + CbcEncrypt(p, key, c, left)
  {
    hide Xor, Whole, Permutes, CbcEncrypt;
    WholeInFront(first, left);
    Inverts(p, key, Xor(first, iv));
    EncryptUnfolded(p, key, iv, first + left);
  }

  /** The encryption of a followed by z is that of a, followed by that of z after it. */
  ghost predicate Continues(p: Primitives, key: Bytes, iv: Bytes, a: Bytes, z: Bytes) {
    && |iv| == BLOCK && Whole(a) && Whole(z) && Whole(a + z)
    && var x := CbcEncrypt(p, key, iv, a);
       && (x == [] || |x| >= BLOCK)
       && CbcEncrypt(p, key, iv, a + z) == x + CbcEncrypt(p, key, LastBlock(iv, x), z)
  }

  lemma ContinuesAtOnce(p: Primitives, key: Bytes, iv: Bytes, z: Bytes)
    requires |iv| == BLOCK && Whole(z)
    ensures Continues(p, key, iv, [], z)
  {
    assert [] + z == z;
    assert CbcEncrypt(p, key, iv, []) == [];
    hide CbcEncrypt;
    assert [] + CbcEncrypt(p, key, iv, z) == CbcEncrypt(p, key, iv, z);
  }

  lemma ContinuesLater(p: Primitives, key: Bytes, iv: Bytes, first: Bytes, left: Bytes, z: Bytes)
    requires Permutes(p, key) && |iv| == |first| == BLOCK && Continues(p, key, p.forward(key, Xor(first, iv)), left, z)
    ensures Continues(p, key, iv, first + left, z)
  {
    hide Xor, Permutes, CbcEncrypt, LastBlock, Whole;
    var c := p.forward(key, Xor(first, iv));
    var x := CbcEncrypt(p, key, c, left);
    var y := CbcEncrypt(p, key, LastBlock(c, x), z);
    BlockInFront(p, key, iv, first, left);
    BlockInFront(p, key, iv, first, left + z);
    LastOfJoined(iv, c, x);
    assert first + left + z == first + (left + z);
    assert c + (x + y) == c + x + y;
  }

  /**
    A longer text continues where the shorter one ended: what follows is
    encrypted with the last ciphertext block in place of the IV.
   */
  lemma {:induction false} ChainExact(p: Primitives, key: Bytes, iv: Bytes, a: Bytes, z: Bytes)
    requires Permutes(p, key) && |iv| == BLOCK && Whole(a) && Whole(z)
    ensures Continues(p, key, iv, a, z)
    decreases |a|
  {
    ContinuesAtOnce(p, key, iv, z);
    if a != [] {
      OneBlockLess(a);
    }
    hide Continues, Whole, Xor, Permutes;
    if a != [] {
      var first, left := a[..BLOCK], a[BLOCK..];
      assert a == first + left;
      Inverts(p, key, Xor(first, iv));
      ChainExact(p, key, p.forward(key, Xor(first, iv)), left, z);
      ContinuesLater(p, key, iv, first, left, z);
    }
  }

  /** An encrypted string is of the usual type, names its IV, and carries a tag over IV and ciphertext under the MAC key. */
  lemma EncryptExact(p: Primitives, k: Keys, iv: Bytes, text: Bytes)
    requires |iv| == BLOCK
    ensures var e := Encrypt(p, k, iv, text);
      && e.encType == 2 && e.iv == iv && e.mac == Some(p.sign(k.mac, iv + e.ciphertext))
      && e.ciphertext == CbcEncrypt(p, k.enc, iv, Pad(text))
  {
  }

  /** What carries a tag decrypts only under the right one, whatever the rest says. */
  lemma TagIsChecked(p: Primitives, k: Keys, e: EncString)
    ensures e.mac.Some? && e.mac.value != p.sign(k.mac, e.iv + e.ciphertext) ==> Decrypt(p, k, e).None?
    ensures Decrypt(p, k, e).Some? ==> |e.iv| == 16 && |e.ciphertext| % 16 == 0 && e.ciphertext != []
  {
    if |e.iv| == 16 && |e.ciphertext| % 16 == 0 && e.ciphertext == [] {
      assert CbcDecrypt(p, k.enc, e.iv, e.ciphertext) == [];
    }
  }

  /** Without a tag there is nothing to check: the older type decrypts to whatever its blocks hold. */
  lemma UntaggedDecrypts(p: Primitives, k: Keys, iv: Bytes, text: Bytes)
    requires Permutes(p, k.enc) && |iv| == BLOCK
    ensures Decrypt(p, k, EncString(0, iv, CbcEncrypt(p, k.enc, iv, Pad(text)), None)) == Some(text)
  {
    UnpadPad(text);
    CbcDecryptEncrypt(p, k.enc, iv, Pad(text));
  }

  /** An account key is taken apart only if it decrypts to 64 bytes: the first 32 encrypt, the others authenticate. */
  lemma UnwrapExact(p: Primitives, k: Keys, e: EncString)
    ensures UnwrapKeys(p, k, e).Some? <==> Decrypt(p, k, e).Some? && |Decrypt(p, k, e).value| == 64
    ensures UnwrapKeys(p, k, e).Some? ==>
      var inner := UnwrapKeys(p, k, e).value; inner.enc + inner.mac == Decrypt(p, k, e).value && |inner.enc| == 32 == |inner.mac|
  {
    hide Decrypt;
  }
}
