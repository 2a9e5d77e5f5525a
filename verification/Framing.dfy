/**
  The binary framing of hub messages: a little-endian base-128 length prefix
  in front of every payload, and the MessagePack timestamp (extension type -1)
  packed into one 64-bit word.
 */
module Framing {
  import opened Octets

  // ---------- length prefix ----------

  /** The prefix of a payload of n bytes. */
  function Prefix(n: nat): (p: seq<Byte>)
    ensures |p| >= 1
  {
    if n < 128 then [n] else [n % 128 + 128] + Prefix(n / 128)
  }

  /** The program's loop: emit seven bits at a time, setting the top bit while more follow. */
  method LengthPrefix(payload: seq<Byte>) returns (frame: seq<Byte>)
    ensures frame == Frame(payload)
  {
    var size: nat := |payload|;
    var lenBuf: seq<Byte> := [];
    while true
      invariant lenBuf + Prefix(size) == Prefix(|payload|)
      decreases size
    {
      var sizePart := size % 128;
      var rest := size / 128;
      if rest > 0 {
        assert Prefix(size) == [sizePart + 128] + Prefix(rest);
        sizePart := sizePart + 128;
      }
      assert rest == 0 ==> Prefix(size) == [sizePart];
      lenBuf := lenBuf + [sizePart];
      size := rest;
      if size == 0 {
        assert lenBuf == Prefix(|payload|);
        break;
      }
    }
    frame := lenBuf + payload;
  }

  function Frame(payload: seq<Byte>): seq<Byte> {
    Prefix(|payload|) + payload
  }

  datatype Parsed<T> = Got(value: T, rest: seq<Byte>) | Short

  /** A receiver: reads the length, low group first, and returns what follows it. */
  function ReadLength(s: seq<Byte>): Parsed<nat> {
    if s == [] then Short
    else if s[0] < 128 then Got(s[0], s[1..])
    else match ReadLength(s[1..])
      case Got(n, rest) => Got(n * 128 + (s[0] - 128), rest)
      case Short => Short
  }

  function ReadFrame(s: seq<Byte>): Parsed<seq<Byte>> {
    match ReadLength(s)
    case Short => Short
    case Got(n, rest) => if n <= |rest| then Got(rest[..n], rest[n..]) else Short
  }

  lemma {:induction false} LengthRoundTrip(n: nat, tail: seq<Byte>)
    ensures ReadLength(Prefix(n) + tail) == Got(n, tail)
  {
    if n < 128 {
      assert ([n] + tail)[1..] == tail;
    } else {
      LengthRoundTrip(n / 128, tail);
      assert (Prefix(n) + tail)[1..] == Prefix(n / 128) + tail;
    }
  }

  /** No prefix of one length starts the prefix of another. */
  lemma PrefixFree(m: nat, n: nat, x: seq<Byte>, y: seq<Byte>)
    requires Prefix(m) + x == Prefix(n) + y
    ensures m == n && x == y
  {
    LengthRoundTrip(m, x);
    LengthRoundTrip(n, y);
  }

  lemma FrameRoundTrip(payload: seq<Byte>, tail: seq<Byte>)
    ensures ReadFrame(Frame(payload) + tail) == Got(payload, tail)
  {
    LengthRoundTrip(|payload|, payload + tail);
    assert Frame(payload) + tail == Prefix(|payload|) + (payload + tail);
  }

  function Concat(payloads: seq<seq<Byte>>): seq<Byte> {
    if payloads == [] then [] else Frame(payloads[0]) + Concat(payloads[1..])
  }

  function ReadFrameShorter(s: seq<Byte>): (p: Parsed<seq<Byte>>)
    ensures p == ReadFrame(s)
    ensures p.Got? ==> |p.rest| < |s|
  {
    ReadLengthShorter(s);
    ReadFrame(s)
  }

  lemma ReadLengthShorter(s: seq<Byte>)
    ensures ReadLength(s).Got? ==> |ReadLength(s).rest| < |s|
  {
  }

  /** Splits a byte stream into the payloads of its frames; Short when it does not end on a frame boundary. */
  function Split(s: seq<Byte>): Parsed<seq<seq<Byte>>>
    decreases |s|
  {
    if s == [] then Got([], [])
    else match ReadFrameShorter(s)
      case Short => Short
      case Got(payload, rest) =>
        match Split(rest)
        case Short => Short
        case Got(more, _) => Got([payload] + more, [])
  }

  /** Any concatenation of frames splits back into exactly its payloads. */
  lemma {:induction false} StreamRoundTrip(payloads: seq<seq<Byte>>)
    ensures Split(Concat(payloads)) == Got(payloads, [])
  {
    if payloads != [] {
      FrameRoundTrip(payloads[0], Concat(payloads[1..]));
      StreamRoundTrip(payloads[1..]);
      assert payloads == [payloads[0]] + payloads[1..];
    }
  }

  /** Different lists of payloads give different streams. */
  lemma StreamInjective(a: seq<seq<Byte>>, b: seq<seq<Byte>>)
    requires Concat(a) == Concat(b)
    ensures a == b
  {
    StreamRoundTrip(a);
    StreamRoundTrip(b);
  }

  // ---------- timestamp ----------

  /** Both arguments are i64 words in two's complement; the shift drops what does not fit. */
  function Pack(seconds: bv64, nanos: bv64): bv64 { (nanos << 34) | seconds }

  datatype Timestamp = Timestamp(seconds: bv64, nanos: bv64)

  /** The reader's side of the 64-bit timestamp format: 30 bits of nanoseconds above 34 bits of seconds. */
  function Unpack(w: bv64): Timestamp { Timestamp(w & 0x3_ffff_ffff, w >> 34) }

  function BigEndian(w: bv64): seq<bv8> {
    [(w >> 56) as bv8, ((w >> 48) & 0xff) as bv8, ((w >> 40) & 0xff) as bv8, ((w >> 32) & 0xff) as bv8,
     ((w >> 24) & 0xff) as bv8, ((w >> 16) & 0xff) as bv8, ((w >> 8) & 0xff) as bv8, (w & 0xff) as bv8]
  }

  function FromBigEndian(s: seq<bv8>): bv64
    requires |s| == 8
  {
    ((s[0] as bv64) << 56) | ((s[1] as bv64) << 48) | ((s[2] as bv64) << 40) | ((s[3] as bv64) << 32) |
    ((s[4] as bv64) << 24) | ((s[5] as bv64) << 16) | ((s[6] as bv64) << 8) | (s[7] as bv64)
  }

  lemma BigEndianRoundTrip(w: bv64)
    ensures FromBigEndian(BigEndian(w)) == w
  {
  }

  function SerializeDate(seconds: bv64, nanos: bv64): seq<bv8> { BigEndian(Pack(seconds, nanos)) }

  /**
    A reader recovers the moment exactly when the seconds fit 34 bits and the
    nanoseconds 30 bits; a leap second's nanoseconds or a date outside
    1970-2514 is garbled.
   */
  lemma TimestampRoundTrip(seconds: bv64, nanos: bv64)
    ensures Unpack(FromBigEndian(SerializeDate(seconds, nanos))) == Timestamp(seconds, nanos)
       <==> seconds <= 0x3_ffff_ffff && nanos <= 0x3fff_ffff
  {
    BigEndianRoundTrip(Pack(seconds, nanos));
    PackUnpack(seconds, nanos);
  }

  /** A word carries a moment when its low 34 bits are the seconds and its high 30 bits the nanoseconds. */
  ghost predicate Carries(w: bv64, seconds: bv64, nanos: bv64) {
    w & 0x3_ffff_ffff == seconds && w >> 34 == nanos
  }

  lemma UnpackFields(w: bv64, seconds: bv64, nanos: bv64)
    ensures Unpack(w) == Timestamp(seconds, nanos) <==> Carries(w, seconds, nanos)
  {
  }

  lemma PackFields(seconds: bv64, nanos: bv64)
    ensures Carries(Pack(seconds, nanos), seconds, nanos) <==> seconds <= 0x3_ffff_ffff && nanos <= 0x3fff_ffff
  {
  }

  lemma PackUnpack(seconds: bv64, nanos: bv64)
    ensures Unpack(Pack(seconds, nanos)) == Timestamp(seconds, nanos)
       <==> seconds <= 0x3_ffff_ffff && nanos <= 0x3fff_ffff
  {
    hide Pack, Unpack, Carries;
    PackFields(seconds, nanos);
    UnpackFields(Pack(seconds, nanos), seconds, nanos);
  }
}
