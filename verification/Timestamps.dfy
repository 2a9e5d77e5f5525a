/** The client's parser for fixed-format UTC timestamps such as 2024-01-15T10:30:00.0000000Z. */
module Timestamps {
  import opened Calendar
  import opened Text
  import opened Wrappers

  // ---------- parsing ----------

  /** Rust's i64 parser: an optional sign, at least one digit, nothing else, and in range. */
  function ParseI64(s: string): Option<int> {
    var negative := s != "" && s[0] == '-';
    var digits := if s != "" && (s[0] == '-' || s[0] == '+') then s[1..] else s;
    if digits == "" || !AllDigits(digits) then None
    else
      var magnitude: int := DigitsValue(digits);
      var v := if negative then -magnitude else magnitude;
      if -0x8000_0000_0000_0000 <= v < 0x8000_0000_0000_0000 then Some(v) else None
  }

  /** The first three parts as numbers; further parts are ignored. */
  function ParseThree(parts: seq<string>): Option<(int, int, int)> {
    if |parts| < 3 then None
    else match (ParseI64(parts[0]), ParseI64(parts[1]), ParseI64(parts[2]))
      case (Some(a), Some(b), Some(c)) => Some((a, b, c))
      case _ => None
  }

  datatype Fields = Fields(date: Date, hour: int, min: int, sec: int)

  function ParseFields(text: string): Option<Fields> {
    var s := TrimEnd(text, 'Z');
    match SplitOnce(s, 'T')
    case None => None
    case Some((date, time)) =>
      Combine(ParseThree(Split(date, '-')), ParseThree(Split(Split(time, '.')[0], ':')))
  }

  function Combine(ymd: Option<(int, int, int)>, hms: Option<(int, int, int)>): Option<Fields> {
    match (ymd, hms)
    case (Some((y, m, d)), Some((hour, min, sec))) => Some(Fields(Date(y, m, d), hour, min, sec))
    case _ => None
  }

  function UnixSeconds(f: Fields): int {
    Days(f.date) * 86400 + f.hour * 3600 + f.min * 60 + f.sec
  }

  function ParseIso8601(text: string): Option<int> {
    match ParseFields(text)
    case None => None
    case Some(f) => Some(UnixSeconds(f))
  }

  // ---------- well-formed timestamps ----------

  /** A moment with its fraction written out; the fraction may be empty. */
  datatype Moment = Moment(fields: Fields, fraction: string)

  predicate WellFormed(t: Moment) {
    && Valid(t.fields.date) && 0 <= t.fields.date.year <= 9999
    && 0 <= t.fields.hour < 24 && 0 <= t.fields.min < 60 && 0 <= t.fields.sec < 60
    && AllDigits(t.fraction)
  }

  function Digits(n: nat, width: nat): (s: string)
    ensures |s| == width && AllDigits(s)
  {
    if width == 0 then "" else Digits(n / 10, width - 1) + ['0' + (n % 10) as char]
  }

  function FormatDate(t: Date): string
    requires 0 <= t.year && 0 <= t.month && 0 <= t.day
  {
    Digits(t.year, 4) + "-" + Digits(t.month, 2) + "-" + Digits(t.day, 2)
  }

  function FormatClock(t: Fields): string
    requires 0 <= t.hour && 0 <= t.min && 0 <= t.sec
  {
    Digits(t.hour, 2) + ":" + Digits(t.min, 2) + ":" + Digits(t.sec, 2)
  }

  function Format(t: Moment): string
    requires WellFormed(t)
  {
    FormatDate(t.fields.date) + "T" + FormatClock(t.fields) + (if t.fraction == "" then "" else "." + t.fraction) + "Z"
  }

  // ---------- lemmas ----------

  function Pow10(k: nat): nat { if k == 0 then 1 else 10 * Pow10(k - 1) }

  lemma {:induction false} DigitsRoundTrip(n: nat, width: nat)
    requires n < Pow10(width)
    ensures DigitsValue(Digits(n, width)) == n
  {
    if width > 0 {
      DigitsRoundTrip(n / 10, width - 1);
      var s := Digits(n, width);
      assert s[..width - 1] == Digits(n / 10, width - 1);
    }
  }

  lemma ParseDigits(n: nat, width: nat)
    requires width > 0 && n < Pow10(width) && n < 10000
    ensures ParseI64(Digits(n, width)) == Some(n)
  {
    DigitsRoundTrip(n, width);
    assert IsDigit(Digits(n, width)[0]);
  }

  /** Three numbers joined by a separator split and parse back; no other separator occurs between them. */
  lemma ThreeNumbers(a: string, b: string, d: string, c: char, other: char)
    requires AllDigits(a) && AllDigits(b) && AllDigits(d) && !IsDigit(c) && !IsDigit(other) && other != c
    ensures Split(a + [c] + b + [c] + d, c) == [a, b, d]
    ensures other !in a + [c] + b + [c] + d
  {
    SplitThree(a, b, d, c);
  }

  lemma ParseDate(t: Date)
    requires Valid(t) && 0 <= t.year <= 9999
    ensures ParseThree(Split(FormatDate(t), '-')) == Some((t.year, t.month, t.day))
    ensures 'T' !in FormatDate(t)
  {
    var y, m, d := Digits(t.year, 4), Digits(t.month, 2), Digits(t.day, 2);
    ThreeNumbers(y, m, d, '-', 'T');
    assert FormatDate(t) == y + ['-'] + m + ['-'] + d;
    assert Pow10(2) == 100;
    assert Pow10(4) == 10000;
    ParseDigits(t.year, 4);
    ParseDigits(t.month, 2);
    ParseDigits(t.day, 2);
  }

  lemma ParseClock(t: Fields)
    requires 0 <= t.hour < 24 && 0 <= t.min < 60 && 0 <= t.sec < 60
    ensures ParseThree(Split(FormatClock(t), ':')) == Some((t.hour, t.min, t.sec))
    ensures '.' !in FormatClock(t)
  {
    var h, m, x := Digits(t.hour, 2), Digits(t.min, 2), Digits(t.sec, 2);
    ThreeNumbers(h, m, x, ':', '.');
    assert FormatClock(t) == h + [':'] + m + [':'] + x;
    assert Pow10(2) == 100;
    ParseDigits(t.hour, 2);
    ParseDigits(t.min, 2);
    ParseDigits(t.sec, 2);
  }

  function TimePart(t: Moment): string
    requires WellFormed(t)
  {
    FormatClock(t.fields) + (if t.fraction == "" then "" else "." + t.fraction)
  }

  lemma ClockPart(t: Moment)
    requires WellFormed(t)
    ensures Split(TimePart(t), '.')[0] == FormatClock(t.fields)
    ensures TimePart(t)[|TimePart(t)| - 1] != 'Z'
  {
    ParseClock(t.fields);
    var clock := FormatClock(t.fields);
    assert IsDigit(Digits(t.fields.sec, 2)[1]);
    if t.fraction == "" {
      assert TimePart(t) == clock;
      SplitOnceNone(clock, '.');
    } else {
      assert TimePart(t) == clock + ['.'] + t.fraction;
      SplitOnceAt(clock, '.', t.fraction);
      assert IsDigit(t.fraction[|t.fraction| - 1]);
    }
  }

  lemma TrimSuffix(body: string, c: char)
    requires body != "" && body[|body| - 1] != c
    ensures TrimEnd(body + [c], c) == body
  {
    assert (body + [c])[..|body|] == body;
  }

  lemma ParseAssembled(text: string, body: string, date: string, time: string, f: Fields)
    requires TrimEnd(text, 'Z') == body && SplitOnce(body, 'T') == Some((date, time))
    requires ParseThree(Split(date, '-')) == Some((f.date.year, f.date.month, f.date.day))
    requires ParseThree(Split(Split(time, '.')[0], ':')) == Some((f.hour, f.min, f.sec))
    ensures ParseFields(text) == Some(f)
  {
  }

  lemma FormatShape(t: Moment)
    requires WellFormed(t)
    ensures Format(t) == (FormatDate(t.fields.date) + ['T'] + TimePart(t)) + ['Z']
  {
    hide FormatDate, FormatClock;
    var date, clock := FormatDate(t.fields.date), FormatClock(t.fields);
    var fraction := if t.fraction == "" then "" else "." + t.fraction;
    assert date + "T" + clock + fraction + "Z" == (date + ['T'] + (clock + fraction)) + ['Z'];
  }

  lemma FormatPieces(t: Moment)
    requires WellFormed(t)
    ensures TrimEnd(Format(t), 'Z') == FormatDate(t.fields.date) + ['T'] + TimePart(t)
    ensures SplitOnce(FormatDate(t.fields.date) + ['T'] + TimePart(t), 'T') == Some((FormatDate(t.fields.date), TimePart(t)))
  {
    hide Format, FormatDate, TimePart, TrimEnd, SplitOnce;
    var date, time := FormatDate(t.fields.date), TimePart(t);
    ParseDate(t.fields.date);
    ClockPart(t);
    TrimSuffix(date + ['T'] + time, 'Z');
    FormatShape(t);
    SplitOnceAt(date, 'T', time);
  }

  /** Every well-formed timestamp parses to its moment, whatever fraction it carries. */
  lemma ParseFormat(t: Moment)
    requires WellFormed(t)
    ensures ParseFields(Format(t)) == Some(t.fields)
  {
    var date, time := FormatDate(t.fields.date), TimePart(t);
    ParseDate(t.fields.date);
    ParseClock(t.fields);
    ClockPart(t);
    FormatPieces(t);
    ParseAssembled(Format(t), date + ['T'] + time, date, time, t.fields);
  }

  /** Chronological order to the second. */
  predicate Earlier(a: Fields, b: Fields) {
    Before(a.date, b.date) ||
    (a.date == b.date && (a.hour < b.hour || (a.hour == b.hour && (a.min < b.min || (a.min == b.min && a.sec < b.sec)))))
  }

  lemma SecondsIncrease(a: Fields, b: Fields)
    requires Valid(a.date) && 0 <= a.hour < 24 && 0 <= a.min < 60 && 0 <= a.sec < 60
    requires Valid(b.date) && 0 <= b.hour < 24 && 0 <= b.min < 60 && 0 <= b.sec < 60
    requires Earlier(a, b)
    ensures UnixSeconds(a) < UnixSeconds(b)
  {
    if Before(a.date, b.date) {
      StrictlyMonotone(a.date, b.date);
      DayDominates(Days(a.date), Days(b.date), a, b);
    }
  }

  lemma DayDominates(m: int, n: int, a: Fields, b: Fields)
    requires m < n
    requires a.hour < 24 && a.min < 60 && a.sec < 60 && 0 <= b.hour && 0 <= b.min && 0 <= b.sec
    ensures m * 86400 + a.hour * 3600 + a.min * 60 + a.sec < n * 86400 + b.hour * 3600 + b.min * 60 + b.sec
  {
  }

  /** Parsing preserves chronological order, both ways. */
  lemma OrderPreserved(a: Moment, b: Moment)
    requires WellFormed(a) && WellFormed(b)
    ensures ParseIso8601(Format(a)).Some? && ParseIso8601(Format(b)).Some?
    ensures Earlier(a.fields, b.fields) <==> ParseIso8601(Format(a)).value < ParseIso8601(Format(b)).value
  {
    ParseFormat(a);
    ParseFormat(b);
    if Earlier(a.fields, b.fields) {
      SecondsIncrease(a.fields, b.fields);
    } else if Earlier(b.fields, a.fields) {
      SecondsIncrease(b.fields, a.fields);
    }
  }

  // ---------- numbers ----------

  lemma UnsignedRead(s: string)
    requires s != "" && AllDigits(s)
    ensures ParseI64(s) == if DigitsValue(s) < 0x8000_0000_0000_0000 then Some(DigitsValue(s)) else None
  {
    hide DigitsValue;
    assert IsDigit(s[0]);
  }

  lemma SignedRead(sign: char, s: string)
    requires s != "" && AllDigits(s) && sign in "+-"
    ensures sign == '+' ==> ParseI64([sign] + s) == ParseI64(s)
    ensures sign == '-' ==> var r := ParseI64([sign] + s);
      (r.Some? <==> DigitsValue(s) <= 0x8000_0000_0000_0000) && (r.Some? ==> r.value + DigitsValue(s) == 0)
  {
    UnsignedRead(s);
    hide DigitsValue, AllDigits;
    assert ([sign] + s)[1..] == s;
  }

  /** Every number of 64 bits is read back from its digits with any sign it may have; a number beyond is refused. */
  lemma NumberRead(n: nat, width: nat)
    requires width > 0 && n < Pow10(width)
    ensures var r := ParseI64(Digits(n, width));
      && ParseI64(['+'] + Digits(n, width)) == r
      && (r.Some? <==> n < 0x8000_0000_0000_0000) && (r.Some? ==> r.value == n)
    ensures var r := ParseI64(['-'] + Digits(n, width));
      && (r.Some? <==> n <= 0x8000_0000_0000_0000) && (r.Some? ==> r.value + n == 0)
  {
    DigitsRoundTrip(n, width);
    hide Digits, DigitsValue, Pow10, ParseI64;
    UnsignedRead(Digits(n, width));
    SignedRead('+', Digits(n, width));
    SignedRead('-', Digits(n, width));
  }

  /** Anything but an optional sign and digits is refused, and so is a text without a time. */
  lemma OthersRefused(s: string, i: nat)
    ensures i < |s| && !IsDigit(s[i]) && (i > 0 || s[0] !in "+-") ==> ParseI64(s).None?
    ensures ParseI64("").None? && ParseI64("+").None? && ParseI64("-").None?
    ensures 'T' !in s ==> ParseIso8601(s).None?
  {
    if i < |s| && !IsDigit(s[i]) && i > 0 {
      assert s[1..][i - 1] == s[i];
    }
    if 'T' !in s {
      TrimEndExact(s, 'Z');
      SplitOnceNone(TrimEnd(s, 'Z'), 'T');
    }
  }
}
