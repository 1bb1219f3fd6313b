/**
 Clock times of the study alarm as text, `H:M`, and as seconds since
 midnight. A time is valid when it is in the ASCII-digit subset of what
 `time.strptime(t, "%H:%M")` accepts: one or two ASCII digits for an hour
 up to 23, a colon, and one or two digits for a minute up to 59. The
 Python's `strptime` also takes other Unicode decimal digits.
 */
module ClockText {

  const SecondsPerMinute := 60
  const SecondsPerHour := 3600
  const SecondsPerDay := 86400

  predicate IsDigit(ch: char) {
    '0' <= ch <= '9'
  }

  function DigitValue(ch: char): (d: nat)
    requires IsDigit(ch)
    ensures d < 10
  {
    (ch as int) - ('0' as int)
  }

  function DigitChar(d: nat): (ch: char)
    requires d < 10
    ensures IsDigit(ch) && DigitValue(ch) == d
  {
    (('0' as int) + d) as char
  }

  lemma DigitRoundTrip(ch: char)
    requires IsDigit(ch)
    ensures DigitChar(DigitValue(ch)) == ch
  {
  }

  /** A field `%H` or `%M` reads: one or two digits. */
  predicate IsField(s: string) {
    1 <= |s| <= 2 && forall i | 0 <= i < |s| :: IsDigit(s[i])
  }

  /** The number a field spells, as `int()` reads it. */
  function FieldValue(s: string): (v: nat)
    requires IsField(s)
    ensures v < 100
    ensures |s| == 1 ==> v < 10
  {
    if |s| == 1 then DigitValue(s[0]) else 10 * DigitValue(s[0]) + DigitValue(s[1])
  }

  /** The position of the first colon, or the length when there is none. */
  function ColonIndex(t: string): (k: nat)
    ensures k <= |t|
    ensures forall i | 0 <= i < k :: t[i] != ':'
    ensures k < |t| ==> t[k] == ':'
  {
    if t == [] then 0
    else if t[0] == ':' then 0
    else 1 + ColonIndex(t[1..])
  }

  function HourField(t: string): string {
    t[..ColonIndex(t)]
  }

  function MinuteField(t: string): string
    requires ColonIndex(t) < |t|
  {
    t[ColonIndex(t) + 1..]
  }

  /** The ASCII-digit subset of what `time.strptime(t, "%H:%M")` accepts. */
  predicate ValidTime(t: string) {
    && ColonIndex(t) < |t|
    && IsField(HourField(t)) && FieldValue(HourField(t)) <= 23
    && IsField(MinuteField(t)) && FieldValue(MinuteField(t)) <= 59
  }

  function Hour(t: string): nat
    requires ValidTime(t)
  {
    FieldValue(HourField(t))
  }

  function Minute(t: string): nat
    requires ValidTime(t)
  {
    FieldValue(MinuteField(t))
  }

  /**
   `time_to_seconds`: seconds since midnight of a valid time. The result is a
   whole number of minutes within one day, and splits back into the hour
   and minute the text spells.
   */
  function TimeToSeconds(t: string): (s: nat)
    requires ValidTime(t)
    ensures s % SecondsPerMinute == 0 && s < SecondsPerDay
    ensures s / SecondsPerHour == Hour(t) && s % SecondsPerHour / SecondsPerMinute == Minute(t)
  {
    Hour(t) * SecondsPerHour + Minute(t) * SecondsPerMinute
  }

  /** The decimal digits of `n` without leading zeros, as `str(n)` writes them. */
  function Decimal(n: nat): (r: string)
    ensures |r| >= 1
    ensures forall i | 0 <= i < |r| :: IsDigit(r[i])
    ensures n < 10 <==> |r| == 1
  {
    if n < 10 then [DigitChar(n)] else Decimal(n / 10) + [DigitChar(n % 10)]
  }

  /** The format `{n:02d}`: at least two digits, padded with a leading zero. */
  function Pad2(n: nat): (r: string)
    ensures |r| >= 2
    ensures forall i | 0 <= i < |r| :: IsDigit(r[i])
    ensures n < 100 ==> r == [DigitChar(n / 10), DigitChar(n % 10)]
  {
    if n < 10 then ['0', DigitChar(n)]
    else
      assert n < 100 ==> Decimal(n) == [DigitChar(n / 10)] + [DigitChar(n % 10)];
      Decimal(n)
  }

  /**
   `seconds_to_time`: hours and minutes of `s`, each written with two
   digits. For a time within one day the text is valid and reads back as `s`
   with its seconds dropped.
   */
  function SecondsToTime(s: nat): (t: string)
    ensures s < SecondsPerDay ==> |t| == 5 && ValidTime(t) && TimeToSeconds(t) == s - s % SecondsPerMinute
  {
    var h := s / SecondsPerHour;
    var m := s % SecondsPerHour / SecondsPerMinute;
    var t := Pad2(h) + ":" + Pad2(m);
    assert s < SecondsPerDay ==> ValidTime(t) && TimeToSeconds(t) == s - s % SecondsPerMinute by {
      if s < SecondsPerDay {
        SplitSeconds(s);
        FormattedIsValid(h, m);
      }
    }
    t
  }

  lemma FormattedIsValid(h: nat, m: nat)
    requires h <= 23 && m <= 59
    ensures var t := Pad2(h) + ":" + Pad2(m);
      && ColonIndex(t) == 2 && HourField(t) == Pad2(h) && MinuteField(t) == Pad2(m)
      && ValidTime(t) && Hour(t) == h && Minute(t) == m
  {
    var t := Pad2(h) + ":" + Pad2(m);
    assert t[0] != ':' && t[1] != ':' && t[2] == ':';
    assert ColonIndex(t) == 2 by {
      assert t[1..][1..] == t[2..];
    }
    assert HourField(t) == Pad2(h);
    assert MinuteField(t) == Pad2(m);
  }

  /** Division by a minute or an hour is determined by any quotient and in-range remainder. */
  lemma DivModMinute(x: int, q: int, r: int)
    requires 0 <= r < 60 && x == q * 60 + r
    ensures x / 60 == q && x % 60 == r
  {
  }

  lemma DivModHour(x: int, q: int, r: int)
    requires 0 <= r < 3600 && x == q * 3600 + r
    ensures x / 3600 == q && x % 3600 == r
  {
  }

  /** Seconds `s` as hours `h`, minutes `m` and sub-minute seconds `sec`. */
  lemma ClockParts(s: nat) returns (h: nat, m: nat, sec: nat)
    ensures m < 60 && sec < 60 && s == h * SecondsPerHour + m * SecondsPerMinute + sec
    ensures s / SecondsPerHour == h && s % SecondsPerHour / SecondsPerMinute == m && s % SecondsPerMinute == sec
    ensures (s - sec) / SecondsPerHour == h && (s - sec) % SecondsPerHour / SecondsPerMinute == m
  {
    sec := s % 60;
    var q := s / 60;
    h := q / 60;
    m := q % 60;
    assert s == q * 60 + sec;
    assert q == h * 60 + m;
    assert s == h * 3600 + (m * 60 + sec);
    DivModHour(s, h, m * 60 + sec);
    DivModMinute(m * 60 + sec, m, sec);
    DivModHour(s - sec, h, m * 60);
    DivModMinute(m * 60, m, 0);
  }

  /** A time of day is its hours and minutes in seconds plus its sub-minute seconds. */
  lemma SplitSeconds(s: nat)
    requires s < SecondsPerDay
    ensures s / SecondsPerHour <= 23 && s % SecondsPerHour / SecondsPerMinute <= 59
    ensures s / SecondsPerHour * SecondsPerHour + s % SecondsPerHour / SecondsPerMinute * SecondsPerMinute
      == s - s % SecondsPerMinute
  {
    var h, m, sec := ClockParts(s);
  }

  /**
   A time written with two digits for the hour and two for the minute is
   exactly what `seconds_to_time` makes of its seconds.
   */
  lemma PaddedRoundTrip(t: string)
    requires ValidTime(t) && |t| == 5
    ensures SecondsToTime(TimeToSeconds(t)) == t
  {
    var k := ColonIndex(t);
    assert k == 2;
    var hf := HourField(t);
    var mf := MinuteField(t);
    assert |hf| == 2 && |mf| == 2;
    DigitRoundTrip(hf[0]);
    DigitRoundTrip(hf[1]);
    DigitRoundTrip(mf[0]);
    DigitRoundTrip(mf[1]);
    assert Pad2(Hour(t)) == hf;
    assert Pad2(Minute(t)) == mf;
    assert t == hf + ":" + mf;
  }

  /** Seconds within the same minute format the same. */
  lemma SubMinuteIgnored(s: nat)
    ensures SecondsToTime(s) == SecondsToTime(s - s % SecondsPerMinute)
  {
    var h, m, sec := ClockParts(s);
  }
}
