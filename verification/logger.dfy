/**
 * The diagnostic logger: the level filter, the `HH:MM:SS.mmm` timestamp
 * computed from the seconds and milliseconds since the Unix epoch (in UTC,
 * with no calendar), and the record line `[time] [LEVEL] message`. The
 * clock reading is a parameter; writing the line to the log file is not
 * part of this model.
 */
module Logger {
  import opened Wrappers

  /** The `log` crate's levels, most severe first. */
  datatype Level = Error | Warn | Info | Debug | Trace

  /** The level's place in the `log` crate's order: `Error` is the least, `Trace` the greatest. */
  function Rank(level: Level): (n: nat)
    ensures 1 <= n <= 5
  {
    match level
    case Error => 1
    case Warn => 2
    case Info => 3
    case Debug => 4
    case Trace => 5
  }

  /** `enabled`: `level <= Level::Info`. */
  function Enabled(level: Level): (b: bool)
    ensures b <==> level == Error || level == Warn || level == Info
  {
    Rank(level) <= Rank(Info)
  }

  /** The level as `Display` prints it. */
  function LevelName(level: Level): (s: string)
    ensures |s| == 4 || |s| == 5
  {
    match level
    case Error => "ERROR"
    case Warn => "WARN"
    case Info => "INFO"
    case Debug => "DEBUG"
    case Trace => "TRACE"
  }

  // ---------------------------------------------------------------------
  // Time of day.
  // ---------------------------------------------------------------------

  /** The seconds in a day. */
  const SecondsPerDay: nat := 86400

  /** A time of day. */
  datatype Clock = Clock(hours: nat, minutes: nat, seconds: nat)

  /** The fields are in range. */
  predicate ValidClock(c: Clock)
  {
    c.hours < 24 && c.minutes < 60 && c.seconds < 60
  }

  /** The second of the day the clock shows. */
  function SecondOfDay(c: Clock): nat
  {
    c.hours * 3600 + c.minutes * 60 + c.seconds
  }

  /**
   * The time-of-day part of `chrono_time`: the seconds since the epoch
   * taken modulo a day, split into hours, minutes and seconds. The fields
   * are in range and recombine to the second of the day.
   */
  function TimeOfDay(totalSecs: nat): (c: Clock)
    ensures ValidClock(c)
    ensures SecondOfDay(c) == totalSecs % SecondsPerDay
  {
    var secsToday := totalSecs % SecondsPerDay;
    Clock(secsToday / 3600, (secsToday % 3600) / 60, secsToday % 60)
  }

  /** A valid clock is determined by the second of the day it shows. */
  lemma ClockUnique(a: Clock, b: Clock)
    requires ValidClock(a) && ValidClock(b) && SecondOfDay(a) == SecondOfDay(b)
    ensures a == b
  {
    assert a.minutes * 60 + a.seconds < 3600;
    assert b.minutes * 60 + b.seconds < 3600;
    assert a.hours == b.hours;
    assert a.seconds < 60 && b.seconds < 60;
  }

  /** Hence the split is the only valid clock showing the second of the day. */
  lemma TimeOfDayUnique(totalSecs: nat, c: Clock)
    requires ValidClock(c) && SecondOfDay(c) == totalSecs % SecondsPerDay
    ensures TimeOfDay(totalSecs) == c
  {
    ClockUnique(TimeOfDay(totalSecs), c);
  }

  /** Whole days do not change the time of day. */
  lemma TimeOfDayPeriodic(totalSecs: nat, days: nat)
    ensures TimeOfDay(totalSecs + days * SecondsPerDay) == TimeOfDay(totalSecs)
  {
    assert (totalSecs + days * SecondsPerDay) % SecondsPerDay == totalSecs % SecondsPerDay;
  }

  // ---------------------------------------------------------------------
  // Zero-padded decimal numerals.
  // ---------------------------------------------------------------------

  /** The decimal digit of `d`. */
  function DigitChar(d: nat): char
    requires d < 10
  {
    "0123456789"[d]
  }

  /** The value of a decimal digit character. */
  function DigitValue(c: char): nat
  {
    if '0' <= c <= '9' then (c as int - '0' as int) as nat else 0
  }

  /** A string of decimal digits. */
  predicate AllDigits(s: string)
  {
    forall k :: 0 <= k < |s| ==> '0' <= s[k] <= '9'
  }

  /** The shortest decimal numeral of `n`, as `{}` prints it. */
  function Digits(n: nat): (s: string)
    ensures |s| > 0 && AllDigits(s)
    ensures n < 10 <==> |s| == 1
    ensures n < 100 ==> |s| <= 2
    ensures n < 1000 ==> |s| <= 3
    decreases n
  {
    if n < 10 then [DigitChar(n)] else Digits(n / 10) + [DigitChar(n % 10)]
  }

  /** The value of a decimal numeral, leading zeros allowed. */
  function ParseDigits(s: string): nat
    decreases |s|
  {
    if |s| == 0 then 0 else ParseDigits(s[..|s| - 1]) * 10 + DigitValue(s[|s| - 1])
  }

  /** Reading a numeral back gives the number. */
  lemma {:induction false} ParseDigitsOfDigits(n: nat)
    ensures ParseDigits(Digits(n)) == n
    decreases n
  {
    var s := Digits(n);
    if n >= 10 {
      ParseDigitsOfDigits(n / 10);
      assert s[..|s| - 1] == Digits(n / 10);
    }
  }

  /** A string of `k` zeros. */
  function Zeros(k: nat): (s: string)
    ensures |s| == k && AllDigits(s)
    ensures forall i :: 0 <= i < k ==> s[i] == '0'
  {
    if k == 0 then "" else "0" + Zeros(k - 1)
  }

  /** Leading zeros do not change the value. */
  lemma {:induction false} ParseDigitsLeadingZeros(k: nat, s: string)
    ensures ParseDigits(Zeros(k) + s) == ParseDigits(s)
    decreases k, |s|
  {
    if |s| == 0 {
      assert Zeros(k) + s == Zeros(k);
      ZerosParseToZero(k);
    } else {
      var t := s[..|s| - 1];
      ParseDigitsLeadingZeros(k, t);
      assert (Zeros(k) + s)[..|Zeros(k) + s| - 1] == Zeros(k) + t;
    }
  }

  /** Zeros read as zero. */
  lemma {:induction false} ZerosParseToZero(k: nat)
    ensures ParseDigits(Zeros(k)) == 0
  {
    if k > 0 {
      ZerosParseToZero(k - 1);
      var z := Zeros(k);
      assert z[..k - 1] == Zeros(k - 1) by {
        assert forall i :: 0 <= i < k - 1 ==> z[i] == '0';
      }
    }
  }

  /**
   * `{:0w}`: the numeral of `n`, left-padded with zeros to at least `w`
   * characters. It has exactly `w` characters when `n` fits in them, only
   * digits, and it reads back as `n`.
   */
  function Pad(n: nat, w: nat): (s: string)
    ensures |s| >= w && AllDigits(s)
    ensures |Digits(n)| <= w ==> |s| == w
    ensures ParseDigits(s) == n
  {
    var d := Digits(n);
    var z := if |d| < w then Zeros(w - |d|) else "";
    ParseDigitsOfDigits(n);
    ParseDigitsLeadingZeros(|z|, d);
    assert z == Zeros(|z|);
    z + d
  }

  /**
   * `chrono_time`: `HH:MM:SS.mmm` from the seconds since the epoch and the
   * milliseconds within the second. With fewer than a thousand
   * milliseconds, as the clock always gives, it is twelve characters with
   * the separators in place, and each field is zero-padded decimal digits
   * that read back as its part of the time.
   */
  function ChronoTime(totalSecs: nat, millis: nat): (s: string)
    ensures millis < 1000 ==> |s| == 12 && s[2] == ':' && s[5] == ':' && s[8] == '.'
    ensures millis < 1000 ==>
      var c := TimeOfDay(totalSecs);
      && ParseDigits(s[0..2]) == c.hours
      && ParseDigits(s[3..5]) == c.minutes
      && ParseDigits(s[6..8]) == c.seconds
      && ParseDigits(s[9..12]) == millis
    ensures millis < 1000 ==>
      AllDigits(s[0..2]) && AllDigits(s[3..5]) && AllDigits(s[6..8]) && AllDigits(s[9..12])
  {
    var c := TimeOfDay(totalSecs);
    var h, m, sec, ms := Pad(c.hours, 2), Pad(c.minutes, 2), Pad(c.seconds, 2), Pad(millis, 3);
    if millis < 1000 then
      TimestampFields(h, m, sec, ms);
      h + ":" + m + ":" + sec + "." + ms
    else
      h + ":" + m + ":" + sec + "." + ms
  }

  /** The fields of a timestamp assembled from two-, two-, two- and three-character parts sit at fixed offsets. */
  lemma TimestampFields(h: string, m: string, sec: string, ms: string)
    requires |h| == 2 && |m| == 2 && |sec| == 2 && |ms| == 3
    ensures var s := h + ":" + m + ":" + sec + "." + ms;
      && |s| == 12 && s[2] == ':' && s[5] == ':' && s[8] == '.'
      && s[0..2] == h && s[3..5] == m && s[6..8] == sec && s[9..12] == ms
  {
  }

  // ---------------------------------------------------------------------
  // Records.
  // ---------------------------------------------------------------------

  /**
   * `log`: nothing for a level the filter rejects; otherwise the line
   * `[time] [LEVEL] message` for the clock reading `(totalSecs, millis)`.
   */
  function Log(level: Level, message: string, totalSecs: nat, millis: nat): (r: Option<string>)
    ensures r.Some? <==> Enabled(level)
    ensures r.Some? && millis < 1000 ==> |r.value| == 18 + |LevelName(level)| + |message|
    ensures r.Some? && millis < 1000 ==>
      && r.value[..14] == "[" + ChronoTime(totalSecs, millis) + "]"
      && r.value[14..16 + |LevelName(level)|] == " [" + LevelName(level)
      && r.value[16 + |LevelName(level)|..] == "] " + message
  {
    if !Enabled(level) then None
    else
      var time := ChronoTime(totalSecs, millis);
      var line := "[" + time + "] [" + LevelName(level) + "] " + message;
      LineFields(time, LevelName(level), message);
      Some(line)
  }

  /** The parts of a record line sit at the offsets a timestamp of any length gives them. */
  lemma LineFields(time: string, name: string, message: string)
    ensures var line := "[" + time + "] [" + name + "] " + message;
      && |line| == |time| + |name| + |message| + 6
      && line[..|time| + 2] == "[" + time + "]"
      && line[|time| + 2..|time| + 4 + |name|] == " [" + name
      && line[|time| + 4 + |name|..] == "] " + message
  {
    var line := "[" + time + "] [" + name + "] " + message;
    assert line == ("[" + time + "]") + (" [" + name) + ("] " + message);
  }

  /** The message is the record line's tail, after the level's closing bracket and a space. */
  lemma LogKeepsMessage(level: Level, message: string, totalSecs: nat, millis: nat)
    requires Enabled(level) && millis < 1000
    ensures var line := Log(level, message, totalSecs, millis).value;
      |line| == 18 + |LevelName(level)| + |message| && line[|line| - |message|..] == message
  {
    var line := Log(level, message, totalSecs, millis).value;
    var n := 16 + |LevelName(level)|;
    assert line[n..] == "] " + message;
    assert line[|line| - |message|..] == line[n..][2..];
  }

  /** The worked example: 3661 seconds and 5 milliseconds past midnight read `01:01:01.005`. */
  lemma ChronoTimeExample()
    ensures TimeOfDay(86400 + 3661) == Clock(1, 1, 1)
    ensures ChronoTime(86400 + 3661, 5) == "01:01:01.005"
  {
    assert TimeOfDay(86400 + 3661) == Clock(1, 1, 1);
    PadExamples();
  }

  /** One padded to two places reads `01`; five padded to three reads `005`. */
  lemma PadExamples()
    ensures Pad(1, 2) == "01" && Pad(5, 3) == "005"
  {
    assert Digits(1) == "1" && Digits(5) == "5";
    assert Zeros(1) == "0" && Zeros(2) == "00";
  }
}
