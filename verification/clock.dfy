/** Times of day as printed by `strftime('%H:%M:%S')`.

    The extractor keeps its running clock as a date-time that starts on the
    day of the departure; only the hour, minute and second fields are ever
    printed, so a clock that runs past midnight prints as the time of day on
    the following day. Here the clock is a count of seconds since the
    departure day's midnight and printing reduces it modulo one day. */
module Clock {

  const SecondsPerDay: nat := 86400

  /** A time of day, as `strptime('%H:%M:%S')` can produce it. */
  type ClockTime = t: nat | t < SecondsPerDay

  predicate IsDigit(c: char) {
    '0' <= c <= '9'
  }

  function DigitChar(d: nat): (c: char)
    requires d < 10
    ensures IsDigit(c)
  {
    ('0' as int + d) as char
  }

  function DigitValue(c: char): (d: nat)
    requires IsDigit(c)
    ensures d < 10
  {
    c as int - '0' as int
  }

  /** Zero-padded two-digit rendering, as the `%H`, `%M` and `%S` directives print. */
  function TwoDigits(n: nat): (s: string)
    requires n < 100
    ensures |s| == 2 && IsDigit(s[0]) && IsDigit(s[1])
    ensures DigitValue(s[0]) * 10 + DigitValue(s[1]) == n
  {
    [DigitChar(n / 10), DigitChar(n % 10)]
  }

  /** The value of the two digits starting at position `i`. */
  function PairValue(s: string, i: nat): nat
    requires i + 2 <= |s| && IsDigit(s[i]) && IsDigit(s[i + 1])
  {
    DigitValue(s[i]) * 10 + DigitValue(s[i + 1])
  }

  /** `s` reads as a valid time of day in the form HH:MM:SS. */
  predicate IsClockString(s: string) {
    && |s| == 8
    && s[2] == ':' && s[5] == ':'
    && IsDigit(s[0]) && IsDigit(s[1])
    && IsDigit(s[3]) && IsDigit(s[4])
    && IsDigit(s[6]) && IsDigit(s[7])
    && PairValue(s, 0) < 24 && PairValue(s, 3) < 60 && PairValue(s, 6) < 60
  }

  /** The second of the day a clock string denotes (the reading direction). */
  function ClockValue(s: string): (t: nat)
    requires IsClockString(s)
    ensures t < SecondsPerDay
  {
    PairValue(s, 0) * 3600 + PairValue(s, 3) * 60 + PairValue(s, 6)
  }

  /** Prints a running clock: the result is always a valid time of day and it
      denotes the clock's value wrapped to one day. */
  function Format(t: nat): (s: string)
    ensures IsClockString(s)
    ensures ClockValue(s) == t % SecondsPerDay
  {
    var day := t % SecondsPerDay;
    TwoDigits(day / 3600) + ":" + TwoDigits(day % 3600 / 60) + ":" + TwoDigits(day % 60)
  }

  /** Two clocks print the same exactly when they agree modulo one day. */
  lemma {:induction false} FormatSameDay(t: nat, u: nat)
    ensures Format(t) == Format(u) <==> t % SecondsPerDay == u % SecondsPerDay
  {
    if Format(t) == Format(u) {
      assert ClockValue(Format(t)) == ClockValue(Format(u));
    }
  }
}
