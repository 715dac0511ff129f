/** The elapsed-time label of `group_info` (main.py:177-180): a duration is
    reduced to `timedelta.seconds // 3600` and printed with its plural form. */
module Elapsed {
  import opened Wrappers
  import opened Plural

  const SecondsPerHour: int := 3600
  const SecondsPerDay: int := 86400

  /** A Python `timedelta` as days plus seconds within the day; the
      microseconds field is not modelled. */
  datatype DeltaParts = DeltaParts(days: int, seconds: int)

  /** `timedelta` keeps `seconds` normalised into 0..86399 whatever the sign
      of the whole duration. */
  type Timedelta = d: DeltaParts | 0 <= d.seconds < SecondsPerDay
    witness DeltaParts(0, 0)

  /** The duration in seconds that a `timedelta` stands for. */
  function TotalSeconds(d: Timedelta): int
  {
    d.days * SecondsPerDay + d.seconds
  }

  /** `timedelta(seconds=total)`: normalisation by floor division, which is
      what Python does for negative durations too. */
  function FromSeconds(total: int): (d: Timedelta)
    ensures TotalSeconds(d) == total
  {
    DeltaParts(total / SecondsPerDay, total % SecondsPerDay)
  }

  /** Normalisation is the only representation: a `timedelta` rebuilt from
      its own total is the same value. */
  lemma FromTotalSecondsRoundTrip(d: Timedelta)
    ensures FromSeconds(TotalSeconds(d)) == d
  {
    var e := FromSeconds(TotalSeconds(d));
    assert e.days * SecondsPerDay + e.seconds == d.days * SecondsPerDay + d.seconds;
  }

  /** `delta.seconds // 3600`: the hour within the last day. */
  function HourOfDay(d: Timedelta): (h: nat)
    ensures h < 24
    ensures h * SecondsPerHour <= d.seconds < (h + 1) * SecondsPerHour
  {
    d.seconds / SecondsPerHour
  }

  /** Whole days are silently dropped: adding any number of days to the
      duration leaves the displayed hours unchanged. */
  lemma {:induction false} HourOfDayDropsDays(total: int, k: int)
    ensures HourOfDay(FromSeconds(total + k * SecondsPerDay)) == HourOfDay(FromSeconds(total))
  {
    var d := FromSeconds(total);
    var e := FromSeconds(total + k * SecondsPerDay);
    var shifted := DeltaParts(d.days + k, d.seconds);
    assert TotalSeconds(shifted) == total + k * SecondsPerDay;
    FromTotalSecondsRoundTrip(shifted);
    assert e == shifted;
  }

  /** For a duration of at least one day, the displayed hours are strictly
      fewer than the elapsed whole hours. */
  lemma DaysLostFromHours(d: Timedelta)
    requires d.days >= 1
    ensures HourOfDay(d) < TotalSeconds(d) / SecondsPerHour
  {
  }

  /** The decimal digit character for 0..9. */
  function DigitChar(v: nat): char
    requires v < 10
  {
    "0123456789"[v]
  }

  predicate IsDigit(c: char)
  {
    '0' <= c <= '9'
  }

  function DigitValue(c: char): nat
    requires IsDigit(c)
  {
    (c as int - '0' as int) as nat
  }

  /** `str(n)` for a non-negative integer. */
  function DecimalString(n: nat): (s: string)
    ensures |s| >= 1
    ensures forall i :: 0 <= i < |s| ==> IsDigit(s[i])
    ensures |s| > 1 ==> s[0] != '0'
  {
    if n < 10 then [DigitChar(n)] else DecimalString(n / 10) + [DigitChar(n % 10)]
  }

  /** Reads a run of decimal digits back into a number. */
  function ParseDecimal(s: string): nat
    requires forall i :: 0 <= i < |s| ==> IsDigit(s[i])
  {
    if s == [] then 0 else ParseDecimal(s[..|s| - 1]) * 10 + DigitValue(s[|s| - 1])
  }

  /** `str` loses nothing: the printed digits read back as the number. */
  lemma {:induction false} DecimalRoundTrip(n: nat)
    ensures ParseDecimal(DecimalString(n)) == n
  {
    var s := DecimalString(n);
    if n >= 10 {
      DecimalRoundTrip(n / 10);
      assert s[..|s| - 1] == DecimalString(n / 10);
    }
  }

  /** The title list `group_info` passes to `decl`. */
  const HourTitles: seq<string> := [" час", " часа", " часов"]

  /** `str(hours) + decl(hours, [...])` for one `timedelta`. */
  function HoursLabel(d: Timedelta): (text: string)
    ensures var h := HourOfDay(d); h == 1 || h == 21 ==> text == DecimalString(h) + " час"
    ensures var h := HourOfDay(d); 2 <= h <= 4 || 22 <= h ==> text == DecimalString(h) + " часа"
    ensures var h := HourOfDay(d); h == 0 || 5 <= h <= 20 ==> text == DecimalString(h) + " часов"
  {
    var h := HourOfDay(d);
    var digits := DecimalString(h);
    var title := Decl(h, HourTitles);
    digits + title.value
  }
}
