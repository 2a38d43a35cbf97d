/**
 Refresh-token lifetimes. A configured lifetime such as "15m", "12h" or "30d"
 (decimal digits followed by one unit letter: minutes, hours or days) becomes a
 number of milliseconds; any other text falls back to thirty days.
 */
module RefreshDuration {
  import opened Options

  const MinuteMs: nat := 60 * 1000
  const HourMs: nat := 60 * 60 * 1000
  const DayMs: nat := 24 * 60 * 60 * 1000

  /** Lifetime used when the setting is malformed: thirty days. */
  const FallbackMs: nat := 30 * 24 * 60 * 60 * 1000

  /** Lifetime setting used when none is configured. */
  const DefaultSetting: string := "30d"

  /** ASCII decimal digits only: the pattern class `\d` without the Unicode flag. */
  predicate IsDigit(c: char) {
    '0' <= c <= '9'
  }

  predicate IsUnit(c: char) {
    c == 'm' || c == 'h' || c == 'd'
  }

  predicate AllDigits(s: string) {
    forall i :: 0 <= i < |s| ==> IsDigit(s[i])
  }

  /** The whole text has the shape `^\d+[mhd]$`: at least one digit, then exactly
      one unit letter, with nothing before or after (no sign, no blanks, no
      trailing newline). */
  predicate WellFormed(s: string) {
    |s| >= 2 && AllDigits(s[..|s| - 1]) && IsUnit(s[|s| - 1])
  }

  function DigitValue(c: char): (v: nat)
    requires IsDigit(c)
    ensures v < 10
  {
    (c as int) - ('0' as int)
  }

  /** The value of a run of decimal digits; leading zeros are allowed. */
  function Decimal(s: string): nat
    requires AllDigits(s)
  {
    if |s| == 0 then 0 else Decimal(s[..|s| - 1]) * 10 + DigitValue(s[|s| - 1])
  }

  /** Milliseconds in one unit. */
  function UnitMs(u: char): nat
    requires IsUnit(u)
  {
    if u == 'm' then MinuteMs else if u == 'h' then HourMs else DayMs
  }

  /** The length of the run of digits that starts at position i. */
  function DigitRun(s: string, i: nat): (n: nat)
    requires i <= |s|
    ensures i + n <= |s|
    ensures forall k :: i <= k < i + n ==> IsDigit(s[k])
    ensures i + n < |s| ==> !IsDigit(s[i + n])
    decreases |s| - i
  {
    if i < |s| && IsDigit(s[i]) then 1 + DigitRun(s, i + 1) else 0
  }

  /** A run of digits ends at the first non-digit. */
  lemma {:induction false} DigitRunEndsAt(s: string, i: nat, j: nat)
    requires i <= j < |s|
    requires forall k :: i <= k < j ==> IsDigit(s[k])
    requires !IsDigit(s[j])
    ensures DigitRun(s, i) == j - i
    decreases j - i
  {
    if i < j {
      DigitRunEndsAt(s, i + 1, j);
    }
  }

  lemma DigitRunOfWellFormed(s: string)
    ensures WellFormed(s) ==> DigitRun(s, 0) == |s| - 1
  {
    if WellFormed(s) {
      assert forall k :: 0 <= k < |s| - 1 ==> s[k] == s[..|s| - 1][k];
      DigitRunEndsAt(s, 0, |s| - 1);
    }
  }

  /** The two capture groups of a successful match. */
  datatype Groups = Groups(digits: string, unit: char)

  /** Matching the lifetime pattern: the groups are present exactly when the
      text is well formed, and together they spell the whole text. */
  function MatchPattern(s: string): (m: Option<Groups>)
    ensures m.Some? <==> WellFormed(s)
    ensures m.Some? ==> AllDigits(m.value.digits) && IsUnit(m.value.unit)
                        && m.value.digits + [m.value.unit] == s
  {
    var n := DigitRun(s, 0);
    DigitRunOfWellFormed(s);
    if 1 <= n && n + 1 == |s| && IsUnit(s[n]) then
      assert s[..n] + [s[n]] == s;
      Some(Groups(s[..n], s[n]))
    else
      None
  }

  /** Lifetime in milliseconds of a configured setting. */
  function DurationToMs(s: string): (ms: nat)
    ensures !WellFormed(s) ==> ms == FallbackMs
    ensures WellFormed(s) ==> ms == Decimal(s[..|s| - 1]) * UnitMs(s[|s| - 1])
  {
    match MatchPattern(s)
    case None => FallbackMs
    case Some(g) =>
      assert g.digits == s[..|s| - 1] && g.unit == s[|s| - 1];
      var value := Decimal(g.digits);
      if g.unit == 'm' then value * MinuteMs
      else if g.unit == 'h' then value * HourMs
      else value * DayMs
  }

  /** The shortest decimal spelling of n. */
  function DecimalDigits(n: nat): string
  {
    if n < 10 then [('0' as int + n) as char]
    else DecimalDigits(n / 10) + [('0' as int + n % 10) as char]
  }

  /** Writing a number out in decimal and reading it back gives the number. */
  lemma {:induction false} DecimalRoundTrip(n: nat)
    ensures |DecimalDigits(n)| >= 1
    ensures AllDigits(DecimalDigits(n))
    ensures Decimal(DecimalDigits(n)) == n
  {
    var d := DecimalDigits(n);
    if n >= 10 {
      DecimalRoundTrip(n / 10);
      assert d[..|d| - 1] == DecimalDigits(n / 10);
    }
  }

  /** A lifetime setting written as a count and a unit letter. */
  function Setting(count: nat, unit: char): string
    requires IsUnit(unit)
  {
    DecimalDigits(count) + [unit]
  }

  /** Every count written with a unit letter is read back as that many minutes,
      hours or days. */
  lemma SettingRoundTrip(count: nat, unit: char)
    requires IsUnit(unit)
    ensures WellFormed(Setting(count, unit))
    ensures unit == 'm' ==> DurationToMs(Setting(count, unit)) == count * 60000
    ensures unit == 'h' ==> DurationToMs(Setting(count, unit)) == count * 3600000
    ensures unit == 'd' ==> DurationToMs(Setting(count, unit)) == count * 86400000
  {
    var s := Setting(count, unit);
    DecimalRoundTrip(count);
    assert s[..|s| - 1] == DecimalDigits(count);
  }

  /** The unconfigured default, thirty days, is exactly the malformed fallback. */
  lemma DefaultIsFallback()
    ensures DurationToMs(DefaultSetting) == FallbackMs == 2592000000
  {
    assert DefaultSetting[..2] == "30";
    assert "30"[..1] == "3";
    assert Decimal("30") == 30;
  }

  /** Texts that are not digits followed by a single unit letter: the empty
      text, a sign, blanks, another unit, trailing text. */
  lemma MalformedExamples()
    ensures DurationToMs("") == FallbackMs
    ensures DurationToMs("m") == FallbackMs
    ensures DurationToMs("-5m") == FallbackMs
    ensures DurationToMs("+5m") == FallbackMs
    ensures DurationToMs(" 5m") == FallbackMs
    ensures DurationToMs("5s") == FallbackMs
    ensures DurationToMs("5mm") == FallbackMs
    ensures DurationToMs("5m\n") == FallbackMs
  {
    assert !IsDigit('-') && !IsDigit('+') && !IsDigit(' ') && !IsUnit('s') && !IsUnit('\n');
    assert !IsDigit("5mm"[1]);
    assert !IsDigit("5m\n"[1]);
  }
}
