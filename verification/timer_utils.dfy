/** breakruptcy-client/src/utils/timer.ts: the display format of a bank's
    remaining time and the choice of the active and inactive bank. */
module TimerUtils {
  import opened TimerTypes
  import opened DecimalText
  import opened Wrappers

  /** `Math.ceil(ms / 1000)`: the fewest whole seconds that cover `ms`. */
  function CeilSeconds(ms: int): (t: int)
    ensures (t - 1) * 1000 < ms <= t * 1000
  {
    -((-ms) / 1000)
  }

  /** JavaScript's `a % d` for a positive divisor: what is left of `a` after
      taking out a multiple of `d`, with the sign of the dividend (truncating
      division), unlike Dafny's Euclidean `%`. */
  function JsRemainder(a: int, d: int): (r: int)
    requires d > 0
    ensures (a - r) % d == 0
    ensures a >= 0 ==> 0 <= r < d
    ensures a < 0 ==> -d < r <= 0
  {
    if a >= 0 then
      var q := a / d;
      assert a - a % d == q * d;
      MultipleHasNoRemainder(q, d);
      a % d
    else
      var q := (-a) / d;
      assert a - -((-a) % d) == (-q) * d;
      MultipleHasNoRemainder(-q, d);
      -((-a) % d)
  }

  /** A multiple of `d` leaves no remainder. */
  lemma MultipleHasNoRemainder(k: int, d: int)
    requires d > 0
    ensures (k * d) % d == 0
  {
    var x := k * d;
    var m := x / d;
    assert x == d * m + x % d;
    assert d * (k - m) == x % d by {
      assert d * (k - m) == d * k - d * m;
    }
    NonZeroMultipleIsLarge(k - m, d);
  }

  /** A non-zero multiple of `d` is at least `d` away from zero. */
  lemma NonZeroMultipleIsLarge(j: int, d: int)
    requires d > 0
    ensures j >= 1 ==> j * d >= d
    ensures j <= -1 ==> j * d <= -d
  {
    if j >= 1 {
      assert j * d == (j - 1) * d + d;
    } else if j <= -1 {
      assert j * d == (j + 1) * d - d;
    }
  }

  /** `formatTime`: whole seconds rounded up, shown as minutes and seconds
      each padded to at least two characters and joined by a colon. There is
      no hours field, so the minutes grow past 59. */
  function FormatTime(ms: int): (r: string)
    ensures |r| >= 5
  {
    var totalSeconds := CeilSeconds(ms);
    ClockText(totalSeconds / 60, JsRemainder(totalSeconds, 60))   // Math.floor(totalSeconds / 60), totalSeconds % 60
  }

  /** For a non-negative input the display reads back, through the reference
      parser `ParseClock`, as exactly the rounded-up number of seconds: the
      minutes field times 60 plus the two-digit seconds field. */
  lemma FormatTimeReadsBack(ms: int)
    requires ms >= 0
    ensures ParseClock(FormatTime(ms)) == Some(CeilSeconds(ms))
  {
    var totalSeconds := CeilSeconds(ms);
    MinutesAndSeconds(totalSeconds);
    ClockFieldsReadBack(FormatTime(ms), totalSeconds / 60, JsRemainder(totalSeconds, 60), totalSeconds);
  }

  /** Floor-dividing by 60 and taking JavaScript's remainder splits a
      non-negative count of seconds into whole minutes and leftover seconds. */
  lemma MinutesAndSeconds(t: int)
    requires t >= 0
    ensures t / 60 >= 0 && 0 <= JsRemainder(t, 60) < 60
    ensures (t / 60) * 60 + JsRemainder(t, 60) == t
  {
  }

  /** The `MM:SS` template literal of `formatTime`. */
  function ClockText(minutes: int, seconds: int): (r: string)
    ensures |r| >= 5
  {
    PaddedField(minutes) + ":" + PaddedField(seconds)
  }

  /** `n.toString().padStart(2, "0")`: a non-negative field is its digits,
      zero-padded to at least two characters. */
  function PaddedField(n: int): (r: string)
    ensures |r| >= 2
    ensures n >= 0 ==> AllDigits(r) && ParseDecimal(r) == n
    ensures 0 <= n < 100 ==> |r| == 2
    ensures n >= 0 && |r| > 2 ==> r[0] != '0'
    ensures n < 0 ==> r[0] == '-' && AllDigits(r[1..]) && ParseDecimal(r[1..]) == -n
    ensures n < 0 && |r| > 2 ==> r[1] != '0'
  {
    var digits := IntToString(n);
    if n >= 0 then PadStartKeepsValue(digits, 2); PadStart(digits, 2, '0')
    else PadStart(digits, 2, '0')
  }

  /** The minutes of the display: at least two digits, with a leading zero
      only when there are exactly two. */
  predicate IsMinuteField(s: string)
  {
    |s| >= 2 && AllDigits(s) && (|s| == 2 || s[0] != '0')
  }

  /** Reference reader for the `M…M:SS` display: a minute field, a colon, and
      exactly two second digits below 60; yields the total seconds. */
  function ParseClock(s: string): (t: Option<int>)
  {
    if |s| < 5 || s[|s| - 3] != ':' then None
    else
      var minutes := s[..|s| - 3];
      var seconds := s[|s| - 2..];
      if IsMinuteField(minutes) && AllDigits(seconds) && ParseDecimal(seconds) < 60
      then Some(ParseDecimal(minutes) * 60 + ParseDecimal(seconds))
      else None
  }

  /** A colon-joined text splits back into the two parts it was joined from. */
  lemma SplitAtColon(r: string, mm: string, ss: string)
    requires r == mm + ":" + ss && |ss| == 2
    ensures |r| == |mm| + 3 && r[|r| - 3] == ':'
    ensures r[..|r| - 3] == mm && r[|r| - 2..] == ss
  {
    assert r[..|mm|] == mm && r[|mm| + 1..] == ss;
  }

  /** A minute field, a colon and two digits below 60 read back as the
      total seconds they denote. */
  lemma ClockReadsDigits(r: string, mm: string, ss: string, total: int)
    requires r == mm + ":" + ss
    requires IsMinuteField(mm)
    requires |ss| == 2 && AllDigits(ss) && ParseDecimal(ss) < 60
    requires total == ParseDecimal(mm) * 60 + ParseDecimal(ss)
    ensures ParseClock(r) == Some(total)
  {
    SplitAtColon(r, mm, ss);
  }

  /** The two padded fields of the display read back as the minutes and
      seconds they were rendered from. */
  lemma ClockFieldsReadBack(r: string, minutes: nat, seconds: nat, total: int)
    requires seconds < 60 && total == minutes * 60 + seconds
    requires r == ClockText(minutes, seconds)
    ensures ParseClock(r) == Some(total)
  {
    var mm := PaddedField(minutes);
    var ss := PaddedField(seconds);
    assert r == mm + ":" + ss;
    ClockReadsDigits(r, mm, ss, total);
  }

  /** For whole seconds `t >= 0` the display is the rounded-up count read
      back; in particular two inputs show the same text exactly when they
      round up to the same number of seconds. */
  lemma FormatTimeDistinguishesSeconds(a: int, b: int)
    requires a >= 0 && b >= 0
    ensures FormatTime(a) == FormatTime(b) <==> CeilSeconds(a) == CeilSeconds(b)
  {
    FormatTimeReadsBack(a);
    FormatTimeReadsBack(b);
    if CeilSeconds(a) == CeilSeconds(b) {
      assert FormatTime(a) == ClockText(CeilSeconds(a) / 60, JsRemainder(CeilSeconds(a), 60));
    }
  }

  /** Rounding up: the display shows "00:00" for a non-negative input only
      when no time at all remains. */
  lemma {:induction false} FormatTimeZeroOnlyAtZero(ms: int)
    requires ms >= 0
    ensures FormatTime(ms) == "00:00" <==> ms == 0
  {
    if ms == 0 {
      ZeroDisplay();
    } else {
      FormatTimeReadsBack(ms);
      ZeroTextReadsZero();
      DifferentReadings(FormatTime(ms), "00:00");
    }
  }

  lemma ZeroTextReadsZero()
    ensures ParseClock("00:00") == Some(0)
  {
    var zero := "00";
    assert AllDigits(zero) && ParseDecimal(zero) == 0;
    assert "00:00" == zero + ":" + zero;
    ClockReadsDigits("00:00", zero, zero, 0);
  }

  /** What a text that `ParseClock` accepts is made of. */
  lemma ClockParts(s: string) returns (mm: string, ss: string)
    requires ParseClock(s).Some?
    ensures s == mm + ":" + ss
    ensures IsMinuteField(mm) && |ss| == 2 && AllDigits(ss) && ParseDecimal(ss) < 60
    ensures ParseClock(s) == Some(ParseDecimal(mm) * 60 + ParseDecimal(ss))
  {
    mm := s[..|s| - 3];
    ss := s[|s| - 2..];
    assert s == mm + [s[|s| - 3]] + ss;
  }

  /** A minute field with more characters denotes more minutes. */
  lemma LongerFieldIsLarger(a: string, b: string)
    requires IsMinuteField(a) && IsMinuteField(b)
    ensures |a| > |b| ==> ParseDecimal(a) > ParseDecimal(b)
  {
    if |a| > |b| {
      DigitsBelowPow10(b);
      Pow10Monotone(|b|, |a| - 1);
      LeadingDigitBound(a);
    }
  }

  /** Each number of minutes has exactly one minute field. */
  lemma MinuteFieldsEqual(a: string, b: string)
    requires IsMinuteField(a) && IsMinuteField(b)
    requires ParseDecimal(a) == ParseDecimal(b)
    ensures a == b
  {
    LongerFieldIsLarger(a, b);
    LongerFieldIsLarger(b, a);
    SameLengthSameValue(a, b);
  }

  /** `ParseClock` accepts at most one text for each number of seconds. */
  lemma ParseClockInjective(a: string, b: string)
    requires ParseClock(a).Some? && ParseClock(a) == ParseClock(b)
    ensures a == b
  {
    var ma, sa := ClockParts(a);
    var mb, sb := ClockParts(b);
    MinutesSecondsUnique(ParseDecimal(ma), ParseDecimal(sa), ParseDecimal(mb), ParseDecimal(sb));
    MinuteFieldsEqual(ma, mb);
    SameLengthSameValue(sa, sb);
  }

  /** Whole minutes and leftover seconds below 60 are determined by the total. */
  lemma MinutesSecondsUnique(m1: int, s1: int, m2: int, s2: int)
    requires 0 <= s1 < 60 && 0 <= s2 < 60 && m1 * 60 + s1 == m2 * 60 + s2
    ensures m1 == m2 && s1 == s2
  {
  }

  /** The display is the only text that reads back as the rounded-up seconds:
      together with `FormatTimeReadsBack` this fixes `formatTime`'s text for
      every non-negative input, however many minutes it shows. */
  lemma FormatTimeIsTheOnlyReading(ms: int, text: string)
    requires ms >= 0 && ParseClock(text) == Some(CeilSeconds(ms))
    ensures text == FormatTime(ms)
  {
    FormatTimeReadsBack(ms);
    ParseClockInjective(text, FormatTime(ms));
  }

  lemma DifferentReadings(a: string, b: string)
    requires ParseClock(a) != ParseClock(b)
    ensures a != b
  {
  }

  /** An empty bank shows as zero minutes and zero seconds. */
  lemma ZeroDisplay()
    ensures FormatTime(0) == "00:00"
  {
    DisplaySplit(0, 0, 0);
    ZeroClock();
  }

  /** Any part of the first second shows as one second. */
  lemma FormatTimeFirstSecond(ms: int)
    requires 1 <= ms <= 1000
    ensures FormatTime(ms) == "00:01"
  {
    DisplaySplit(ms, 0, 1);
    OneSecondClock();
  }

  /** Minutes are not folded into hours: an hour, a minute and a second
      show as 61 minutes. */
  lemma FormatTimeNoHours()
    ensures FormatTime(3661000) == "61:01"
  {
    DisplaySplit(3661000, 61, 1);
    HourAndMinuteClock();
  }

  /** One minute and one second: the minutes are zero-padded too. */
  lemma FormatTimeOneMinute()
    ensures FormatTime(61000) == "01:01"
  {
    DisplaySplit(61000, 1, 1);
    OneMinuteClock();
  }

  lemma ZeroClock()
    ensures ClockText(0, 0) == "00:00"
  {
    FieldText(0);
    ClockOf(0, 0, "00", "00", "00:00");
  }

  lemma OneSecondClock()
    ensures ClockText(0, 1) == "00:01"
  {
    FieldText(0);
    FieldText(1);
    ClockOf(0, 1, "00", "01", "00:01");
  }

  lemma HourAndMinuteClock()
    ensures ClockText(61, 1) == "61:01"
  {
    FieldText(61);
    FieldText(1);
    ClockOf(61, 1, "61", "01", "61:01");
  }

  lemma OneMinuteClock()
    ensures ClockText(1, 1) == "01:01"
  {
    FieldText(1);
    ClockOf(1, 1, "01", "01", "01:01");
  }

  /** The display of `ms` is the clock text of the given minutes and seconds
      once the rounded-up seconds split into them. */
  lemma DisplaySplit(ms: int, minutes: int, seconds: int)
    requires 0 <= seconds < 60 && (minutes * 60 + seconds - 1) * 1000 < ms <= (minutes * 60 + seconds) * 1000
    requires minutes >= 0
    ensures FormatTime(ms) == ClockText(minutes, seconds)
  {
    var t := CeilSeconds(ms);
    assert t == minutes * 60 + seconds;
    assert t / 60 == minutes && JsRemainder(t, 60) == seconds;
  }

  /** Once the two padded fields are known, so is the clock text. */
  lemma ClockOf(minutes: int, seconds: int, mm: string, ss: string, text: string)
    requires PaddedField(minutes) == mm && PaddedField(seconds) == ss
    requires text == mm + ":" + ss
    ensures ClockText(minutes, seconds) == text
  {
  }

  /** The two-character text of a few field values. */
  lemma FieldText(n: int)
    requires n == 0 || n == 1 || n == 61
    ensures n == 0 ==> PaddedField(n) == "00"
    ensures n == 1 ==> PaddedField(n) == "01"
    ensures n == 61 ==> PaddedField(n) == "61"
  {
    if n == 61 {
      assert NatToString(6) == "6";
      assert NatToString(61) == NatToString(6) + ['1'];
    } else {
      assert NatToString(n) == [DigitChar(n)];
    }
  }

  /** `getActiveBank`: "bank1" exactly when bank 1's flag is set, and "bank2"
      in every other case, even when both flags agree. */
  function GetActiveBank(s: TimerState): (k: BankKey)
    ensures k == Bank1 <==> s.bank1.isActive
  {
    if s.bank1.isActive then Bank1 else Bank2
  }

  /** `getInactiveBank`: always the key `getActiveBank` does not return. */
  function GetInactiveBank(s: TimerState): (k: BankKey)
    ensures k == Other(GetActiveBank(s))
  {
    if s.bank1.isActive then Bank2 else Bank1
  }

  /** The two keys name the active and the inactive bank exactly when the
      banks are mutually exclusive. */
  lemma ActiveKeyNamesActiveBank(s: TimerState)
    ensures ExactlyOneActive(s) <==>
      BankOf(s, GetActiveBank(s)).isActive && !BankOf(s, GetInactiveBank(s)).isActive
  {
  }
}
