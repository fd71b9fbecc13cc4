/** Zero-padded `"HH:MM"` wall-clock labels, the form in which the
    timesheet stores surgery times and names its grid slots. The page
    compares such labels with the string operators `===` and `<`; this
    module shows that on well-formed labels those comparisons agree with
    comparing minutes since midnight. */
module ClockTime {

  import opened JsText

  /** Five characters: two hour digits below 24, a colon, two minute digits
      below 60. */
  predicate IsClockLabel(s: string) {
    && |s| == 5
    && IsDigit(s[0]) && IsDigit(s[1]) && s[2] == ':' && IsDigit(s[3]) && IsDigit(s[4])
    && 10 * DigitValue(s[0]) + DigitValue(s[1]) < 24
    && 10 * DigitValue(s[3]) + DigitValue(s[4]) < 60
  }

  /** Minutes since midnight that a label names. */
  function MinutesOfDay(s: string): (m: nat)
    requires IsClockLabel(s)
    ensures m < 24 * 60
  {
    60 * (10 * DigitValue(s[0]) + DigitValue(s[1])) + 10 * DigitValue(s[3]) + DigitValue(s[4])
  }

  /** The zero-padded label of a minute of the day. */
  function ClockLabel(m: nat): (s: string)
    requires m < 24 * 60
    ensures IsClockLabel(s) && MinutesOfDay(s) == m
  {
    var h, mm := m / 60, m % 60;
    [DigitChar(h / 10), DigitChar(h % 10), ':', DigitChar(mm / 10), DigitChar(mm % 10)]
  }

  /** The label of `hour`:`minute` spelled out digit by digit. */
  lemma ClockLabelDigits(hour: nat, minute: nat)
    requires hour < 24 && minute < 60
    ensures ClockLabel(60 * hour + minute) ==
      [DigitChar(hour / 10), DigitChar(hour % 10), ':', DigitChar(minute / 10), DigitChar(minute % 10)]
  {
    var m := 60 * hour + minute;
    assert m / 60 == hour && m % 60 == minute;
  }

  /** On two strings of length five, `<` is decided by the first of the five
      positions at which they differ. */
  lemma StringLessOfFive(a: string, b: string)
    requires |a| == 5 && |b| == 5
    ensures StringLess(a, b) ==
      if a[0] != b[0] then a[0] < b[0]
      else if a[1] != b[1] then a[1] < b[1]
      else if a[2] != b[2] then a[2] < b[2]
      else if a[3] != b[3] then a[3] < b[3]
      else a[4] < b[4]
  {
    var a1, b1 := a[1..], b[1..];
    var a2, b2 := a1[1..], b1[1..];
    var a3, b3 := a2[1..], b2[1..];
    var a4, b4 := a3[1..], b3[1..];
    assert a1[0] == a[1] && a2[0] == a[2] && a3[0] == a[3] && a4[0] == a[4];
    assert b1[0] == b[1] && b2[0] == b[2] && b3[0] == b[3] && b4[0] == b[4];
    assert StringLess(a4, b4) == (a4[0] < b4[0]) by {
      assert |a4[1..]| == 0 && |b4[1..]| == 0;
    }
    assert StringLess(a3, b3) == if a3[0] != b3[0] then a3[0] < b3[0] else StringLess(a4, b4);
    assert StringLess(a2, b2) == if a2[0] != b2[0] then a2[0] < b2[0] else StringLess(a3, b3);
    assert StringLess(a1, b1) == if a1[0] != b1[0] then a1[0] < b1[0] else StringLess(a2, b2);
    assert StringLess(a, b) == if a[0] != b[0] then a[0] < b[0] else StringLess(a1, b1);
  }

  /** `a < b` on labels holds exactly when `a` is the earlier time of day. */
  lemma LessAgreesWithMinutes(a: string, b: string)
    requires IsClockLabel(a) && IsClockLabel(b)
    ensures StringLess(a, b) <==> MinutesOfDay(a) < MinutesOfDay(b)
  {
    StringLessOfFive(a, b);
  }

  /** `a === b` on labels holds exactly when they name the same time. */
  lemma EqualAgreesWithMinutes(a: string, b: string)
    requires IsClockLabel(a) && IsClockLabel(b)
    ensures a == b <==> MinutesOfDay(a) == MinutesOfDay(b)
  {
    if MinutesOfDay(a) == MinutesOfDay(b) {
      LessAgreesWithMinutes(a, b);
      LessAgreesWithMinutes(b, a);
      StringLessOfFive(a, b);
      StringLessOfFive(b, a);
      assert forall i :: 0 <= i < 5 ==> a[i] == b[i];
    }
  }

  /** Every label is the label of the minute it names. */
  lemma ClockLabelOfMinutes(s: string)
    requires IsClockLabel(s)
    ensures ClockLabel(MinutesOfDay(s)) == s
  {
    EqualAgreesWithMinutes(ClockLabel(MinutesOfDay(s)), s);
  }
}
