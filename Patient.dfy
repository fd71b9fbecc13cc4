/** The patient page's two computations: the countdown to the surgery and
    the colour of the surgery's status. Timestamps are integer milliseconds;
    the current time, which the page reads from the clock, is a parameter. */
module Patient {

  import opened Wrappers
  import opened JsText

  const MsPerMinute: int := 60_000       // 1000 * 60
  const MsPerHour: int := 3_600_000      // 1000 * 60 * 60
  const MsPerDay: int := 86_400_000      // 1000 * 60 * 60 * 24

  lemma DivBounds(a: int, b: int)
    requires b > 0
    ensures b * (a / b) <= a < b * (a / b) + b
  {
  }

  lemma MulMonotone(b: int, x: int, y: int)
    requires b > 0 && x <= y
    ensures b * x <= b * y
  {
  }

  lemma MulNegate(b: int, x: int)
    ensures b * (-x) == -(b * x)
  {
  }

  /** Euclidean division of a non-negative dividend, with the product
      negated as the truncated quotient of its negation needs it. */
  lemma QuotientBounds(x: int, b: int)
    requires x >= 0 && b > 0
    ensures 0 <= b * (x / b) <= x < b * (x / b) + b
    ensures b * (-(x / b)) == -(b * (x / b))
  {
    DivBounds(x, b);
    MulMonotone(b, 0, x / b);
    MulNegate(b, x / b);
  }

  /** A quotient and remainder in range are the Euclidean ones. */
  lemma DivModUnique(a: int, b: int, q: int, r: int)
    requires b > 0 && a == b * q + r && 0 <= r < b
    ensures a / b == q && a % b == r
  {
    var q', r' := a / b, a % b;
    assert b * q' + r' == a;
    if q' < q {
      MulMonotone(b, q' + 1, q);
    } else if q' > q {
      MulMonotone(b, q + 1, q');
    }
  }

  /** `Math.floor(a / b)` for a positive divisor: the largest `q` with
      `b * q <= a`. */
  function FloorDiv(a: int, b: int): (q: int)
    requires b > 0
    ensures b * q <= a < b * q + b
  {
    DivBounds(a, b);
    a / b
  }

  /** The quotient JavaScript's `%` pairs with: `a / b` rounded toward zero. */
  function TruncDiv(a: int, b: int): (q: int)
    requires b > 0
    ensures a >= 0 ==> 0 <= b * q <= a < b * q + b
    ensures a < 0 ==> b * q - b < a <= b * q <= 0
  {
    if a >= 0 then
      QuotientBounds(a, b);
      a / b
    else
      QuotientBounds(-a, b);
      -((-a) / b)
  }

  /** JavaScript's `a % b`: the remainder of the truncated division, whose
      sign follows the dividend. */
  function TruncRem(a: int, b: int): (r: int)
    requires b > 0
    ensures a >= 0 ==> 0 <= r < b
    ensures a < 0 ==> -b < r <= 0
    ensures (a - r) % b == 0
  {
    var q := TruncDiv(a, b);
    DivModUnique(b * q, b, q, 0);
    a - b * q
  }

  /** JavaScript's `%` agrees with Euclidean `%` on a non-negative dividend
      and is its negation mirrored on a negative one. */
  lemma TruncRemEuclidean(a: int, b: int)
    requires b > 0
    ensures TruncRem(a, b) == if a >= 0 then a % b else -((-a) % b)
  {
    if a >= 0 {
      DivModUnique(a, b, a / b, a - b * (a / b));
    } else {
      DivBounds(-a, b);
      MulNegate(b, (-a) / b);
      DivModUnique(-a, b, (-a) / b, -a - b * ((-a) / b));
    }
  }

  datatype Countdown = Countdown(days: int, hours: int, minutes: int)

  /** `calculateTimeUntil` before formatting: whole days, then the hours and
      the minutes of what the day and the hour leave, each floored. */
  function TimeUntil(target: int, now: int): (c: Countdown)
    ensures MsPerDay * c.days <= target - now < MsPerDay * c.days + MsPerDay
    ensures c.days < 0 <==> target < now
    ensures target >= now ==> 0 <= c.hours < 24 && 0 <= c.minutes < 60
    ensures target < now ==> -24 <= c.hours <= 0 && -60 <= c.minutes <= 0
  {
    var diff := target - now;
    Countdown(
      FloorDiv(diff, MsPerDay),
      FloorDiv(TruncRem(diff, MsPerDay), MsPerHour),
      FloorDiv(TruncRem(diff, MsPerHour), MsPerMinute))
  }

  /** The template `${days}d ${hours}h ${minutes}m`. */
  function FormatCountdown(c: Countdown): string {
    IntToString(c.days) + "d " + IntToString(c.hours) + "h " + IntToString(c.minutes) + "m"
  }

  /** `calculateTimeUntil` with the clock read replaced by `now`. The text
      starts with a minus sign exactly when the target is in the past. */
  function CalculateTimeUntil(target: int, now: int): (s: string)
    ensures |s| > 0 && (s[0] == '-' <==> target < now)
  {
    FormatCountdown(TimeUntil(target, now))
  }

  /** For a target not in the past: hours below 24, minutes below 60, and
      together the countdown is the whole number of minutes to go; seconds
      and milliseconds are dropped. */
  lemma CountdownAhead(target: int, now: int)
    requires target >= now
    ensures var c := TimeUntil(target, now);
      && 0 <= c.days
      && 0 <= c.hours < 24
      && 0 <= c.minutes < 60
      && c.days * 1440 + c.hours * 60 + c.minutes == FloorDiv(target - now, MsPerMinute)
  {
    var diff := target - now;
    var c := TimeUntil(target, now);
    assert MsPerDay == 86_400_000 && MsPerHour == 3_600_000 && MsPerMinute == 60_000;
    var d, r := diff / 86_400_000, diff % 86_400_000;
    var h, s := r / 3_600_000, r % 3_600_000;
    var m, t := s / 60_000, s % 60_000;
    TruncRemEuclidean(diff, MsPerDay);
    TruncRemEuclidean(diff, MsPerHour);
    DivModUnique(diff, 3_600_000, 24 * d + h, s);
    assert c == Countdown(d, h, m);
    DivModUnique(diff, 60_000, d * 1440 + h * 60 + m, t);
  }

  /** `Math.floor(-x / b)` is minus the ceiling of `x / b`. */
  lemma FloorOfNegated(x: int, b: int)
    requires x >= 0 && b > 0
    ensures FloorDiv(-x, b) == -((x + b - 1) / b)
  {
    var q := FloorDiv(-x, b);
    var c := (x + b - 1) / b;
    DivBounds(x + b - 1, b);
    MulNegate(b, q);
    if -q < c {
      MulMonotone(b, -q, c - 1);
    } else if -q > c {
      MulMonotone(b, c + 1, -q);
    }
  }

  /** A target in the past is not clamped to zero: every component is minus
      the ceiling of the corresponding part of the time elapsed since it,
      so days are negative and hours and minutes are zero or negative. */
  lemma CountdownPast(target: int, now: int)
    requires target < now
    ensures var c := TimeUntil(target, now);
      var late := now - target;
      && c.days == -((late + MsPerDay - 1) / MsPerDay)
      && c.hours == -((late % MsPerDay + MsPerHour - 1) / MsPerHour)
      && c.minutes == -((late % MsPerHour + MsPerMinute - 1) / MsPerMinute)
      && c.days < 0
      && -24 <= c.hours <= 0
      && -60 <= c.minutes <= 0
  {
    var late := now - target;
    FloorOfNegated(late, MsPerDay);
    TruncRemEuclidean(-late, MsPerDay);
    FloorOfNegated(late % MsPerDay, MsPerHour);
    TruncRemEuclidean(-late, MsPerHour);
    FloorOfNegated(late % MsPerHour, MsPerMinute);
  }

  /** One millisecond late reads as minus one of everything. */
  lemma CountdownOneMillisecondLate(now: int)
    ensures CalculateTimeUntil(now - 1, now) == "-1d -1h -1m"
  {
    CountdownPast(now - 1, now);
    assert NatToString(1) == "1";
  }

  /** Two and a half hours ahead on the same day, as from 12:00 to 14:30,
      reads "0d 2h 30m". */
  lemma CountdownSameDayExample(midnight: int)
    ensures CalculateTimeUntil(midnight + 14 * MsPerHour + 30 * MsPerMinute, midnight + 12 * MsPerHour)
      == "0d 2h 30m"
  {
    var c := TimeUntil(midnight + 14 * MsPerHour + 30 * MsPerMinute, midnight + 12 * MsPerHour);
    assert c == Countdown(0, 2, 30);
    assert NatToString(30) == "30" by {
      assert NatToString(3) == "3";
    }
  }

  // The page has no parser; the reader below exists only to state that the
  // countdown text can be read back.

  /** Removes `lit` from the front of `s`, if it is there. */
  function Expect(lit: string, s: string): Option<string> {
    if |lit| <= |s| && s[..|lit|] == lit then Some(s[|lit|..]) else None
  }

  /** Reads an integer followed by the unit text `unit`; yields the integer
      and what follows the unit. */
  function ReadField(s: string, unit: string): Option<(int, string)> {
    match ReadInt(s)
    case None => None
    case Some((value, rest)) =>
      match Expect(unit, rest)
      case None => None
      case Some(after) => Some((value, after))
  }

  /** Reads a countdown in the form the page writes it. */
  function ParseCountdown(s: string): Option<Countdown> {
    match ReadField(s, "d ")
    case None => None
    case Some((days, r1)) =>
      match ReadField(r1, "h ")
      case None => None
      case Some((hours, r2)) =>
        match ReadField(r2, "m")
        case None => None
        case Some((minutes, r3)) =>
          if r3 == [] then Some(Countdown(days, hours, minutes)) else None
  }

  lemma ReadFieldOf(i: int, unit: string, rest: string)
    requires |unit| > 0 && !IsDigit(unit[0])
    ensures ReadField(IntToString(i) + unit + rest, unit) == Some((i, rest))
  {
    var tail := unit + rest;
    assert IntToString(i) + unit + rest == IntToString(i) + tail;
    ReadIntToString(i, tail);
    assert tail[..|unit|] == unit && tail[|unit|..] == rest;
  }

  /** The countdown text is unambiguous: reading it back yields the three
      components that were written. */
  lemma ParseFormatCountdown(c: Countdown)
    ensures ParseCountdown(FormatCountdown(c)) == Some(c)
  {
    var d, h, m := IntToString(c.days), IntToString(c.hours), IntToString(c.minutes);
    var r2: string := m + "m";
    var r1 := h + "h " + r2;
    assert FormatCountdown(c) == d + "d " + r1;
    ReadFieldOf(c.days, "d ", r1);
    ReadFieldOf(c.hours, "h ", r2);
    ReadFieldOf(c.minutes, "m", []);
    assert m + "m" + [] == r2;
  }

  /** `getStatusColor`: yellow for "delayed", red for "cancelled", green for
      "on-time" and for every other string. */
  function GetStatusColor(status: string): (color: string)
    ensures color == "text-yellow-600" <==> status == "delayed"
    ensures color == "text-red-600" <==> status == "cancelled"
    ensures color == "text-green-600" <==> status != "delayed" && status != "cancelled"
  {
    match status
    case "on-time" => "text-green-600"
    case "delayed" => "text-yellow-600"
    case "cancelled" => "text-red-600"
    case _ => "text-green-600"
  }
}
