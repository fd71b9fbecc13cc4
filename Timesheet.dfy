/** The day timeline page: a fixed grid of quarter-hour slots from 07:00 to
    19:45, and for each slot the surgery, if any, that occupies it. Times
    are kept as the `"HH:MM"` strings the page stores and compared as
    strings, as the page does. */
module Timesheet {

  import opened Wrappers
  import opened JsText
  import opened ClockTime

  datatype SurgeryStatus = Scheduled | InProgress | Completed

  datatype Surgery = Surgery(
    id: string,
    title: string,
    startTime: string,
    endTime: string,
    status: SurgeryStatus)

  /** The page's fixed sample list. */
  const MockSurgeries: seq<Surgery> := [
    Surgery("1", "Appendectomy", "09:00", "10:30", Scheduled),
    Surgery("2", "Hip Replacement", "11:00", "13:00", InProgress),
    Surgery("3", "Cataract Surgery", "14:00", "15:00", Completed)
  ]

  /** The CSS classes a slot's button takes from its surgery's status. */
  function StatusColors(status: SurgeryStatus): string {
    match status
    case Scheduled => "bg-blue-100 text-blue-800 border-blue-200"
    case InProgress => "bg-yellow-100 text-yellow-800 border-yellow-200"
    case Completed => "bg-green-100 text-green-800 border-green-200"
  }

  /** Distinct statuses are drawn in distinct colours. */
  lemma StatusColorsDistinct(a: SurgeryStatus, b: SurgeryStatus)
    ensures StatusColors(a) == StatusColors(b) <==> a == b
  {
  }

  // ---------------------------------------------------------------- the grid

  /** The hours 7 through 19, one grid row each. */
  const Hours: seq<nat> := seq(13, i => i + 7)

  const QuarterMarks: seq<string> := ["00", "15", "30", "45"]

  /** The label of the slot at `hour`:`minute`, hour padded to two digits. */
  function SlotLabel(hour: nat, minute: string): (r: string)
    ensures hour < 100 ==> r == [DigitChar(hour / 10), DigitChar(hour % 10), ':'] + minute
  {
    var r := PadStart(NatToString(hour), 2, '0') + ":" + minute;
    assert hour < 100 ==> r == [DigitChar(hour / 10), DigitChar(hour % 10), ':'] + minute by {
      if hour < 100 {
        PaddedHour(hour);
      }
    }
    r
  }

  /** The rows of a nested `map`, rendered one after the other. */
  function Flatten(rows: seq<seq<string>>): seq<string> {
    if rows == [] then [] else rows[0] + Flatten(rows[1..])
  }

  /** The four slot labels of one hour. */
  function HourRow(hour: nat): seq<string> {
    seq(|QuarterMarks|, j requires 0 <= j < |QuarterMarks| => SlotLabel(hour, QuarterMarks[j]))
  }

  function HourRows(): seq<seq<string>> {
    var hours := Hours;
    seq(|hours|, i requires 0 <= i < |hours| => HourRow(hours[i]))
  }

  /** Every slot label in render order: each hour crossed with each quarter. */
  function Grid(): (g: seq<string>)
    ensures |g| == 52
  {
    FlattenRowsOfFour(HourRows());
    Flatten(HourRows())
  }

  lemma {:induction false} FlattenRowsOfFour(rows: seq<seq<string>>)
    requires forall i :: 0 <= i < |rows| ==> |rows[i]| == 4
    ensures |Flatten(rows)| == 4 * |rows|
    ensures forall k :: 0 <= k < 4 * |rows| ==> Flatten(rows)[k] == rows[k / 4][k % 4]
  {
    if rows != [] {
      FlattenRowsOfFour(rows[1..]);
      forall k | 4 <= k < 4 * |rows|
        ensures Flatten(rows)[k] == rows[k / 4][k % 4]
      {
        assert Flatten(rows)[k] == Flatten(rows[1..])[k - 4];
        assert (k - 4) / 4 + 1 == k / 4 && (k - 4) % 4 == k % 4;
      }
    }
  }

  /** A two-digit hour renders as its two digits; a one-digit hour gets a
      leading zero. */
  lemma PaddedHour(hour: nat)
    requires hour < 100
    ensures PadStart(NatToString(hour), 2, '0') == [DigitChar(hour / 10), DigitChar(hour % 10)]
  {
    var numeral := NatToString(hour);
    if hour < 10 {
      assert numeral == [DigitChar(hour)];
    } else {
      assert NatToString(hour / 10) == [DigitChar(hour / 10)];
      assert numeral == [DigitChar(hour / 10), DigitChar(hour % 10)];
    }
  }

  lemma QuarterMarkDigits(q: nat)
    requires q < 4
    ensures QuarterMarks[q] == [DigitChar(15 * q / 10), DigitChar(15 * q % 10)]
  {
  }

  lemma SlotLabelIsClockLabel(hour: nat, q: nat)
    requires 7 <= hour < 20 && q < 4
    ensures SlotLabel(hour, QuarterMarks[q]) == ClockLabel(60 * hour + 15 * q)
  {
    PaddedHour(hour);
    QuarterMarkDigits(q);
    ClockLabelDigits(hour, 15 * q);
  }

  /** The slot at index `k` is the zero-padded label of 07:00 plus `15 * k`
      minutes: row `k / 4` is the hour 7 + k / 4, column `k % 4` its quarter. */
  lemma GridAt(k: int)
    requires 0 <= k < 52
    ensures Grid()[k] == ClockLabel(420 + 15 * k)
  {
    var hour, q := 7 + k / 4, k % 4;
    assert 60 * hour + 15 * q == 420 + 15 * k;
    GridIndex(k);
    SlotLabelIsClockLabel(hour, q);
  }

  lemma GridIndex(k: int)
    requires 0 <= k < 52
    ensures Grid()[k] == SlotLabel(7 + k / 4, QuarterMarks[k % 4])
  {
    var rows := HourRows();
    FlattenRowsOfFour(rows);
    assert Grid()[k] == rows[k / 4][k % 4];
  }

  /** The grid has 52 slots, four per hour from 7 to 19, in steps of 15
      minutes from 07:00. */
  lemma GridSlots()
    ensures |Grid()| == 52
    ensures forall k :: 0 <= k < 52 ==> Grid()[k] == ClockLabel(420 + 15 * k)
  {
    forall k | 0 <= k < 52
      ensures Grid()[k] == ClockLabel(420 + 15 * k)
    {
      GridAt(k);
    }
  }

  /** The slot at index `k` is a well-formed label of 07:00 plus `15 * k`
      minutes. */
  lemma GridMinutes(k: int)
    requires 0 <= k < 52
    ensures IsClockLabel(Grid()[k]) && MinutesOfDay(Grid()[k]) == 420 + 15 * k
  {
    GridAt(k);
  }

  /** Every slot label is a well-formed five-character label, the hours 7 to
      9 padded with a leading zero. */
  lemma GridLabels()
    ensures |Grid()| == 52
    ensures forall k :: 0 <= k < 52 ==> IsClockLabel(Grid()[k]) && |Grid()[k]| == 5
    ensures forall k :: 0 <= k < 12 ==> Grid()[k][0] == '0'
  {
    forall k | 0 <= k < 52
      ensures IsClockLabel(Grid()[k]) && MinutesOfDay(Grid()[k]) == 420 + 15 * k
    {
      GridMinutes(k);
    }
    forall k | 0 <= k < 12 ensures Grid()[k][0] == '0' {
      assert DigitValue(Grid()[k][0]) == 0;
    }
  }

  /** The grid runs from "07:00" to "19:45". */
  lemma GridEnds()
    ensures |Grid()| == 52
    ensures Grid()[0] == "07:00" && Grid()[51] == "19:45"
  {
    assert Grid()[0] == "07:00" by {
      GridAt(0);
      ClockLabelDigits(7, 0);
      assert DigitChar(0) == '0' && DigitChar(7) == '7';
    }
    assert Grid()[51] == "19:45" by {
      GridAt(51);
      ClockLabelDigits(19, 45);
      assert DigitChar(1) == '1' && DigitChar(9) == '9' && DigitChar(4) == '4' && DigitChar(5) == '5';
    }
  }

  /** The slots are emitted in strictly ascending order under the string
      `<` the page compares them with. */
  lemma GridAscending()
    ensures |Grid()| == 52
    ensures forall i, j :: 0 <= i < j < 52 ==> StringLess(Grid()[i], Grid()[j])
  {
    forall i, j | 0 <= i < j < 52 ensures StringLess(Grid()[i], Grid()[j]) {
      GridMinutes(i);
      GridMinutes(j);
      LessAgreesWithMinutes(Grid()[i], Grid()[j]);
    }
  }

  // ----------------------------------------------------------- slot matching

  /** The slot predicate: the surgery starts at `time`, or started before it
      and ends after it; both comparisons are string comparisons. */
  predicate Occupies(s: Surgery, time: string): (r: bool)
    ensures StringLess(time, s.startTime) ==> !r
  {
    StringLessAsymmetric(s.startTime, time);
    s.startTime == time || (StringLess(s.startTime, time) && StringLess(time, s.endTime))
  }

  predicate FirstMatchAt(surgeries: seq<Surgery>, time: string, i: int) {
    && 0 <= i < |surgeries|
    && Occupies(surgeries[i], time)
    && forall j :: 0 <= j < i ==> !Occupies(surgeries[j], time)
  }

  /** `surgeries.find(...)` with the slot predicate: the first surgery in
      list order that occupies `time`, or nothing when none does. */
  function Find(surgeries: seq<Surgery>, time: string): (r: Option<Surgery>)
    ensures r.None? <==> forall i :: 0 <= i < |surgeries| ==> !Occupies(surgeries[i], time)
    ensures r.Some? ==> exists i :: FirstMatchAt(surgeries, time, i) && surgeries[i] == r.value
  {
    if surgeries == [] then None
    else if Occupies(surgeries[0], time) then
      assert FirstMatchAt(surgeries, time, 0);
      Some(surgeries[0])
    else
      var rest := surgeries[1..];
      var r := Find(rest, time);
      assert forall i :: 1 <= i < |surgeries| ==> surgeries[i] == rest[i - 1];
      if r.None? then r
      else
        var i :| FirstMatchAt(rest, time, i) && rest[i] == r.value;
        assert FirstMatchAt(surgeries, time, i + 1);
        r
  }

  /** The first occupying surgery is the one found, whatever follows it. */
  lemma FindFirstMatch(surgeries: seq<Surgery>, time: string, i: int)
    requires FirstMatchAt(surgeries, time, i)
    ensures Find(surgeries, time) == Some(surgeries[i])
  {
    var r := Find(surgeries, time);
    var i' :| FirstMatchAt(surgeries, time, i') && surgeries[i'] == r.value;
    assert !(i < i') && !(i' < i);
  }

  /** On well-formed labels the slot predicate compares times of day: the
      surgery's start equals the slot, or the slot lies strictly between its
      start and its end. */
  lemma OccupiesByMinutes(s: Surgery, time: string)
    requires IsClockLabel(s.startTime) && IsClockLabel(s.endTime) && IsClockLabel(time)
    ensures Occupies(s, time) <==>
      MinutesOfDay(s.startTime) == MinutesOfDay(time)
      || MinutesOfDay(s.startTime) < MinutesOfDay(time) < MinutesOfDay(s.endTime)
  {
    EqualAgreesWithMinutes(s.startTime, time);
    LessAgreesWithMinutes(s.startTime, time);
    LessAgreesWithMinutes(time, s.endTime);
  }

  /** For a surgery that ends after it starts the occupied interval is
      half-open: it includes the start and excludes the end. */
  lemma OccupiesHalfOpen(s: Surgery, time: string)
    requires IsClockLabel(s.startTime) && IsClockLabel(s.endTime) && IsClockLabel(time)
    requires MinutesOfDay(s.startTime) < MinutesOfDay(s.endTime)
    ensures Occupies(s, time) <==>
      MinutesOfDay(s.startTime) <= MinutesOfDay(time) < MinutesOfDay(s.endTime)
  {
    OccupiesByMinutes(s, time);
  }

  /** The equality branch ignores the end time: a surgery that does not end
      after it starts still occupies the slot named by its start, and no
      other slot. */
  lemma EmptySurgeryOccupiesOnlyItsStart(s: Surgery, time: string)
    requires IsClockLabel(s.startTime) && IsClockLabel(s.endTime) && IsClockLabel(time)
    requires MinutesOfDay(s.endTime) <= MinutesOfDay(s.startTime)
    ensures Occupies(s, time) <==> time == s.startTime
  {
    OccupiesByMinutes(s, time);
    EqualAgreesWithMinutes(s.startTime, time);
  }

  // ------------------------------------------------------- the rendered day

  /** What each slot of the grid shows, in render order. */
  function DaySchedule(surgeries: seq<Surgery>): (r: seq<Option<Surgery>>)
    ensures |r| == 52
    ensures forall k :: 0 <= k < 52 ==> r[k] == Find(surgeries, ClockLabel(420 + 15 * k))
  {
    GridSlots();
    var grid := Grid();
    seq(|grid|, k requires 0 <= k < |grid| => Find(surgeries, grid[k]))
  }

  function Repeat(x: Option<Surgery>, n: nat): seq<Option<Surgery>> {
    seq(n, _ => x)
  }

  lemma {:induction false} RepeatCount(x: Option<Surgery>, n: nat, y: Option<Surgery>)
    ensures multiset(Repeat(x, n))[y] == if x == y then n else 0
  {
    if n > 0 {
      RepeatCount(x, n - 1, y);
      assert Repeat(x, n) == Repeat(x, n - 1) + [x];
    }
  }

  lemma MockTimes()
    ensures forall i :: 0 <= i < 3 ==>
      IsClockLabel(MockSurgeries[i].startTime) && IsClockLabel(MockSurgeries[i].endTime)
    ensures MinutesOfDay(MockSurgeries[0].startTime) == 540 && MinutesOfDay(MockSurgeries[0].endTime) == 630
    ensures MinutesOfDay(MockSurgeries[1].startTime) == 660 && MinutesOfDay(MockSurgeries[1].endTime) == 780
    ensures MinutesOfDay(MockSurgeries[2].startTime) == 840 && MinutesOfDay(MockSurgeries[2].endTime) == 900
  {
  }

  /** Which grid slots each sample surgery's predicate accepts. */
  lemma MockOccupies(i: int, k: int)
    requires 0 <= i < 3 && 0 <= k < 52
    ensures Occupies(MockSurgeries[i], Grid()[k]) <==>
      if i == 0 then 8 <= k < 14 else if i == 1 then 16 <= k < 24 else 28 <= k < 32
  {
    GridMinutes(k);
    MockTimes();
    OccupiesHalfOpen(MockSurgeries[i], Grid()[k]);
  }

  /** The slot at index `k` (07:00 plus `15 * k` minutes) with the sample
      list: Appendectomy 09:00-10:15, Hip Replacement 11:00-12:45, Cataract
      Surgery 14:00-14:45, nothing elsewhere. */
  lemma MockSlot(k: int)
    requires 0 <= k < 52
    ensures Find(MockSurgeries, Grid()[k]) ==
      if 8 <= k < 14 then Some(MockSurgeries[0])
      else if 16 <= k < 24 then Some(MockSurgeries[1])
      else if 28 <= k < 32 then Some(MockSurgeries[2])
      else None
  {
    var t := Grid()[k];
    MockOccupies(0, k);
    MockOccupies(1, k);
    MockOccupies(2, k);
    if 8 <= k < 14 {
      FindFirstMatch(MockSurgeries, t, 0);
    } else if 16 <= k < 24 {
      FindFirstMatch(MockSurgeries, t, 1);
    } else if 28 <= k < 32 {
      FindFirstMatch(MockSurgeries, t, 2);
    }
  }

  /** With the sample list the day reads: nothing until 09:00, Appendectomy
      09:00-10:15, nothing at 10:30 and 10:45, Hip Replacement 11:00-12:45,
      nothing until 14:00, Cataract Surgery 14:00-14:45, nothing after. */
  lemma MockDaySchedule()
    ensures DaySchedule(MockSurgeries) ==
      Repeat(None, 8) + Repeat(Some(MockSurgeries[0]), 6) + Repeat(None, 2)
      + Repeat(Some(MockSurgeries[1]), 8) + Repeat(None, 4)
      + Repeat(Some(MockSurgeries[2]), 4) + Repeat(None, 20)
  {
    var d := DaySchedule(MockSurgeries);
    var a, b, c := Some(MockSurgeries[0]), Some(MockSurgeries[1]), Some(MockSurgeries[2]);
    forall k | 0 <= k < 52
      ensures d[k] ==
        if 8 <= k < 14 then a else if 16 <= k < 24 then b else if 28 <= k < 32 then c else None
    {
      MockSlot(k);
    }
    assert d[..8] == Repeat(None, 8);
    var prefix := Repeat(None, 8);
    ExtendPrefix(d, prefix, 14, a);
    prefix := prefix + Repeat(a, 6);
    ExtendPrefix(d, prefix, 16, None);
    prefix := prefix + Repeat(None, 2);
    ExtendPrefix(d, prefix, 24, b);
    prefix := prefix + Repeat(b, 8);
    ExtendPrefix(d, prefix, 28, None);
    prefix := prefix + Repeat(None, 4);
    ExtendPrefix(d, prefix, 32, c);
    prefix := prefix + Repeat(c, 4);
    ExtendPrefix(d, prefix, 52, None);
    assert d[..52] == d;
  }

  lemma ExtendPrefix(d: seq<Option<Surgery>>, prefix: seq<Option<Surgery>>, hi: int, x: Option<Surgery>)
    requires |prefix| <= hi <= |d| && d[..|prefix|] == prefix
    requires forall k :: |prefix| <= k < hi ==> d[k] == x
    ensures d[..hi] == prefix + Repeat(x, hi - |prefix|)
  {
    assert d[..hi] == d[..|prefix|] + d[|prefix|..hi];
  }

  /** With the sample list exactly 18 slots are occupied: 6 by Appendectomy,
      8 by Hip Replacement and 4 by Cataract Surgery; the other 34 are empty. */
  lemma MockOccupancy()
    ensures |DaySchedule(MockSurgeries)| == 52
    ensures multiset(DaySchedule(MockSurgeries))[None] == 34
    ensures multiset(DaySchedule(MockSurgeries))[Some(MockSurgeries[0])] == 6
    ensures multiset(DaySchedule(MockSurgeries))[Some(MockSurgeries[1])] == 8
    ensures multiset(DaySchedule(MockSurgeries))[Some(MockSurgeries[2])] == 4
  {
    MockDaySchedule();
    var a, b, c := Some(MockSurgeries[0]), Some(MockSurgeries[1]), Some(MockSurgeries[2]);
    assert multiset(DaySchedule(MockSurgeries))[None] == 34 by {
      RepeatCount(None, 8, None); RepeatCount(a, 6, None); RepeatCount(None, 2, None);
      RepeatCount(b, 8, None); RepeatCount(None, 4, None); RepeatCount(c, 4, None);
      RepeatCount(None, 20, None);
    }
    assert multiset(DaySchedule(MockSurgeries))[a] == 6 by {
      RepeatCount(None, 8, a); RepeatCount(a, 6, a); RepeatCount(None, 2, a);
      RepeatCount(b, 8, a); RepeatCount(None, 4, a); RepeatCount(c, 4, a);
      RepeatCount(None, 20, a);
    }
    assert multiset(DaySchedule(MockSurgeries))[b] == 8 by {
      RepeatCount(None, 8, b); RepeatCount(a, 6, b); RepeatCount(None, 2, b);
      RepeatCount(b, 8, b); RepeatCount(None, 4, b); RepeatCount(c, 4, b);
      RepeatCount(None, 20, b);
    }
    assert multiset(DaySchedule(MockSurgeries))[c] == 4 by {
      RepeatCount(None, 8, c); RepeatCount(a, 6, c); RepeatCount(None, 2, c);
      RepeatCount(b, 8, c); RepeatCount(None, 4, c); RepeatCount(c, 4, c);
      RepeatCount(None, 20, c);
    }
  }

  /** No slot of the grid lies in two sample surgeries. */
  lemma MockSlotsMatchAtMostOne(k: int, i: int, j: int)
    requires 0 <= k < |Grid()| && 0 <= i < 3 && 0 <= j < 3
    requires Occupies(MockSurgeries[i], Grid()[k]) && Occupies(MockSurgeries[j], Grid()[k])
    ensures i == j
  {
    MockOccupies(i, k);
    MockOccupies(j, k);
  }
}
