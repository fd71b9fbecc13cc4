# Surgery scheduler hub: the timeline grid and the patient countdown

This project models, in Dafny, the two pieces of logic in the surgery
scheduling dashboard that are more than markup:

- **The day timeline** (`src/pages/Timesheet.tsx`). The page builds 52
  quarter-hour slot labels, `"07:00"` to `"19:45"`, from the hours 7 to 19
  and the minute marks `00`, `15`, `30`, `45`, padding the hour to two
  digits. For each slot it shows the first surgery in list order whose
  `startTime` equals the label, or whose `startTime` is before it and whose
  `endTime` is after it. All three comparisons are JavaScript string
  comparisons on `"HH:MM"` strings. The model keeps them as string
  comparisons (`JsText.StringLess`, lexicographic order on characters). It
  then proves that on well-formed zero-padded labels they agree with
  comparing minutes since midnight (`ClockTime`). From that it proves the
  half-open reading of the slot rule, the quirk of its equality branch, the
  shape of the grid, and the exact day the sample list renders.
- **The patient countdown and status colour** (`src/pages/Patient.tsx`).
  `calculateTimeUntil` splits a millisecond difference into days, hours and
  minutes with `Math.floor` and JavaScript's `%`. That `%` is a truncated
  remainder whose sign follows the dividend, so the model uses its own
  `TruncRem` rather than Dafny's Euclidean `%`. The function then formats
  the result as `"{days}d {hours}h {minutes}m"`. The model proves the
  decomposition for targets ahead and for targets in the past, which are not
  clamped. It proves that a 14:30 target seen at 12:00 on the same day reads
  `"0d 2h 30m"`, and that the text can be read back unambiguously. `getStatusColor` is a total lookup with a green default.

Files: `Wrappers.dfy` (Option), `JsText.dfy` (JavaScript string primitives:
`toString`, `padStart`, string `<`), `ClockTime.dfy` (`"HH:MM"` labels),
`Timesheet.dfy`, `Patient.dfy`.

The current time, which `calculateTimeUntil` reads from the clock, is a
parameter `now`. The surgery time, which the page parses from an ISO date
string, is a parameter `target`. Both are integer milliseconds.

The timeline computes no first-slot flag and no count of the slots a
surgery spans; each slot only looks up its surgery. Because the slot
predicate's first branch is an equality test, a surgery whose end is not
after its start still occupies the slot named by its start, and no other
(`Timesheet.EmptySurgeryOccupiesOnlyItsStart`).

## Model

| member | source | states |
|---|---|---|
| `JsText.NatToString` | src/pages/Timesheet.tsx:97 | `hour.toString()`: a non-empty string of digits, with no leading zero, whose decimal value is the number |
| `JsText.IntToString` | src/pages/Patient.tsx:41 | interpolating an integer: the text starts with a minus sign exactly when the number is negative |
| `JsText.PadStart` | src/pages/Timesheet.tsx:97 | `padStart(2, "0")`: the result has length `max(len, |s|)`, ends with `s`, and everything before `s` is the pad character |
| `JsText.ReadIntToString` | src/pages/Patient.tsx:41 | reading an integer back from its rendering, when no digit follows it, yields the same integer and the rest of the text |
| `JsText.StringLess` | src/pages/Timesheet.tsx:44 | JavaScript's relational `<` on strings: never true of two equal strings, and always true of a proper prefix and the longer string |
| `JsText.StringLessAsymmetric` | src/pages/Timesheet.tsx:44 | no two strings are each less than the other |
| `ClockTime.ClockLabel` | src/pages/Timesheet.tsx:97 | the zero-padded label of a minute of the day is well-formed and names that minute |
| `ClockTime.ClockLabelOfMinutes` | src/pages/Timesheet.tsx:12-13 | every well-formed `"HH:MM"` label is the label of the minute it names, so labels and minutes correspond one to one |
| `ClockTime.LessAgreesWithMinutes` | src/pages/Timesheet.tsx:44 | on well-formed labels, string `a < b` holds exactly when `a` is earlier in the day than `b`; with the arguments swapped this covers `>` |
| `ClockTime.EqualAgreesWithMinutes` | src/pages/Timesheet.tsx:44 | on well-formed labels, `a === b` holds exactly when both name the same minute |
| `Timesheet.StatusColors` | src/pages/Timesheet.tsx:47-51 | the `statusColors` record: blue classes for scheduled, yellow for in progress, green for completed; its property is `Timesheet.StatusColorsDistinct` |
| `Timesheet.StatusColorsDistinct` | src/pages/Timesheet.tsx:47-51 | the three lifecycle statuses map to three different class strings |
| `Timesheet.SlotLabel` | src/pages/Timesheet.tsx:97 | the label of an hour below 100 and a minute mark is the hour's tens digit, its units digit, `':'`, then the minute mark, so 7 gets a leading zero |
| `Timesheet.Grid` | src/pages/Timesheet.tsx:93-101 | the slot labels, each hour's four quarters in turn, number 52 |
| `Timesheet.GridIndex` | src/pages/Timesheet.tsx:93-97 | slot `k` is row `k / 4` (hour `7 + k / 4`) crossed with quarter mark `k % 4` |
| `Timesheet.PaddedHour` | src/pages/Timesheet.tsx:97 | padding an hour below 100 to two characters gives its tens digit then its units digit, so 7 becomes `"07"` |
| `Timesheet.SlotLabelIsClockLabel` | src/pages/Timesheet.tsx:97 | the label built for hour `h` and quarter `q` is the clock label of minute `60 * h + 15 * q` |
| `Timesheet.GridSlots` | src/pages/Timesheet.tsx:74-101 | exactly 52 slots; slot `k` is the label of 07:00 plus `15 * k` minutes (hours 7 to 19, minutes 00, 15, 30, 45) |
| `Timesheet.GridMinutes` | src/pages/Timesheet.tsx:93-97 | slot `k` is a well-formed label naming minute `420 + 15 * k` |
| `Timesheet.GridLabels` | src/pages/Timesheet.tsx:97 | every slot label is a well-formed five-character `"HH:MM"`; the twelve slots of hours 7 to 9 start with a padding `'0'` |
| `Timesheet.GridEnds` | src/pages/Timesheet.tsx:74-97 | the first slot is `"07:00"` and the last is `"19:45"` |
| `Timesheet.GridAscending` | src/pages/Timesheet.tsx:93-97 | the slots are in strictly ascending order under the string `<` |
| `Timesheet.Occupies` | src/pages/Timesheet.tsx:44 | the `find` predicate never holds of a slot that sorts before the surgery's start; `Timesheet.OccupiesByMinutes` gives it in full |
| `Timesheet.Find` | src/pages/Timesheet.tsx:43-45 | `find` yields nothing exactly when no surgery satisfies the slot predicate; what it yields is the surgery at the first index that satisfies it |
| `Timesheet.FindFirstMatch` | src/pages/Timesheet.tsx:43-45 | when the surgery at index `i` occupies the slot and none before it does, `find` yields that surgery, whatever follows it |
| `Timesheet.OccupiesByMinutes` | src/pages/Timesheet.tsx:44 | on well-formed labels a surgery occupies a slot exactly when its start is the slot's minute, or its start is earlier and its end later |
| `Timesheet.OccupiesHalfOpen` | src/pages/Timesheet.tsx:44 | for a surgery ending after it starts, it occupies exactly the slots from its start up to but excluding its end |
| `Timesheet.EmptySurgeryOccupiesOnlyItsStart` | src/pages/Timesheet.tsx:44 | a surgery whose end is not after its start still occupies the slot equal to its start, and no other slot |
| `Timesheet.DaySchedule` | src/pages/Timesheet.tsx:41-101 | the rendered day has 52 entries, and entry `k` is what `find` yields for the slot 07:00 plus `15 * k` minutes |
| `Timesheet.MockTimes` | src/pages/Timesheet.tsx:17-39 | the sample surgeries have well-formed times 09:00-10:30, 11:00-13:00 and 14:00-15:00 |
| `Timesheet.MockOccupies` | src/pages/Timesheet.tsx:17-45 | Appendectomy occupies slots 8-13 (09:00-10:15, not 10:30), Hip Replacement slots 16-23, Cataract Surgery slots 28-31 |
| `Timesheet.MockSlot` | src/pages/Timesheet.tsx:41-45 | with the sample list, the surgery `find` picks for each slot: one of the three in its window, nothing elsewhere |
| `Timesheet.MockDaySchedule` | src/pages/Timesheet.tsx:41-101 | with the sample list the 52 rendered slots are 8 empty, 6 Appendectomy, 2 empty, 8 Hip Replacement, 4 empty, 4 Cataract Surgery, 20 empty |
| `Timesheet.MockOccupancy` | src/pages/Timesheet.tsx:17-56 | with the sample list exactly 18 slots are occupied (6, 8 and 4), and 34 render no surgery |
| `Timesheet.MockSlotsMatchAtMostOne` | src/pages/Timesheet.tsx:17-45 | no grid slot satisfies the predicate for two different sample surgeries |
| `Patient.FloorDiv` | src/pages/Patient.tsx:37 | `Math.floor(a / b)` for `b > 0` is the largest `q` with `b * q <= a` |
| `Patient.TruncDiv` | src/pages/Patient.tsx:38-39 | the quotient paired with JavaScript `%` rounds toward zero: its product with `b` lies between 0 and `a` and is within `b` of `a` |
| `Patient.TruncRem` | src/pages/Patient.tsx:38-39 | JavaScript `a % b`: in `[0, b)` for `a >= 0`, in `(-b, 0]` for `a < 0`, and congruent to `a` modulo `b` |
| `Patient.TruncRemEuclidean` | src/pages/Patient.tsx:38-39 | JavaScript `%` equals Euclidean `%` on a non-negative dividend and is `-((-a) % b)` on a negative one |
| `Patient.TimeUntil` | src/pages/Patient.tsx:32-39 | days is the floor of the difference over a day; days is negative exactly when the target is in the past; hours lie in `[0, 24)` and minutes in `[0, 60)` for a target ahead, and in `[-24, 0]` and `[-60, 0]` for one in the past |
| `Patient.FormatCountdown` | src/pages/Patient.tsx:41 | the template `${days}d ${hours}h ${minutes}m`; that it can be read back is `Patient.ParseFormatCountdown` |
| `Patient.CalculateTimeUntil` | src/pages/Patient.tsx:32-42 | the countdown text is non-empty and starts with a minus sign exactly when the target is in the past |
| `Patient.CountdownAhead` | src/pages/Patient.tsx:35-39 | for `target >= now`: days `>= 0`, `0 <= hours < 24`, `0 <= minutes < 60`, and `days * 1440 + hours * 60 + minutes` is the whole number of minutes to go, so seconds and milliseconds are dropped |
| `Patient.FloorOfNegated` | src/pages/Patient.tsx:37-39 | flooring `-x / b` gives minus the ceiling of `x / b` |
| `Patient.CountdownPast` | src/pages/Patient.tsx:35-39 | for `target < now` nothing is clamped: each component is minus the ceiling of its part of the elapsed time, so days `< 0`, `-24 <= hours <= 0`, `-60 <= minutes <= 0` |
| `Patient.CountdownOneMillisecondLate` | src/pages/Patient.tsx:35-41 | a target one millisecond in the past reads `"-1d -1h -1m"` |
| `Patient.CountdownSameDayExample` | src/pages/Patient.tsx:22-41 | a target at 14:30 seen at 12:00 on the same day reads `"0d 2h 30m"`, whatever the day |
| `Patient.ParseFormatCountdown` | src/pages/Patient.tsx:41 | the text `"{days}d {hours}h {minutes}m"` read back yields the three components written, for all integers, negative ones included |
| `Patient.GetStatusColor` | src/pages/Patient.tsx:44-55 | yellow exactly for `"delayed"`, red exactly for `"cancelled"`, green for `"on-time"` and every other string |

## Left out

- Rendering: React components, JSX, CSS class composition (`cn`), animations, the tab state (`useState`) and the `key` of each slot. These are presentation only; `Timesheet.DaySchedule` stands for the list of slots the page renders.
- Routing and navigation (`useNavigate`, the `/surgery/${id}` links and the back buttons): framework plumbing.
- The clock read `new Date()` in `calculateTimeUntil`: replaced by the parameter `now`.
- Parsing the ISO date string of the surgery time and the locale formatting (`toLocaleDateString`, `toLocaleTimeString`): these depend on time zone and locale. The countdown takes `target` in milliseconds instead.
- `window.alert` on the legal notice button: I/O.
- src/pages/Surgery.tsx and src/pages/Index.tsx are not part of this model: the first is a keyed lookup with a not-found branch around static markup, the second holds two navigation buttons.
- Floating point: the page divides doubles and floors them. The model divides integers exactly. Both agree for integer millisecond differences of realistic size; it does not cover differences so large, near 2^53 ms, that the double quotient rounds across an integer. JavaScript can also produce `-0` for an hour or minute component, which renders as `"0"`, the same text the model's `0` gives.
- Character encoding: JavaScript compares strings by UTF-16 code unit, the model by character. The two agree on the ASCII times the page uses.
