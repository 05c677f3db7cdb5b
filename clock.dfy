/** Calendar arithmetic on millisecond timestamps. The source reads local
    hour, weekday and calendar day through `Date` (`getHours`, `getDay`,
    `toDateString`); this model takes the local time zone to be UTC. */
module Clock {

  const MsPerHour: nat := 60 * 60 * 1000
  const MsPerDay: nat := 1000 * 60 * 60 * 24

  /** `new Date(t).getHours()`. */
  function Hour(t: int): (h: nat)
    ensures h < 24
  {
    (t / MsPerHour) % 24
  }

  /** `new Date(t).getDay()`: 0 is Sunday; the epoch fell on a Thursday (4). */
  function Weekday(t: int): (d: nat)
    ensures d < 7
  {
    (t / MsPerDay + 4) % 7
  }

  /** The calendar day `new Date(t).toDateString()` names, as a day number. */
  function DayKey(t: int): int {
    t / MsPerDay
  }

  /** `(later - earlier) / (1000 * 60 * 60 * 24)`: elapsed time in (fractional) days. */
  function DaysBetween(earlier: int, later: int): (r: real)
    ensures r * MsPerDay as real == (later - earlier) as real
    ensures (r > 0.0 <==> earlier < later) && (r == 0.0 <==> earlier == later)
  {
    (later - earlier) as real / MsPerDay as real
  }

  /** `calculateRecencyScore`: `Math.max(0, 100 - daysSince * 2)`, a linear
      decay from 100 that reaches 0 after 50 days. */
  function RecencyScore(last: int, now: int): (r: real)
    ensures r >= 0.0
    ensures last <= now ==> r <= 100.0
    ensures now - last >= 50 * MsPerDay ==> r == 0.0
    ensures last == now ==> r == 100.0
  {
    var daysSince := DaysBetween(last, now);
    if 100.0 - daysSince * 2.0 > 0.0 then 100.0 - daysSince * 2.0 else 0.0
  }
}
