/** The relative-time buckets of `formatDate`, taking the millisecond
    difference between now and the task's timestamp as input. */
module RelativeTime {

  const MsPerMinute := 60000
  const MsPerHour := 3600000
  const MsPerDay := 86400000

  /** What `formatDate` shows; `OnDate` stands for the locale date text. */
  datatype Age = JustNow | MinutesAgo(minutes: nat) | HoursAgo(hours: nat) | DaysAgo(days: nat) | OnDate

  /** `Math.floor(diffMs / unit)`; Dafny's division rounds down for a
      positive divisor, negative differences included. */
  function FloorDiv(diffMs: int, unit: int): (q: int)
    requires unit > 0
    ensures q * unit <= diffMs < (q + 1) * unit
  {
    diffMs / unit
  }

  /** The bucket for a difference, tested in `formatDate`'s order. */
  function AgeOf(diffMs: int): (a: Age)
    ensures a.JustNow? <==> diffMs < MsPerMinute
    ensures a.MinutesAgo? <==> MsPerMinute <= diffMs < MsPerHour
    ensures a.HoursAgo? <==> MsPerHour <= diffMs < MsPerDay
    ensures a.DaysAgo? <==> MsPerDay <= diffMs < 7 * MsPerDay
    ensures a.OnDate? <==> 7 * MsPerDay <= diffMs
    ensures a.MinutesAgo? ==> 1 <= a.minutes < 60 && a.minutes * MsPerMinute <= diffMs < (a.minutes + 1) * MsPerMinute
    ensures a.HoursAgo? ==> 1 <= a.hours < 24 && a.hours * MsPerHour <= diffMs < (a.hours + 1) * MsPerHour
    ensures a.DaysAgo? ==> 1 <= a.days < 7 && a.days * MsPerDay <= diffMs < (a.days + 1) * MsPerDay
  {
    var diffMins := FloorDiv(diffMs, MsPerMinute);
    var diffHours := FloorDiv(diffMs, MsPerHour);
    var diffDays := FloorDiv(diffMs, MsPerDay);
    if diffMins < 1 then JustNow
    else if diffMins < 60 then MinutesAgo(diffMins)
    else if diffHours < 24 then HoursAgo(diffHours)
    else if diffDays < 7 then DaysAgo(diffDays)
    else OnDate
  }

  /** An older timestamp never lands in a more recent bucket. */
  lemma AgeMonotone(d1: int, d2: int)
    requires d1 <= d2
    ensures Order(AgeOf(d1)) <= Order(AgeOf(d2))
  {
  }

  function Order(a: Age): nat {
    match a
    case JustNow => 0
    case MinutesAgo(_) => 1
    case HoursAgo(_) => 2
    case DaysAgo(_) => 3
    case OnDate => 4
  }

  /** Decimal text of a natural number, as template interpolation prints it. */
  function Decimal(n: nat): (r: string)
    ensures |r| > 0
    ensures forall i :: 0 <= i < |r| ==> '0' <= r[i] <= '9'
    ensures r[0] == '0' ==> n == 0
  {
    if n < 10 then [Digit(n)] else Decimal(n / 10) + [Digit(n % 10)]
  }

  function Digit(d: nat): (c: char)
    requires d < 10
    ensures '0' <= c <= '9'
  {
    (d + '0' as int) as char
  }

  /** The number a digit string denotes. */
  function ValueOf(s: string): nat
    requires forall i :: 0 <= i < |s| ==> '0' <= s[i] <= '9'
  {
    if |s| == 0 then 0 else ValueOf(s[..|s| - 1]) * 10 + (s[|s| - 1] as int - '0' as int)
  }

  /** Reading back the decimal text gives the number. */
  lemma {:induction false} DecimalRoundTrip(n: nat)
    ensures ValueOf(Decimal(n)) == n
  {
    if n >= 10 {
      DecimalRoundTrip(n / 10);
      var r := Decimal(n);
      assert r[..|r| - 1] == Decimal(n / 10);
    }
  }

  /** The text `formatDate` returns; `date` is the locale date text, which
      is outside this model. */
  function AgeText(a: Age, date: string): string {
    match a
    case JustNow => "Just now"
    case MinutesAgo(m) => Decimal(m) + "m ago"
    case HoursAgo(h) => Decimal(h) + "h ago"
    case DaysAgo(d) => Decimal(d) + "d ago"
    case OnDate => date
  }

  /** `formatDate` for a difference in milliseconds: each text stated in
      terms of the difference itself. */
  function FormatDate(diffMs: int, date: string): (r: string)
    ensures diffMs < MsPerMinute ==> r == "Just now"
    ensures MsPerMinute <= diffMs < MsPerHour ==> r == Decimal(diffMs / MsPerMinute) + "m ago"
    ensures MsPerHour <= diffMs < MsPerDay ==> r == Decimal(diffMs / MsPerHour) + "h ago"
    ensures MsPerDay <= diffMs < 7 * MsPerDay ==> r == Decimal(diffMs / MsPerDay) + "d ago"
    ensures 7 * MsPerDay <= diffMs ==> r == date
  {
    AgeText(AgeOf(diffMs), date)
  }

  /** The examples the TaskManager test suite checks: 30 seconds, 5 minutes, 3 hours
      and 5 days ago. */
  lemma FormatDateExamples(date: string)
    ensures FormatDate(30000, date) == "Just now"
    ensures FormatDate(5 * MsPerMinute, date) == "5m ago"
    ensures FormatDate(3 * MsPerHour, date) == "3h ago"
    ensures FormatDate(5 * MsPerDay, date) == "5d ago"
    ensures FormatDate(7 * MsPerDay, date) == date
  {
  }
}
