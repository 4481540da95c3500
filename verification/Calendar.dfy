/** The clock as it is written into the queue: microseconds since the epoch,
    broken down into a calendar time and formatted as text. */
module Calendar {
  import opened Timestamps

  const SECOND := 1_000_000

  datatype Day = Day(year: nat, month: nat, day: nat)

  predicate IsLeap(y: nat) { y % 4 == 0 && (y % 100 != 0 || y % 400 == 0) }

  function MonthLength(y: nat, m: nat): nat {
    if m == 2 then (if IsLeap(y) then 29 else 28)
    else if m == 4 || m == 6 || m == 9 || m == 11 then 30 else 31
  }

  predicate IsDay(d: Day) { 1 <= d.month <= 12 && 1 <= d.day <= MonthLength(d.year, d.month) }

  function NextDay(d: Day): (n: Day)
    requires IsDay(d)
    ensures IsDay(n) && DayBefore(d, n)
  {
    if d.day < MonthLength(d.year, d.month) then d.(day := d.day + 1)
    else if d.month < 12 then Day(d.year, d.month + 1, 1)
    else Day(d.year + 1, 1, 1)
  }

  /** The n-th day after 1 January 1970. */
  function DayOf(n: nat): (d: Day)
    ensures IsDay(d)
  {
    if n == 0 then Day(1970, 1, 1) else NextDay(DayOf(n - 1))
  }

  predicate DayBefore(a: Day, b: Day) {
    a.year < b.year || (a.year == b.year && (a.month < b.month || (a.month == b.month && a.day < b.day)))
  }

  lemma {:induction false} DaysIncrease(a: nat, b: nat)
    requires a < b
    ensures DayBefore(DayOf(a), DayOf(b))
    decreases b
  {
    if a < b - 1 { DaysIncrease(a, b - 1); }
  }

  function StampOf(t: nat): (s: Stamp)
    ensures Valid(s)
  {
    var seconds := t / SECOND;
    var minutes := seconds / 60;
    var hours := minutes / 60;
    var d := DayOf(hours / 24);
    Stamp(d.year, d.month, d.day, hours % 24, minutes % 60, seconds % 60, t % SECOND)
  }

  /** A larger number has a larger quotient, or the same and a larger remainder. */
  lemma DivOrder(a: nat, b: nat, k: nat)
    requires a < b && k > 0
    ensures a / k < b / k || (a / k == b / k && a % k < b % k)
  {
    QuotientOrder(k, a / k, a % k, b / k, b % k);
  }

  lemma QuotientOrder(k: nat, q: nat, r: nat, p: nat, u: nat)
    requires r < k && u < k && k * q + r < k * p + u
    ensures q < p || (q == p && r < u)
  {
    if q >= p + 1 { Multiples(k, q, p + 1); }
  }

  lemma Multiples(k: nat, q: nat, p: nat)
    requires q >= p
    ensures k * q >= k * p
  {}

  /** Later is later in the calendar. */
  lemma StampsIncrease(a: nat, b: nat)
    requires a < b
    ensures Before(StampOf(a), StampOf(b))
  {
    hide DayOf;
    DivOrder(a, b, SECOND);
    var s, t := a / SECOND, b / SECOND;
    if s < t {
      DivOrder(s, t, 60);
      var m, n := s / 60, t / 60;
      if m < n {
        DivOrder(m, n, 60);
        var g, h := m / 60, n / 60;
        if g < h {
          DivOrder(g, h, 24);
          if g / 24 < h / 24 { DaysIncrease(g / 24, h / 24); }
        }
      }
    }
  }

  /** The text stored for a time. */
  function Text(t: nat): string { Format(StampOf(t)) }

  /** Before year 10000, through which the texts have one width. */
  predicate InEra(t: nat) { StampOf(t).year < 10_000 }

  lemma EraBefore(a: nat, b: nat)
    requires a <= b && InEra(b)
    ensures InEra(a)
  {
    if a < b { StampsIncrease(a, b); }
  }

  /** In that era the texts are ordered as the times are. */
  lemma TextOrder(a: nat, b: nat)
    requires InEra(a) && InEra(b)
    ensures TextLess(Text(a), Text(b)) <==> a < b
  {
    hide StampOf;
    TextOrderIsTimeOrder(StampOf(a), StampOf(b));
    if a < b { StampsIncrease(a, b); }
    if b < a {
      StampsIncrease(b, a);
      NotBoth(StampOf(b), StampOf(a));
    }
    if a == b { NotBefore(StampOf(a)); }
  }

  lemma NotBefore(s: Stamp)
    ensures !Before(s, s)
  {}
}
