/**
  controllers/statsController.js: collection totals, how many documents were
  created last month, and the latest announcements and events.

  Dates are local calendar date-times (year, month 0-11, day of month, and
  the time of day in milliseconds, which every step carries unchanged); the
  conversion of a stored millisecond instant to one is the parameter
  `calendar`.
*/
module StatsController {
  import opened Wrappers
  import opened Accounts
  import opened Store
  import opened Numbers

  const DayMs: int := 86400000

  datatype DateTime = DateTime(year: int, month: int, day: int, time: int)

  predicate IsLeap(y: int)
  {
    y % 4 == 0 && (y % 100 != 0 || y % 400 == 0)
  }

  function DaysInMonth(y: int, m: int): (n: int)
    requires 0 <= m < 12
    ensures 28 <= n <= 31
    ensures n == 29 <==> m == 1 && IsLeap(y)
  {
    if m == 1 then (if IsLeap(y) then 29 else 28)
    else if m == 3 || m == 5 || m == 8 || m == 10 then 30
    else 31
  }

  predicate ValidDate(d: DateTime)
  {
    0 <= d.month < 12 && 1 <= d.day <= DaysInMonth(d.year, d.month) && 0 <= d.time < DayMs
  }

  /** Chronological order of valid date-times. */
  predicate Before(a: DateTime, b: DateTime)
  {
    || a.year < b.year
    || (a.year == b.year && a.month < b.month)
    || (a.year == b.year && a.month == b.month && a.day < b.day)
    || (a.year == b.year && a.month == b.month && a.day == b.day && a.time < b.time)
  }

  /** Date.prototype.setMonth(m): the month index is normalised into a year
      and a month, and a day of month past the end of the target month rolls
      over into the month after it; the time of day is kept. */
  function SetMonthOf(d: DateTime, m: int): (r: DateTime)
    requires 1 <= d.day <= 31 && 0 <= d.time < DayMs
    ensures ValidDate(r) && r.time == d.time
    ensures var y, mo := d.year + m / 12, m % 12;
      if d.day <= DaysInMonth(y, mo) then r == DateTime(y, mo, d.day, d.time)
      else && r.day == d.day - DaysInMonth(y, mo) && r.day <= 3
           && (r.year, r.month) == (if mo == 11 then (y + 1, 0) else (y, mo + 1))
  {
    var y, mo := d.year + m / 12, m % 12;
    var dim := DaysInMonth(y, mo);
    if d.day <= dim then DateTime(y, mo, d.day, d.time)
    else if mo == 11 then DateTime(y + 1, 0, d.day - dim, d.time)
    else DateTime(y, mo + 1, d.day - dim, d.time)
  }

  /** A JavaScript Date object, which the handler changes in place. */
  class JsDate {
    var value: DateTime

    /** new Date() at the instant `now`. */
    constructor (now: DateTime)
      ensures value == now
    {
      value := now;
    }

    method GetMonth() returns (m: int)
      ensures m == value.month
    {
      m := value.month;
    }

    method SetMonth(m: int)
      requires ValidDate(value)
      modifies this
      ensures value == SetMonthOf(old(value), m)
    {
      value := SetMonthOf(value, m);
    }

    /** setDate(day) for a day the current month has. */
    method SetDate(day: int)
      requires ValidDate(value) && 1 <= day <= DaysInMonth(value.year, value.month)
      modifies this
      ensures value == old(value).(day := day)
    {
      value := value.(day := day);
    }
  }

  /** The month before the one of `now`: January wraps to December. */
  function PreviousMonth(now: DateTime): (int, int)
  {
    if now.month == 0 then (now.year - 1, 11) else (now.year, now.month - 1)
  }

  /** Today's day of month exists in the previous month. */
  predicate PreviousMonthHasDay(now: DateTime)
    requires ValidDate(now)
  {
    var (y, m) := PreviousMonth(now);
    now.day <= DaysInMonth(y, m)
  }

  /** The first of the previous month, at the time of day of `now`, unless
      setMonth overflows; never after the end. */
  function WindowStart(now: DateTime): (r: DateTime)
    requires ValidDate(now)
    ensures ValidDate(r) && r.day == 1 && r.time == now.time
    ensures !Before(WindowEnd(now), r)
  {
    assert (now.month - 1) / 12 == (if now.month == 0 then -1 else 0);
    assert (now.month - 1) % 12 == (if now.month == 0 then 11 else now.month - 1);
    SetMonthOf(now, now.month - 1).(day := 1)
  }

  /** The first of this month, at the time of day of `now`: never after now. */
  function WindowEnd(now: DateTime): (r: DateTime)
    ensures r.day == 1 && (r.year, r.month, r.time) == (now.year, now.month, now.time)
    ensures ValidDate(now) ==> ValidDate(r) && !Before(now, r)
  {
    now.(day := 1)
  }

  /** The window's shape: the end is the first of this month, the start the
      first of the previous month at the same time of day; when today's day
      does not exist in the previous month, setMonth overflows back into this
      month and the start equals the end. */
  lemma WindowShape(now: DateTime)
    requires ValidDate(now)
    ensures WindowEnd(now) == DateTime(now.year, now.month, 1, now.time)
    ensures WindowStart(now).day == 1 && WindowStart(now).time == now.time
    ensures PreviousMonthHasDay(now) ==>
      (WindowStart(now).year, WindowStart(now).month) == PreviousMonth(now)
    ensures !PreviousMonthHasDay(now) ==> WindowStart(now) == WindowEnd(now)
    ensures Before(WindowStart(now), WindowEnd(now)) <==> PreviousMonthHasDay(now)
  {
    assert (now.month - 1) / 12 == (if now.month == 0 then -1 else 0);
    assert (now.month - 1) % 12 == (if now.month == 0 then 11 else now.month - 1);
  }

  /** start <= createdAt < end. A document without createdAt never matches. */
  predicate InWindow(c: Option<DateTime>, start: DateTime, end: DateTime): (ok: bool)
    ensures ok ==> c.Some? && Before(start, end)
  {
    c.Some? && !Before(c.value, start) && Before(c.value, end)
  }

  /** Which date-times the window holds when it is not empty: those of the
      previous month from the time of day of `now` on its first day, and those
      of the first of this month before that time of day. */
  lemma WindowMembers(now: DateTime, x: DateTime)
    requires ValidDate(now) && ValidDate(x) && PreviousMonthHasDay(now)
    ensures InWindow(Some(x), WindowStart(now), WindowEnd(now)) <==>
      || ((x.year, x.month) == PreviousMonth(now) && (x.day > 1 || x.time >= now.time))
      || (x.year == now.year && x.month == now.month && x.day == 1 && x.time < now.time)
  {
    WindowShape(now);
  }

  /** countDocuments({ createdAt: { $gte: start, $lt: end } }): how many
      positions of `cs` hold a date in the window. */
  function CountInWindow(cs: seq<Option<DateTime>>, start: DateTime, end: DateTime): (n: nat)
    ensures n == |set i | 0 <= i < |cs| && InWindow(cs[i], start, end)|
    ensures n <= |cs|
    ensures n == |cs| <==> forall i :: 0 <= i < |cs| ==> InWindow(cs[i], start, end)
    decreases |cs|
  {
    if |cs| == 0 then 0
    else
      var last := |cs| - 1;
      var rest := CountInWindow(cs[..last], start, end);
      WindowPositionsSplit(cs, start, end);
      rest + (if InWindow(cs[last], start, end) then 1 else 0)
  }

  /** The positions in the window are those of all but the last position,
      and the last one if its date is in the window. */
  lemma WindowPositionsSplit(cs: seq<Option<DateTime>>, start: DateTime, end: DateTime)
    requires |cs| > 0
    ensures var last := |cs| - 1;
      && (forall i :: 0 <= i < last ==> cs[..last][i] == cs[i])
      && (set i | 0 <= i < |cs| && InWindow(cs[i], start, end)) ==
         (set i | 0 <= i < last && InWindow(cs[..last][i], start, end)) +
         (if InWindow(cs[last], start, end) then {last} else {})
      && last !in (set i | 0 <= i < last && InWindow(cs[..last][i], start, end))
  {
  }

  /** An empty window counts nothing. */
  lemma {:induction false} EmptyWindowCountsNothing(cs: seq<Option<DateTime>>, d: DateTime)
    ensures CountInWindow(cs, d, d) == 0
    decreases |cs|
  {
    if |cs| > 0 {
      EmptyWindowCountsNothing(cs[..|cs| - 1], d);
    }
  }

  /** Documents without createdAt count nothing. */
  lemma {:induction false} UndatedCountsNothing(cs: seq<Option<DateTime>>, start: DateTime, end: DateTime)
    requires forall i :: 0 <= i < |cs| ==> cs[i].None?
    ensures CountInWindow(cs, start, end) == 0
    decreases |cs|
  {
    if |cs| > 0 {
      UndatedCountsNothing(cs[..|cs| - 1], start, end);
    }
  }

  /** The createdAt of each document as a calendar date-time. */
  function CreatedDates(rows: seq<Account>, calendar: int -> DateTime): (cs: seq<Option<DateTime>>)
    ensures |cs| == |rows|
    ensures forall i :: 0 <= i < |rows| ==> (cs[i].None? <==> rows[i].createdAt.None?)
  {
    seq(|rows|, i requires 0 <= i < |rows| =>
      if rows[i].createdAt.Some? then Some(calendar(rows[i].createdAt.value)) else None)
  }

  // ------------------------------------------------------------ latest

  /** An announcement or event as the stats reply lists it. */
  datatype Posting = Posting(id: nat, title: string, createdAt: Option<DateTime>)

  /** `a` may come before `b` under `.sort({ createdAt: -1 })`: newest first,
      documents without createdAt last. */
  predicate NoOlder(a: Option<DateTime>, b: Option<DateTime>)
  {
    b.None? || (a.Some? && !Before(a.value, b.value))
  }

  predicate NewestFirst(ps: seq<Posting>)
  {
    forall i, j :: 0 <= i < j < |ps| ==> NoOlder(ps[i].createdAt, ps[j].createdAt)
  }

  /** Place p into a newest-first sequence, before the first posting it is
      no older than (so ahead of postings with an equal createdAt). */
  function InsertNewest(p: Posting, s: seq<Posting>): (r: seq<Posting>)
    requires NewestFirst(s)
    ensures NewestFirst(r)
    ensures multiset(r) == multiset(s) + multiset{p}
    decreases |s|
  {
    if |s| == 0 || NoOlder(p.createdAt, s[0].createdAt) then
      assert forall j :: 0 <= j < |s| ==> NoOlder(p.createdAt, s[j].createdAt) by {
        if |s| > 0 {
          forall j | 0 <= j < |s| ensures NoOlder(p.createdAt, s[j].createdAt) {
            if j > 0 { assert NoOlder(s[0].createdAt, s[j].createdAt); }
          }
        }
      }
      [p] + s
    else
      var rest := InsertNewest(p, s[1..]);
      assert s == [s[0]] + s[1..];
      assert forall j :: 0 <= j < |rest| ==> NoOlder(s[0].createdAt, rest[j].createdAt) by {
        forall j | 0 <= j < |rest| ensures NoOlder(s[0].createdAt, rest[j].createdAt) {
          assert rest[j] in multiset(rest);
          if rest[j] != p {
            assert rest[j] in multiset(s[1..]);
            var k :| 0 <= k < |s[1..]| && s[1..][k] == rest[j];
            assert NoOlder(s[0].createdAt, s[k + 1].createdAt);
          }
        }
      }
      [s[0]] + rest
  }

  /** The postings newest first. */
  function SortNewestFirst(ps: seq<Posting>): (r: seq<Posting>)
    ensures NewestFirst(r) && multiset(r) == multiset(ps) && |r| == |ps|
    decreases |ps|
  {
    if |ps| == 0 then []
    else
      assert ps == [ps[0]] + ps[1..];
      var r := InsertNewest(ps[0], SortNewestFirst(ps[1..]));
      assert |r| == |multiset(r)|;
      r
  }

  /** `.sort({ createdAt: -1 }).limit(k)`: the k newest postings. */
  function Latest(ps: seq<Posting>, k: nat): (r: seq<Posting>)
    ensures |r| == Min(k, |ps|)
    ensures NewestFirst(r)
    ensures multiset(r) <= multiset(ps)
  {
    var s := SortNewestFirst(ps);
    assert s == s[..Min(k, |ps|)] + s[Min(k, |ps|)..];
    s[..Min(k, |ps|)]
  }

  /** Nothing left out is newer than anything kept: a posting of which fewer
      copies are kept than given is no newer than each kept posting. */
  lemma LatestKeepsNewest(ps: seq<Posting>, k: nat, x: Posting, y: Posting)
    requires multiset(Latest(ps, k))[x] < multiset(ps)[x]
    requires y in Latest(ps, k)
    ensures NoOlder(y.createdAt, x.createdAt)
  {
    var s := SortNewestFirst(ps);
    var n := Min(k, |ps|);
    assert s == s[..n] + s[n..];
    assert multiset(s) == multiset(s[..n]) + multiset(s[n..]);
    assert x in multiset(s[n..]);
    var j :| 0 <= j < |s[n..]| && s[n..][j] == x;
    var i :| 0 <= i < n && s[i] == y;
    assert NoOlder(s[i].createdAt, s[n + j].createdAt);
  }

  // ------------------------------------------------------------ the reply

  datatype StatsData = StatsData(
    totalAlumni: nat, totalAlumniLastMonth: nat,
    totalUsers: nat, totalUsersLastMonth: nat,
    totalFaculty: nat, totalFacultyLastMonth: nat,
    latestAnnouncements: seq<Posting>, latestEvents: seq<Posting>)

  datatype StatsReply = StatsReply(responseCode: int, message: string, data: Option<StatsData>)

  /** The window built as the handler builds it: two Date objects taken at the
      same instant, one moved to the previous month and both to day 1. */
  method LastMonthWindow(now: DateTime) returns (start: DateTime, end: DateTime)
    requires ValidDate(now)
    ensures start == WindowStart(now) && end == WindowEnd(now)
  {
    var startDate := new JsDate(now);
    var month := startDate.GetMonth();
    startDate.SetMonth(month - 1);
    startDate.SetDate(1);
    var endDate := new JsDate(now);
    endDate.SetDate(1);
    start, end := startDate.value, endDate.value;
  }

  /** exports.getStats. `failure` is the error of whichever query failed. */
  method GetStats(db: Database, announcements: seq<Posting>, events: seq<Posting>, now: DateTime,
                  calendar: int -> DateTime, failure: Option<string>) returns (reply: StatsReply)
    requires db.Valid() && ValidDate(now)
    ensures failure.Some? ==> reply == StatsReply(500, failure.value, None)
    ensures failure.None? ==>
      var t := db.tables;
      var start, end := WindowStart(now), WindowEnd(now);
      && reply.responseCode == 200 && reply.message == "Statistics fetched successfully!"
      && reply.data.Some?
      && reply.data.value.totalAlumni == |t.alumni|
      && reply.data.value.totalUsers == |t.users|
      && reply.data.value.totalFaculty == |t.faculty|
      && reply.data.value.totalAlumniLastMonth == CountInWindow(CreatedDates(t.alumni, calendar), start, end)
      && reply.data.value.totalFacultyLastMonth == CountInWindow(CreatedDates(t.faculty, calendar), start, end)
      && reply.data.value.totalUsersLastMonth == 0
      && reply.data.value.totalAlumniLastMonth <= reply.data.value.totalAlumni
      && reply.data.value.totalFacultyLastMonth <= reply.data.value.totalFaculty
      && reply.data.value.latestAnnouncements == Latest(announcements, 5)
      && reply.data.value.latestEvents == Latest(events, 3)
  {
    if failure.Some? {
      return StatsReply(500, failure.value, None);
    }
    var t := db.tables;
    var start, end := LastMonthWindow(now);
    var users := CreatedDates(t.users, calendar);
    assert forall i :: 0 <= i < |t.users| ==> Fits(UserKind, db.faculty, t.users[i]);
    UndatedCountsNothing(users, start, end);
    var data := StatsData(
      |t.alumni|, CountInWindow(CreatedDates(t.alumni, calendar), start, end),
      |t.users|, CountInWindow(users, start, end),
      |t.faculty|, CountInWindow(CreatedDates(t.faculty, calendar), start, end),
      Latest(announcements, 5), Latest(events, 3));
    reply := StatsReply(200, "Statistics fetched successfully!", Some(data));
  }

  /** On a day the previous month lacks, every last-month count is 0. */
  lemma OverflowDayCountsNothing(t: Tables, now: DateTime, calendar: int -> DateTime, k: Kind)
    requires ValidDate(now) && !PreviousMonthHasDay(now)
    ensures CountInWindow(CreatedDates(t.Table(k), calendar), WindowStart(now), WindowEnd(now)) == 0
  {
    WindowShape(now);
    EmptyWindowCountsNothing(CreatedDates(t.Table(k), calendar), WindowEnd(now));
  }

  /** The latest lists are bounded: at most 5 announcements and 3 events, each
      newest first. */
  lemma LatestBounds(announcements: seq<Posting>, events: seq<Posting>)
    ensures |Latest(announcements, 5)| <= 5 && |Latest(events, 3)| <= 3
    ensures NewestFirst(Latest(announcements, 5)) && NewestFirst(Latest(events, 3))
  {
  }
}
