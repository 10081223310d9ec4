/** The batch driver of the absence report generator: starting from the next
    Monday it walks day by day, skipping weekends, and produces one report per
    weekday until the requested number exists. Days are numbered so that day 0
    is a Monday; the clock reading that supplies the start day is a parameter. */
module AbsenceSchedule {
  import opened Results
  import opened AbsenceRoster
  import opened AbsenceData

  /** 0 is Monday, 6 is Sunday. */
  function Weekday(day: int): int { day % 7 }

  predicate IsSchoolDay(day: int) { Weekday(day) < 5 }

  /** The day from which reports start: the start day if it is a Monday, the
      next Monday otherwise. The second adjustment of the source is kept, though
      no weekday reaches it (see `SecondAdjustmentDead`). */
  function FirstReportDay(start: int): (r: int)
    ensures Weekday(r) == 0
    ensures start <= r < start + 7
  {
    var w := Weekday(start);
    var days := (7 - w) % 7;
    var days := if days == 0 && w != 0 then 7 else days;
    start + days
  }

  /** No Monday is passed over on the way to the first report day. */
  lemma FirstReportDayNearest(start: int)
    ensures forall d :: start <= d < FirstReportDay(start) ==> Weekday(d) != 0
  {
  }

  /** `(7 - w) % 7` is zero only for Monday, so the branch that moves a
      non-Monday start a full week ahead never runs. */
  lemma SecondAdjustmentDead(start: int)
    ensures (7 - Weekday(start)) % 7 == 0 <==> Weekday(start) == 0
  {
  }

  /** The weekday after a school day. */
  function NextSchoolDay(day: int): (r: int)
    requires IsSchoolDay(day)
    ensures IsSchoolDay(r) && day < r
  {
    if Weekday(day) == 4 then
      assert Weekday(day + 1) == 5 && Weekday(day + 2) == 6;
      day + 3
    else day + 1
  }

  /** Only weekend days lie between a school day and the next. */
  lemma NextSchoolDaySkipsWeekend(day: int, d: int)
    requires IsSchoolDay(day) && day < d < NextSchoolDay(day)
    ensures !IsSchoolDay(d)
  {
  }

  /** The `i`-th report day: the first Monday, then one school day after another. */
  function ReportDay(start: int, i: nat): (r: int)
    ensures IsSchoolDay(r)
  {
    if i == 0 then FirstReportDay(start) else NextSchoolDay(ReportDay(start, i - 1))
  }

  /** Report days in closed form: five consecutive days in each week from the
      first Monday on. */
  lemma {:induction false} ReportDayClosedForm(start: int, i: nat)
    ensures ReportDay(start, i) == FirstReportDay(start) + 7 * (i / 5) + i % 5
    ensures Weekday(ReportDay(start, i)) == i % 5
  {
    var f := FirstReportDay(start);
    if i > 0 {
      var j := i - 1;
      var prev := ReportDay(start, j);
      ReportDayClosedForm(start, j);
      assert ReportDay(start, i) == NextSchoolDay(prev);
      CountStep(i);
    }
    WeekOffset(f, i / 5, i % 5);
  }

  /** How the week number and the day within the week move on by one report. */
  lemma CountStep(i: nat)
    requires i > 0
    ensures (i - 1) % 5 == 4 ==> i / 5 == (i - 1) / 5 + 1 && i % 5 == 0
    ensures (i - 1) % 5 != 4 ==> i / 5 == (i - 1) / 5 && i % 5 == (i - 1) % 5 + 1
  {
  }

  lemma WeekOffset(monday: int, week: int, day: int)
    requires monday % 7 == 0 && 0 <= day < 5
    ensures (monday + 7 * week + day) % 7 == day
  {
  }

  /** Where the day-by-day walk stands after `k` report days: on the next
      report day, or past the last one on a day that is not a school day. */
  predicate Walking(start: int, k: nat, current: int) {
    current == ReportDay(start, k) ||
    (k > 0 && ReportDay(start, k - 1) < current < ReportDay(start, k))
  }

  /** A school day met on the walk is the next report day. */
  lemma WalkTake(start: int, k: nat, current: int)
    requires Walking(start, k, current) && IsSchoolDay(current)
    ensures current == ReportDay(start, k)
    ensures Walking(start, k + 1, current + 1)
  {
    if k > 0 && current != ReportDay(start, k) {
      NextSchoolDaySkipsWeekend(ReportDay(start, k - 1), current);
    }
    assert ReportDay(start, k + 1) == NextSchoolDay(current);
  }

  /** A weekend day met on the walk is skipped. */
  lemma WalkSkip(start: int, k: nat, current: int)
    requires Walking(start, k, current) && !IsSchoolDay(current)
    ensures Walking(start, k, current + 1)
  {
  }

  /** The first `n` report days. */
  function ReportDayList(start: int, n: nat): (r: seq<int>)
    ensures |r| == n
  {
    if n == 0 then [] else ReportDayList(start, n - 1) + [ReportDay(start, n - 1)]
  }

  lemma {:induction false} ReportDayListAt(start: int, n: nat)
    ensures forall i :: 0 <= i < n ==> ReportDayList(start, n)[i] == ReportDay(start, i)
  {
    if n > 0 {
      ReportDayListAt(start, n - 1);
      var r := ReportDayList(start, n);
      assert forall i :: 0 <= i < n - 1 ==> r[i] == ReportDayList(start, n - 1)[i];
    }
  }

  /** The report days of `generate_reports`: the loop that advances one day at
      a time and records every day whose weekday is below 5. */
  method ReportDays(start: int, numReports: int) returns (days: seq<int>)
    ensures |days| == if numReports > 0 then numReports else 0
    ensures forall i :: 0 <= i < |days| ==> days[i] == ReportDay(start, i)
    ensures forall i :: 0 <= i < |days| ==> IsSchoolDay(days[i])
    ensures |days| > 0 ==> days[0] == FirstReportDay(start)
    ensures forall i :: 0 < i < |days| ==> days[i] == NextSchoolDay(days[i - 1])
  {
    var current := FirstReportDay(start);
    days := [];
    while |days| < numReports
      invariant |days| <= if numReports > 0 then numReports else 0
      invariant days == ReportDayList(start, |days|)
      invariant Walking(start, |days|, current)
      decreases numReports - |days|, ReportDay(start, |days|) - current
    {
      ghost var k := |days|;
      if Weekday(current) < 5 {
        WalkTake(start, k, current);
        days := days + [current];
      } else {
        WalkSkip(start, k, current);
      }
      current := current + 1;
    }
    ReportDayListAt(start, |days|);
  }

  /** What the batch keeps of one report: its day and how many absences it
      lists. The PDF and CSV paths are derived from the day. */
  datatype Report = Report(day: int, absences: nat)

  /** The report of one day: that day's absences, or the error that stopped them. */
  function DayReport(teachers: seq<Teacher>, subs: seq<string>, day: int, d: DayDraw): (r: Result<Report, GenError>)
    requires ValidDayDraw(d, RuleFor(day % 7), |teachers|, |subs|)
    ensures subs != [] ==> r.Success?
    ensures r.Success? ==> r.value == Report(day, Min(d.count, |teachers|))
    ensures r.Failure? <==> GenerateAbsenceData(teachers, subs, day, d).Failure?
    ensures r.Failure? ==> r.error == GenerateAbsenceData(teachers, subs, day, d).error
  {
    match GenerateAbsenceData(teachers, subs, day, d)
    case Failure(e) => Failure(e)
    case Success(absences) => Success(Report(day, |absences|))
  }

  /** `reports` are those of the days from the `k`-th on: each day in turn, with
      as many absences as its draw asked for, at most one per teacher. */
  predicate ReportsMatch(reports: seq<Report>, days: seq<int>, draws: seq<DayDraw>, k: nat, teacherCount: nat)
    requires k <= |days| == |draws|
  {
    |reports| == |days| - k &&
    forall i :: 0 <= i < |reports| ==>
      reports[i].day == days[k + i] && reports[i].absences == Min(draws[k + i].count, teacherCount)
  }

  lemma MatchCons(first: Report, rest: seq<Report>, days: seq<int>, draws: seq<DayDraw>, k: nat, teacherCount: nat)
    requires k < |days| == |draws|
    requires first.day == days[k] && first.absences == Min(draws[k].count, teacherCount)
    requires ReportsMatch(rest, days, draws, k + 1, teacherCount)
    ensures ReportsMatch([first] + rest, days, draws, k, teacherCount)
  {
    var v := [first] + rest;
    forall i | 0 <= i < |v| ensures v[i].day == days[k + i] && v[i].absences == Min(draws[k + i].count, teacherCount) {
      if i > 0 {
        assert v[i] == rest[i - 1];
      }
    }
  }

  /** Some day from the `k`-th on fails with `e`, and every day before it in
      that range succeeds. */
  predicate FirstFailure(teachers: seq<Teacher>, subs: seq<string>, days: seq<int>, draws: seq<DayDraw>,
                         k: nat, e: GenError)
    requires k <= |days| == |draws|
    requires forall i :: 0 <= i < |days| ==>
      ValidDayDraw(draws[i], RuleFor(days[i] % 7), |teachers|, |subs|)
  {
    exists i :: k <= i < |days| && GenerateAbsenceData(teachers, subs, days[i], draws[i]) == Failure(e) &&
      forall j :: k <= j < i ==> GenerateAbsenceData(teachers, subs, days[j], draws[j]).Success?
  }

  /** The reports of the days from the `k`-th on. */
  function ReportsFrom(teachers: seq<Teacher>, subs: seq<string>, days: seq<int>, draws: seq<DayDraw>, k: nat)
    : (r: Result<seq<Report>, GenError>)
    requires k <= |days| == |draws|
    requires forall i :: 0 <= i < |days| ==>
      ValidDayDraw(draws[i], RuleFor(days[i] % 7), |teachers|, |subs|)
    ensures subs != [] ==> r.Success?
    ensures r.Success? ==> ReportsMatch(r.value, days, draws, k, |teachers|)
    ensures r.Failure? <==>
      exists i :: k <= i < |days| && GenerateAbsenceData(teachers, subs, days[i], draws[i]).Failure?
    ensures r.Failure? ==> FirstFailure(teachers, subs, days, draws, k, r.error)
    decreases |days| - k
  {
    if k == |days| then Success([])
    else
      var first := DayReport(teachers, subs, days[k], draws[k]);
      var rest := ReportsFrom(teachers, subs, days, draws, k + 1);
      if first.Failure? then
        FailsHere(teachers, subs, days, draws, k);
        Failure(first.error)
      else if rest.Failure? then
        FailsLater(teachers, subs, days, draws, k, rest.error);
        Failure(rest.error)
      else
        MatchCons(first.value, rest.value, days, draws, k, |teachers|);
        NoneFails(teachers, subs, days, draws, k);
        Success([first.value] + rest.value)
  }

  lemma FailsHere(teachers: seq<Teacher>, subs: seq<string>, days: seq<int>, draws: seq<DayDraw>, k: nat)
    requires k < |days| == |draws|
    requires forall i :: 0 <= i < |days| ==>
      ValidDayDraw(draws[i], RuleFor(days[i] % 7), |teachers|, |subs|)
    requires GenerateAbsenceData(teachers, subs, days[k], draws[k]).Failure?
    ensures FirstFailure(teachers, subs, days, draws, k, GenerateAbsenceData(teachers, subs, days[k], draws[k]).error)
    ensures exists i :: k <= i < |days| && GenerateAbsenceData(teachers, subs, days[i], draws[i]).Failure?
  {
  }

  lemma FailsLater(teachers: seq<Teacher>, subs: seq<string>, days: seq<int>, draws: seq<DayDraw>, k: nat, e: GenError)
    requires k < |days| == |draws|
    requires forall i :: 0 <= i < |days| ==>
      ValidDayDraw(draws[i], RuleFor(days[i] % 7), |teachers|, |subs|)
    requires GenerateAbsenceData(teachers, subs, days[k], draws[k]).Success?
    requires FirstFailure(teachers, subs, days, draws, k + 1, e)
    ensures FirstFailure(teachers, subs, days, draws, k, e)
    ensures exists i :: k <= i < |days| && GenerateAbsenceData(teachers, subs, days[i], draws[i]).Failure?
  {
    var i :| k + 1 <= i < |days| && GenerateAbsenceData(teachers, subs, days[i], draws[i]) == Failure(e) &&
      forall j :: k + 1 <= j < i ==> GenerateAbsenceData(teachers, subs, days[j], draws[j]).Success?;
    assert forall j :: k <= j < i ==> GenerateAbsenceData(teachers, subs, days[j], draws[j]).Success?;
  }

  lemma NoneFails(teachers: seq<Teacher>, subs: seq<string>, days: seq<int>, draws: seq<DayDraw>, k: nat)
    requires k < |days| == |draws|
    requires forall i :: 0 <= i < |days| ==>
      ValidDayDraw(draws[i], RuleFor(days[i] % 7), |teachers|, |subs|)
    requires GenerateAbsenceData(teachers, subs, days[k], draws[k]).Success?
    requires !exists i :: k + 1 <= i < |days| && GenerateAbsenceData(teachers, subs, days[i], draws[i]).Failure?
    ensures !exists i :: k <= i < |days| && GenerateAbsenceData(teachers, subs, days[i], draws[i]).Failure?
  {
  }

  /** The reports of a batch over its report days, one day's draws each; the
      first day that fails aborts the batch, which only a covered absence with
      no substitute to choose from can cause. */
  function GenerateReports(teachers: seq<Teacher>, subs: seq<string>, days: seq<int>, draws: seq<DayDraw>)
    : (r: Result<seq<Report>, GenError>)
    requires |draws| == |days|
    requires forall i :: 0 <= i < |days| ==>
      ValidDayDraw(draws[i], RuleFor(days[i] % 7), |teachers|, |subs|)
    ensures subs != [] ==> r.Success?
    ensures r.Success? ==> |r.value| == |days|
    ensures r.Success? ==> forall i :: 0 <= i < |days| ==>
      r.value[i].day == days[i] && r.value[i].absences == Min(draws[i].count, |teachers|)
    ensures r.Failure? <==>
      exists i :: 0 <= i < |days| && GenerateAbsenceData(teachers, subs, days[i], draws[i]).Failure?
    ensures r.Failure? ==> FirstFailure(teachers, subs, days, draws, 0, r.error)
  {
    ReportsFrom(teachers, subs, days, draws, 0)
  }

  /** `generate_reports` after the roster and substitute list are loaded: the
      report days from the start day on, and one report per day. */
  method RunBatch(teachers: seq<Teacher>, subs: seq<string>, start: int, numReports: int, draws: seq<DayDraw>)
    returns (r: Result<seq<Report>, GenError>)
    requires |draws| == if numReports > 0 then numReports else 0
    requires forall i :: 0 <= i < |draws| ==>
      ValidDayDraw(draws[i], RuleFor(ReportDay(start, i) % 7), |teachers|, |subs|)
    ensures subs != [] ==> r.Success?
    ensures r.Success? ==> |r.value| == |draws|
    ensures r.Success? ==> forall i :: 0 <= i < |draws| ==>
      r.value[i].day == ReportDay(start, i) && IsSchoolDay(r.value[i].day)
  {
    var days := ReportDays(start, numReports);
    r := GenerateReports(teachers, subs, days, draws);
  }
}
