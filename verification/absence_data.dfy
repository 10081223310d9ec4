/** The absence records of one report day. Every random draw of the generator
    (`random.randint`, `random.sample`, `random.choices`, `random.choice`,
    `random.random`) is an oracle value handed in by the caller and constrained
    to the range the draw can produce; the records are then a function of the
    roster, the substitute list, the report day and the draws. */
module AbsenceData {
  import opened Results
  import opened Text
  import Seqs
  import opened AbsenceRoster
  import Csv

  // ---------------------------------------------------------------------------
  // Configuration

  datatype Duration = FullDay | HalfDayAm | HalfDayPm

  function DurationName(d: Duration): string {
    match d
    case FullDay => "Full Day"
    case HalfDayAm => "Half Day AM"
    case HalfDayPm => "Half Day PM"
  }

  /** The shift times printed for each duration. */
  function ShiftTimes(d: Duration): string {
    match d
    case FullDay => "7:00 - 2:20"
    case HalfDayAm => "7:00 - 11:15"
    case HalfDayPm => "11:15 - 2:20"
  }

  /** Duration names are distinct, so a name tells its duration back. */
  lemma DurationNameInjective(d: Duration, e: Duration)
    ensures DurationName(d) == DurationName(e) <==> d == e
  {
  }

  const Reasons: seq<string> := [
    "Family Illness",
    "Personal Day",
    "Sick Day",
    "Professional Day",
    "Medical Appointment",
    "Bereavement"
  ]

  datatype Status = Approved | NoApprovalRequired

  /** The status cell, abbreviated with a line break as the report prints it. */
  function StatusText(s: Status): string {
    match s
    case Approved => "Approved"
    case NoApprovalRequired => "No Appr.\nReq."
  }

  /** The absence count range of a day and the chance, in thousandths, that an
      absence is covered by a substitute. */
  datatype DayRule = DayRule(minAbsences: nat, maxAbsences: nat, coveragePerMille: nat)

  const AbsenceRules: map<int, DayRule> := map[
    0 := DayRule(6, 8, 800),
    1 := DayRule(3, 5, 900),
    2 := DayRule(3, 5, 900),
    3 := DayRule(3, 5, 900),
    4 := DayRule(10, 12, 775)
  ]

  /** The rule of a weekday (0 is Monday); a weekday without a rule of its own
      takes Tuesday's. */
  function RuleFor(weekday: int): (r: DayRule)
    ensures r.minAbsences <= r.maxAbsences && r.coveragePerMille <= 1000
    ensures weekday == 0 ==> r == DayRule(6, 8, 800)
    ensures 1 <= weekday <= 3 ==> r == DayRule(3, 5, 900)
    ensures weekday == 4 ==> r == DayRule(10, 12, 775)
    ensures !(0 <= weekday <= 4) ==> r == DayRule(3, 5, 900)
  {
    if weekday in AbsenceRules then AbsenceRules[weekday] else AbsenceRules[1]
  }

  /** Only the five school days carry a rule; every other day behaves like Tuesday. */
  lemma RuleFallback(weekday: int)
    ensures weekday in AbsenceRules <==> 0 <= weekday <= 4
    ensures weekday !in AbsenceRules ==> RuleFor(weekday) == RuleFor(1)
  {
  }

  // ---------------------------------------------------------------------------
  // Generated fields

  const ConfLow := 680000000
  const ConfHigh := 689999999

  /** `generate_conf_number`: the drawn number in decimal. */
  function ConfNumber(draw: int): (r: string)
    requires ConfLow <= draw <= ConfHigh
    ensures |r| == 9
    ensures forall i :: 0 <= i < |r| ==> IsDigit(r[i])
    ensures DigitsValue(r) == draw
  {
    Pow10Values();
    DecimalValue(draw);
    DecimalLength(draw, 9);
    Decimal(draw)
  }

  /** The three numbers of `generate_phone`, each inside its `randint` range. */
  datatype PhoneDraw = PhoneDraw(area: int, exchange: int, line: int)

  predicate ValidPhoneDraw(p: PhoneDraw) {
    201 <= p.area <= 999 && 100 <= p.exchange <= 999 && 1000 <= p.line <= 9999
  }

  /** `(AAA) EEE-LLLL`. */
  function Phone(p: PhoneDraw): (r: string)
    requires ValidPhoneDraw(p)
    ensures |r| == 14
    ensures r[0] == '(' && r[4] == ')' && r[5] == ' ' && r[9] == '-'
    ensures forall i :: 0 <= i < 14 && i != 0 && i != 4 && i != 5 && i != 9 ==> IsDigit(r[i])
    ensures DigitsValue(r[1..4]) == p.area && DigitsValue(r[6..9]) == p.exchange
    ensures DigitsValue(r[10..]) == p.line
  {
    var a, e, l := Decimal(p.area), Decimal(p.exchange), Decimal(p.line);
    assert |a| == 3 && |e| == 3 && |l| == 4 by {
      Pow10Values();
      DecimalLength(p.area, 3);
      DecimalLength(p.exchange, 3);
      DecimalLength(p.line, 4);
    }
    DecimalValue(p.area);
    DecimalValue(p.exchange);
    DecimalValue(p.line);
    PhoneLayout(a, e, l);
    "(" + a + ") " + e + "-" + l
  }

  /** Where the three digit groups sit in `(AAA) EEE-LLLL`. */
  lemma PhoneLayout(a: string, e: string, l: string)
    requires |a| == 3 && |e| == 3 && |l| == 4
    requires forall i :: 0 <= i < |a| ==> IsDigit(a[i])
    requires forall i :: 0 <= i < |e| ==> IsDigit(e[i])
    requires forall i :: 0 <= i < |l| ==> IsDigit(l[i])
    ensures var r := "(" + a + ") " + e + "-" + l;
      && |r| == 14
      && r[0] == '(' && r[4] == ')' && r[5] == ' ' && r[9] == '-'
      && (forall i :: 0 <= i < 14 && i != 0 && i != 4 && i != 5 && i != 9 ==> IsDigit(r[i]))
      && r[1..4] == a && r[6..9] == e && r[10..] == l
  {
    var r := "(" + a + ") " + e + "-" + l;
    forall i | 0 <= i < 14 && i != 0 && i != 4 && i != 5 && i != 9 ensures IsDigit(r[i]) {
      if i < 4 {
        assert r[i] == a[i - 1];
      } else if i < 9 {
        assert r[i] == e[i - 6];
      } else {
        assert r[i] == l[i - 10];
      }
    }
    assert r[1..4] == a && r[6..9] == e && r[10..] == l;
  }

  // ---------------------------------------------------------------------------
  // random.sample

  /** Successive picks from a shrinking pool: the `t`-th pick chooses among the
      `n - t` elements not yet taken. */
  predicate ValidPicks(picks: seq<nat>, n: nat) {
    |picks| <= n && forall t :: 0 <= t < |picks| ==> picks[t] < n - t
  }

  /** `random.sample(pool, |picks|)`: distinct positions of the pool, in the
      order drawn. */
  function Sample<T>(pool: seq<T>, picks: seq<nat>): (r: seq<T>)
    requires ValidPicks(picks, |pool|)
    ensures |r| == |picks|
    ensures multiset(r) <= multiset(pool)
  {
    if picks == [] then []
    else
      var j := picks[0];
      var left := pool[..j] + pool[j + 1..];
      assert pool == pool[..j] + [pool[j]] + pool[j + 1..];
      assert ValidPicks(picks[1..], |left|) by {
        assert forall t :: 0 <= t < |picks[1..]| ==> picks[1..][t] == picks[t + 1];
      }
      var rest := Sample(left, picks[1..]);
      assert multiset([pool[j]] + rest) == multiset{pool[j]} + multiset(rest);
      [pool[j]] + rest
  }

  /** A sample of a list without repeats has no repeats. */
  lemma SampleDistinct<T>(pool: seq<T>, picks: seq<nat>)
    requires ValidPicks(picks, |pool|)
    requires Seqs.Distinct(pool)
    ensures Seqs.Distinct(Sample(pool, picks))
  {
    var r := Sample(pool, picks);
    forall i, j | 0 <= i < j < |r| ensures r[i] != r[j] {
      if r[i] == r[j] {
        var x := r[i];
        assert multiset(r)[x] >= 2 by {
          assert r == r[..i] + [x] + r[i + 1..j] + [x] + r[j + 1..];
        }
        DistinctCount(pool, x);
        assert false;
      }
    }
  }

  /** In a list without repeats every element occurs at most once. */
  lemma {:induction false} DistinctCount<T>(s: seq<T>, x: T)
    requires Seqs.Distinct(s)
    ensures multiset(s)[x] <= 1
  {
    if s != [] {
      assert Seqs.Distinct(s[1..]) by {
        assert forall k :: 0 <= k < |s[1..]| ==> s[1..][k] == s[k + 1];
      }
      DistinctCount(s[1..], x);
      assert s == [s[0]] + s[1..];
      if x == s[0] {
        assert x !in s[1..] by {
          assert forall k :: 0 <= k < |s[1..]| ==> s[1..][k] == s[k + 1];
        }
      }
    }
  }

  // ---------------------------------------------------------------------------
  // One record

  /** The draws that go into one absence record, each within its range.
      `coverRoll` is the 53-bit integer behind `random.random()`, which returns
      `coverRoll / 2^53`. */
  datatype RecordDraw = RecordDraw(
    duration: Duration,
    reasonIndex: nat,
    coverRoll: nat,
    daysAgo: int,
    hour: int,
    minute: int,
    conf: int,
    status: Status,
    subIndex: nat,
    phone: PhoneDraw)

  const RollScale: nat := 0x20_0000_0000_0000

  predicate ValidRecordDraw(d: RecordDraw, subCount: nat) {
    && d.reasonIndex < |Reasons|
    && d.coverRoll < RollScale
    && 1 <= d.daysAgo <= 7
    && 6 <= d.hour <= 20
    && 0 <= d.minute <= 59
    && ConfLow <= d.conf <= ConfHigh
    && (subCount > 0 ==> d.subIndex < subCount)
    && ValidPhoneDraw(d.phone)
  }

  /** `random.random() < coverage`, with the coverage in thousandths. */
  predicate Covered(d: RecordDraw, coveragePerMille: nat) {
    d.coverRoll * 1000 < coveragePerMille * RollScale
  }

  datatype Absence = Absence(
    confNumber: string,
    entryDay: int,
    entryHour: int,
    entryMinute: int,
    school: string,
    teacherName: string,
    department: string,
    employeeType: string,
    shift: string,
    shiftTimes: string,
    duration: Duration,
    reason: string,
    status: Status,
    hasSub: bool,
    subName: Option<string>,
    subPhone: Option<string>)

  /** `random.choice([])` raises IndexError. */
  datatype GenError = NoSubstitutes

  /** What every generated record satisfies. */
  predicate WellFormed(a: Absence, subs: seq<string>, reportDay: int) {
    && (a.hasSub <==> a.subName.Some?)
    && (a.hasSub <==> a.subPhone.Some?)
    && (a.hasSub ==> a.subName.value in subs && |a.subPhone.value| == 14)
    && a.shiftTimes == ShiftTimes(a.duration)
    && a.reason in Reasons
    && |a.confNumber| == 9 && (forall i :: 0 <= i < 9 ==> IsDigit(a.confNumber[i]))
    && ConfLow <= DigitsValue(a.confNumber) <= ConfHigh
    && reportDay - 7 <= a.entryDay <= reportDay - 1
    && 6 <= a.entryHour <= 20 && 0 <= a.entryMinute <= 59
    && a.school == "SBHS" && a.employeeType == "Teacher" && a.shift == "Employee Times"
  }

  /** The loop body of `generate_absence_data` for one absent teacher. */
  function MakeAbsence(t: Teacher, subs: seq<string>, reportDay: int, coveragePerMille: nat, d: RecordDraw)
    : (r: Result<Absence, GenError>)
    requires ValidRecordDraw(d, |subs|)
    ensures r.Failure? <==> Covered(d, coveragePerMille) && subs == []
    ensures r.Success? ==> WellFormed(r.value, subs, reportDay)
    ensures r.Success? ==> r.value.teacherName == t.name && r.value.department == t.department
    ensures r.Success? ==> r.value.hasSub == Covered(d, coveragePerMille)
    ensures r.Success? ==> r.value.duration == d.duration
  {
    var hasSub := Covered(d, coveragePerMille);
    if hasSub && subs == [] then Failure(NoSubstitutes)
    else
      var conf := ConfNumber(d.conf);
      var base := Absence(
        conf, reportDay - d.daysAgo, d.hour, d.minute, "SBHS", t.name, t.department,
        "Teacher", "Employee Times", ShiftTimes(d.duration), d.duration,
        Reasons[d.reasonIndex], d.status, hasSub, None, None);
      if hasSub then
        Success(base.(subName := Some(subs[d.subIndex]), subPhone := Some(Phone(d.phone))))
      else Success(base)
  }

  // ---------------------------------------------------------------------------
  // One day

  /** The draws of one day: the absence count, the sample picks and one record
      draw per absent teacher. */
  datatype DayDraw = DayDraw(count: int, picks: seq<nat>, records: seq<RecordDraw>)

  function Min(a: int, b: int): int { if a <= b then a else b }

  predicate ValidDayDraw(d: DayDraw, rule: DayRule, teacherCount: nat, subCount: nat) {
    && rule.minAbsences <= d.count <= rule.maxAbsences
    && |d.picks| == Min(d.count, teacherCount)
    && ValidPicks(d.picks, teacherCount)
    && |d.records| == |d.picks|
    && forall i :: 0 <= i < |d.records| ==> ValidRecordDraw(d.records[i], subCount)
  }

  /** No draw of the day asks for a substitute. */
  predicate NoneCovered(draws: seq<RecordDraw>, coveragePerMille: nat) {
    forall i :: 0 <= i < |draws| ==> !Covered(draws[i], coveragePerMille)
  }

  /** `records` are those of the absent teachers from the `k`-th on, each made
      from its own draws. */
  predicate RecordsMatch(records: seq<Absence>, absent: seq<Teacher>, subs: seq<string>, reportDay: int,
                         coveragePerMille: nat, draws: seq<RecordDraw>, k: nat)
    requires k <= |absent| == |draws|
    requires forall i :: 0 <= i < |draws| ==> ValidRecordDraw(draws[i], |subs|)
  {
    |records| == |absent| - k &&
    forall i :: 0 <= i < |records| ==>
      MakeAbsence(absent[k + i], subs, reportDay, coveragePerMille, draws[k + i]) == Success(records[i])
  }

  lemma RecordsCons(first: Absence, rest: seq<Absence>, absent: seq<Teacher>, subs: seq<string>, reportDay: int,
                    coveragePerMille: nat, draws: seq<RecordDraw>, k: nat)
    requires k < |absent| == |draws|
    requires forall i :: 0 <= i < |draws| ==> ValidRecordDraw(draws[i], |subs|)
    requires MakeAbsence(absent[k], subs, reportDay, coveragePerMille, draws[k]) == Success(first)
    requires RecordsMatch(rest, absent, subs, reportDay, coveragePerMille, draws, k + 1)
    ensures RecordsMatch([first] + rest, absent, subs, reportDay, coveragePerMille, draws, k)
  {
    var v := [first] + rest;
    forall i | 0 <= i < |v|
      ensures MakeAbsence(absent[k + i], subs, reportDay, coveragePerMille, draws[k + i]) == Success(v[i])
    {
      if i > 0 {
        assert v[i] == rest[i - 1];
      }
    }
  }

  /** The records of the absent teachers from the `k`-th on. */
  function MakeFrom(absent: seq<Teacher>, subs: seq<string>, reportDay: int, coveragePerMille: nat,
                    draws: seq<RecordDraw>, k: nat): (r: Result<seq<Absence>, GenError>)
    requires k <= |absent| == |draws|
    requires forall i :: 0 <= i < |draws| ==> ValidRecordDraw(draws[i], |subs|)
    ensures r.Success? <==> subs != [] || forall i :: k <= i < |draws| ==> !Covered(draws[i], coveragePerMille)
    ensures r.Success? ==> RecordsMatch(r.value, absent, subs, reportDay, coveragePerMille, draws, k)
    decreases |absent| - k
  {
    if k == |absent| then Success([])
    else
      var first := MakeAbsence(absent[k], subs, reportDay, coveragePerMille, draws[k]);
      var rest := MakeFrom(absent, subs, reportDay, coveragePerMille, draws, k + 1);
      if first.Failure? then Failure(first.error)
      else if rest.Failure? then Failure(rest.error)
      else
        RecordsCons(first.value, rest.value, absent, subs, reportDay, coveragePerMille, draws, k);
        Success([first.value] + rest.value)
  }

  /** The records of the absent teachers, in sample order; the first covered
      absence with no substitute to choose from raises. */
  function MakeAll(absent: seq<Teacher>, subs: seq<string>, reportDay: int, coveragePerMille: nat,
                   draws: seq<RecordDraw>): (r: Result<seq<Absence>, GenError>)
    requires |draws| == |absent|
    requires forall i :: 0 <= i < |draws| ==> ValidRecordDraw(draws[i], |subs|)
    ensures r.Success? <==> subs != [] || NoneCovered(draws, coveragePerMille)
    ensures r.Success? ==> |r.value| == |absent|
    ensures r.Success? ==> forall i :: 0 <= i < |absent| ==>
      MakeAbsence(absent[i], subs, reportDay, coveragePerMille, draws[i]) == Success(r.value[i])
  {
    MakeFrom(absent, subs, reportDay, coveragePerMille, draws, 0)
  }

  /** `generate_absence_data` for the day numbered `reportDay` (weekday
      `reportDay % 7`, 0 being Monday). */
  function GenerateAbsenceData(teachers: seq<Teacher>, subs: seq<string>, reportDay: int, d: DayDraw)
    : (r: Result<seq<Absence>, GenError>)
    requires ValidDayDraw(d, RuleFor(reportDay % 7), |teachers|, |subs|)
    ensures r.Success? ==> |r.value| == Min(d.count, |teachers|)
    ensures r.Success? <==> subs != [] || NoneCovered(d.records, RuleFor(reportDay % 7).coveragePerMille)
  {
    var rule := RuleFor(reportDay % 7);
    var absent := Sample(teachers, d.picks);
    MakeAll(absent, subs, reportDay, rule.coveragePerMille, d.records)
  }

  /** Every generated record is well formed, is for one of the sampled teachers,
      and no teacher is absent twice: the records' teachers occupy distinct
      places of the roster. */
  lemma GeneratedRecords(teachers: seq<Teacher>, subs: seq<string>, reportDay: int, d: DayDraw)
    requires ValidDayDraw(d, RuleFor(reportDay % 7), |teachers|, |subs|)
    requires GenerateAbsenceData(teachers, subs, reportDay, d).Success?
    ensures var r := GenerateAbsenceData(teachers, subs, reportDay, d).value;
      forall i :: 0 <= i < |r| ==> WellFormed(r[i], subs, reportDay)
    ensures var r := GenerateAbsenceData(teachers, subs, reportDay, d).value;
      multiset(Seqs.Map(TeacherOfRecord, r)) <= multiset(teachers)
  {
    var rule := RuleFor(reportDay % 7);
    var absent := Sample(teachers, d.picks);
    var r := GenerateAbsenceData(teachers, subs, reportDay, d).value;
    assert Seqs.Map(TeacherOfRecord, r) == absent by {
      forall i | 0 <= i < |r| ensures TeacherOfRecord(r[i]) == absent[i] {
        assert MakeAbsence(absent[i], subs, reportDay, rule.coveragePerMille, d.records[i]) == Success(r[i]);
      }
    }
  }

  /** The teacher a record is for. */
  function TeacherOfRecord(a: Absence): Teacher {
    Teacher(a.teacherName, a.department)
  }

  /** The drawn count lies in the day's range, so a roster at least as large as
      the range's bottom yields a record count inside the range. */
  lemma GeneratedCount(teachers: seq<Teacher>, subs: seq<string>, reportDay: int, d: DayDraw)
    requires ValidDayDraw(d, RuleFor(reportDay % 7), |teachers|, |subs|)
    requires GenerateAbsenceData(teachers, subs, reportDay, d).Success?
    ensures var n := |GenerateAbsenceData(teachers, subs, reportDay, d).value|;
      n <= |teachers| && n <= RuleFor(reportDay % 7).maxAbsences
    ensures |teachers| >= RuleFor(reportDay % 7).minAbsences ==>
      RuleFor(reportDay % 7).minAbsences <= |GenerateAbsenceData(teachers, subs, reportDay, d).value|
  {
  }

  // ---------------------------------------------------------------------------
  // The report's two sections and the CSV

  predicate HasSub(a: Absence) { a.hasSub }
  predicate NoSub(a: Absence) { !a.hasSub }

  /** The absences with a substitute, in generation order. */
  function Filled(absences: seq<Absence>): (r: seq<Absence>)
    ensures forall i :: 0 <= i < |r| ==> r[i].hasSub
    ensures Seqs.Sublist(r, absences)
  {
    Seqs.FilterSublist(absences, HasSub);
    Seqs.Filter(absences, HasSub)
  }

  /** The absences without one, in generation order. */
  function Unfilled(absences: seq<Absence>): (r: seq<Absence>)
    ensures forall i :: 0 <= i < |r| ==> !r[i].hasSub
    ensures Seqs.Sublist(r, absences)
  {
    Seqs.FilterSublist(absences, NoSub);
    Seqs.Filter(absences, NoSub)
  }

  /** The two sections split the day's absences: nothing is lost or doubled. */
  lemma FilledUnfilledPartition(absences: seq<Absence>)
    ensures |Filled(absences)| + |Unfilled(absences)| == |absences|
    ensures multiset(Filled(absences)) + multiset(Unfilled(absences)) == multiset(absences)
  {
    Seqs.FilterComplement(absences, HasSub, NoSub);
  }

  /** `create_csv_report`: a header row, then each absence's teacher and duration. */
  function CsvRows(absences: seq<Absence>): (r: seq<seq<string>>)
    ensures |r| == |absences| + 1
    ensures r[0] == ["Name", "Duration"]
    ensures forall i :: 0 <= i < |absences| ==>
      |r[i + 1]| == 2 && r[i + 1][0] == absences[i].teacherName &&
      r[i + 1][1] == DurationName(absences[i].duration)
  {
    [["Name", "Duration"]] + Seqs.Map(NameAndDuration, absences)
  }

  function NameAndDuration(a: Absence): seq<string> {
    [a.teacherName, DurationName(a.duration)]
  }

  /** The file `create_csv_report` writes, one record per row, each field quoted
      by the writer where needed (teacher names hold a comma). */
  function CsvLines(absences: seq<Absence>): (r: seq<string>)
    ensures |r| == |absences| + 1
  {
    Seqs.Map(Csv.RenderRow, CsvRows(absences))
  }

  /** Reading the written report back gives each absence's teacher and duration. */
  lemma CsvLinesRead(absences: seq<Absence>, i: nat)
    requires i < |absences|
    ensures Csv.ParseRow(CsvLines(absences)[i + 1])
         == Some([absences[i].teacherName, DurationName(absences[i].duration)])
  {
    var row := CsvRows(absences)[i + 1];
    Csv.ParseRender(row);
    assert row == [absences[i].teacherName, DurationName(absences[i].duration)];
  }
}
