/** The seven-day strip: per-day counts of project and area work, the
    active-project total, and the day number shown on each tile. */
module WeeklySummary {
  import opened Strings
  import opened Seqs
  import opened Types
  import opened Derived
  import DateKeys

  datatype DaySummary = DaySummary(projectCount: nat, areaCount: nat, total: nat)

  /** `getDaySummary`: the two counts never overlap, so together they never
      exceed the number of tasks on the day. */
  function GetDaySummary(ts: seq<Task>, date: string): (s: DaySummary)
    ensures s.total == |TasksOn(ts, date)|
    ensures s.projectCount + s.areaCount <= s.total
  {
    var dayTasks := TasksOn(ts, date);
    CountDisjoint(dayTasks, ProjectRelated, GeneralArea);
    DaySummary(Count(dayTasks, ProjectRelated), Count(dayTasks, GeneralArea), |dayTasks|)
  }

  function ProjectOn(date: string): Task -> bool {
    (t: Task) => t.date == date && ProjectRelated(t)
  }

  function AreaOn(date: string): Task -> bool {
    (t: Task) => t.date == date && GeneralArea(t)
  }

  /** Each count is the number of tasks of the whole list that are on the
      day and in that group. */
  lemma DaySummaryCounts(ts: seq<Task>, date: string)
    ensures GetDaySummary(ts, date).total == Count(ts, OnDate(date))
    ensures GetDaySummary(ts, date).projectCount == Count(ts, ProjectOn(date))
    ensures GetDaySummary(ts, date).areaCount == Count(ts, AreaOn(date))
  {
    FilterLength(ts, OnDate(date));
    CountOfFilterBoth(ts, OnDate(date), ProjectRelated, ProjectOn(date));
    CountOfFilterBoth(ts, OnDate(date), GeneralArea, AreaOn(date));
  }

  /** A project-linked Areas task counts as project work only. */
  lemma LinkedAreaTaskIsProjectWork(t: Task)
    requires t.category == Areas && Present(t.projectId)
    ensures ProjectRelated(t) && !GeneralArea(t)
  {
  }

  /** `activeProjectTotal`. */
  function ActiveProjectTotal(ps: seq<Project>): (n: nat)
    ensures n <= |ps|
    ensures n == Count(ps, IsActive)
  {
    ActiveProjectCount(ps);
    FilterLength(ps, IsActive);
    |ActiveProjects(ps)|
  }

  /** `dateStr.split('-')[2]`; `None` stands for `undefined`. */
  function GetDayNum(key: string): (r: Option<string>)
    ensures r.Some? <==> |Split(key, '-')| >= 3
    ensures r.Some? ==> '-' !in r.value
  {
    var pieces := Split(key, '-');
    if |pieces| >= 3 then
      SplitPiecesLackSeparator(key, '-');
      Some(pieces[2])
    else None
  }

  /** On a key built by the date service the day number is the two-digit day. */
  lemma DayNumOfKey(d: DateKeys.LocalDate)
    requires DateKeys.InRange(d)
    ensures GetDayNum(DateKeys.FormatDateToKey(d)) == Some(Digits(d.day, 2))
  {
    DateKeys.KeyFields(d);
    var y, m, dd := Digits(d.year, 4), Digits(d.monthIndex + 1, 2), Digits(d.day, 2);
    DigitsLackDash(y);
    DigitsLackDash(m);
    DigitsLackDash(dd);
    ThreeFields(y, m, dd);
  }

  lemma ThreeFields(y: string, m: string, dd: string)
    requires '-' !in y && '-' !in m && '-' !in dd
    ensures Split(y + ("-" + (m + ("-" + dd))), '-') == [y, m, dd]
  {
    SplitNoSeparator(dd, '-');
    SplitAtSeparator(m, '-', dd);
    assert m + ("-" + dd) == m + ['-'] + dd;
    SplitAtSeparator(y, '-', m + ("-" + dd));
    assert y + ("-" + (m + ("-" + dd))) == y + ['-'] + (m + ("-" + dd));
  }

  lemma DigitsLackDash(s: string)
    requires forall i :: 0 <= i < |s| ==> IsDigit(s[i])
    ensures '-' !in s
  {
  }
}
