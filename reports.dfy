/** The weekly summary (Cloksy_app.py:173-219): the session's logs of the
    last seven days, their totals per project, the weekday pivots per
    employee and per department, and the long-form department table. */
module Reports {
  import opened Dates
  import opened Tables
  import opened Order

  // ----- The window -----

  /** `df_w`: the session's logs dated no earlier than a week ago, in table order. */
  function Window(logs: seq<TimeLog>, email: string, now: Instant): (r: seq<TimeLog>)
    ensures |r| <= |logs|
    ensures forall l :: l in r <==> l in logs && l.email == email && InLastWeek(l.date, now)
  {
    if |logs| == 0 then []
    else
      var init := logs[..|logs| - 1];
      var l := logs[|logs| - 1];
      assert logs == init + [l];
      var rest := Window(init, email, now);
      if l.email == email && InLastWeek(l.date, now) then rest + [l] else rest
  }

  /** The window is the order-preserving filter of the table: it distributes
      over appended rows, so every matching copy of a row is kept (a second
      press of "Save Timesheet" counts twice in every sum). */
  lemma {:induction false} WindowAppend(logs: seq<TimeLog>, more: seq<TimeLog>, email: string, now: Instant)
    ensures Window(logs + more, email, now) == Window(logs, email, now) + Window(more, email, now)
    decreases |more|
  {
    if |more| == 0 {
      assert logs + more == logs;
    } else {
      var init := more[..|more| - 1];
      assert (logs + more)[..|logs + more| - 1] == logs + init;
      assert (logs + more)[|logs + more| - 1] == more[|more| - 1];
      WindowAppend(logs, init, email, now);
    }
  }

  /** One row on its own is in the window exactly when it matches. */
  lemma WindowSingle(l: TimeLog, email: string, now: Instant)
    ensures Window([l], email, now) == if l.email == email && InLastWeek(l.date, now) then [l] else []
  {
    assert [l][..0] == [];
  }

  /** The window day by day: a log of the last six days (or a later one) is
      in; one dated exactly a week back is in only when `now` is midnight. */
  lemma WindowDays(logs: seq<TimeLog>, email: string, now: Instant)
    requires now.Valid()
    ensures forall l :: l in Window(logs, email, now) <==>
              && l in logs && l.email == email
              && (l.date > now.day - 7 || (l.date == now.day - 7 && now.micros == 0))
  {
    forall l | l in logs {
      InLastWeekIff(l.date, now);
    }
  }

  // ----- Rows of hours and their sums -----

  /** A row of hours as the summaries group it: department, the English name
      of its day, project and hours. The department table's rows have this
      shape too. */
  datatype Fact = Fact(department: string, day: string, project: string, hours: real)

  /** The window with the `day` column added (`dt.day_name()`). */
  function LogFacts(logs: seq<TimeLog>): (r: seq<Fact>)
    ensures |r| == |logs|
    ensures forall i :: 0 <= i < |logs| ==>
              r[i] == Fact(logs[i].department, DayName(logs[i].date), logs[i].project, logs[i].hours)
  {
    if |logs| == 0 then []
    else
      var l := logs[|logs| - 1];
      LogFacts(logs[..|logs| - 1]) + [Fact(l.department, DayName(l.date), l.project, l.hours)]
  }

  function Sum(xs: seq<real>): real
  {
    if |xs| == 0 then 0.0 else Sum(xs[..|xs| - 1]) + xs[|xs| - 1]
  }

  lemma SumSnoc(xs: seq<real>, x: real)
    ensures Sum(xs + [x]) == Sum(xs) + x
  {
    assert (xs + [x])[..|xs|] == xs;
  }

  /** The `hours` column summed. */
  function FactHours(facts: seq<Fact>): real
  {
    if |facts| == 0 then 0.0 else FactHours(facts[..|facts| - 1]) + facts[|facts| - 1].hours
  }

  lemma FactHoursSnoc(facts: seq<Fact>, f: Fact)
    ensures FactHours(facts + [f]) == FactHours(facts) + f.hours
  {
    assert (facts + [f])[..|facts|] == facts;
  }

  /** The rows of one project. */
  function OfProject(facts: seq<Fact>, p: string): (r: seq<Fact>)
    ensures |r| <= |facts|
  {
    if |facts| == 0 then []
    else
      var init := facts[..|facts| - 1];
      var f := facts[|facts| - 1];
      var rest := OfProject(init, p);
      if f.project == p then rest + [f] else rest
  }

  /** The rows of one day name. */
  function OnDay(facts: seq<Fact>, day: string): (r: seq<Fact>)
    ensures |r| <= |facts|
  {
    if |facts| == 0 then []
    else
      var init := facts[..|facts| - 1];
      var f := facts[|facts| - 1];
      var rest := OnDay(init, day);
      if f.day == day then rest + [f] else rest
  }

  /** The rows of one department. */
  function OfDepartment(facts: seq<Fact>, d: string): (r: seq<Fact>)
    ensures |r| <= |facts|
  {
    if |facts| == 0 then []
    else
      var init := facts[..|facts| - 1];
      var f := facts[|facts| - 1];
      var rest := OfDepartment(init, d);
      if f.department == d then rest + [f] else rest
  }

  lemma OfProjectSnoc(facts: seq<Fact>, f: Fact, p: string)
    ensures OfProject(facts + [f], p) == OfProject(facts, p) + (if f.project == p then [f] else [])
  {
    assert (facts + [f])[..|facts|] == facts;
  }

  lemma OnDaySnoc(facts: seq<Fact>, f: Fact, day: string)
    ensures OnDay(facts + [f], day) == OnDay(facts, day) + (if f.day == day then [f] else [])
  {
    assert (facts + [f])[..|facts|] == facts;
  }

  lemma OfDepartmentSnoc(facts: seq<Fact>, f: Fact, d: string)
    ensures OfDepartment(facts + [f], d) == OfDepartment(facts, d) + (if f.department == d then [f] else [])
  {
    assert (facts + [f])[..|facts|] == facts;
  }

  lemma {:induction false} OfProjectMembers(facts: seq<Fact>, p: string)
    ensures forall f :: f in OfProject(facts, p) <==> f in facts && f.project == p
    decreases |facts|
  {
    if |facts| > 0 {
      var n := |facts| - 1;
      assert facts == facts[..n] + [facts[n]];
      OfProjectMembers(facts[..n], p);
    }
  }

  lemma {:induction false} OnDayMembers(facts: seq<Fact>, day: string)
    ensures forall f :: f in OnDay(facts, day) <==> f in facts && f.day == day
    decreases |facts|
  {
    if |facts| > 0 {
      var n := |facts| - 1;
      assert facts == facts[..n] + [facts[n]];
      OnDayMembers(facts[..n], day);
    }
  }

  lemma {:induction false} OfDepartmentMembers(facts: seq<Fact>, d: string)
    ensures forall f :: f in OfDepartment(facts, d) <==> f in facts && f.department == d
    decreases |facts|
  {
    if |facts| > 0 {
      var n := |facts| - 1;
      assert facts == facts[..n] + [facts[n]];
      OfDepartmentMembers(facts[..n], d);
    }
  }

  /** The `project` column. */
  function ProjectColumn(facts: seq<Fact>): (r: seq<string>)
    ensures |r| == |facts|
    ensures forall i :: 0 <= i < |facts| ==> r[i] == facts[i].project
  {
    if |facts| == 0 then [] else ProjectColumn(facts[..|facts| - 1]) + [facts[|facts| - 1].project]
  }

  /** One summed cell per column: the hours of each project. */
  function Cells(facts: seq<Fact>, columns: seq<string>): (r: seq<real>)
    ensures |r| == |columns|
    ensures forall j {:trigger r[j]} :: 0 <= j < |columns| ==> r[j] == FactHours(OfProject(facts, columns[j]))
  {
    if |columns| == 0 then []
    else Cells(facts, columns[..|columns| - 1]) + [FactHours(OfProject(facts, columns[|columns| - 1]))]
  }

  lemma SumCellsNext(facts: seq<Fact>, columns: seq<string>)
    requires |columns| > 0
    ensures var n := |columns| - 1;
      Sum(Cells(facts, columns)) == Sum(Cells(facts, columns[..n])) + FactHours(OfProject(facts, columns[n]))
  {
    var n := |columns| - 1;
    SumSnoc(Cells(facts, columns[..n]), FactHours(OfProject(facts, columns[n])));
  }

  /** One more row adds its hours to the cell of its project, if that is a column. */
  lemma {:induction false} CellsSnoc(facts: seq<Fact>, f: Fact, columns: seq<string>)
    requires Distinct(columns)
    ensures Sum(Cells(facts + [f], columns)) == Sum(Cells(facts, columns)) + (if f.project in columns then f.hours else 0.0)
    decreases |columns|
  {
    if |columns| > 0 {
      var n := |columns| - 1;
      var c := columns[n];
      assert columns == columns[..n] + [c];
      CellsSnoc(facts, f, columns[..n]);
      SumCellsNext(facts + [f], columns);
      SumCellsNext(facts, columns);
      OfProjectSnoc(facts, f, c);
      if f.project == c {
        FactHoursSnoc(OfProject(facts, c), f);
      } else {
        assert OfProject(facts, c) + [] == OfProject(facts, c);
      }
    }
  }

  lemma {:induction false} CellsOfNothing(columns: seq<string>)
    ensures Sum(Cells([], columns)) == 0.0
    decreases |columns|
  {
    if |columns| > 0 {
      CellsOfNothing(columns[..|columns| - 1]);
      SumCellsNext([], columns);
    }
  }

  /** Grouping by project loses no hours: when the columns are distinct and
      every row's project is one of them, the cells add up to all the hours. */
  lemma {:induction false} Partition(facts: seq<Fact>, columns: seq<string>)
    requires Distinct(columns)
    requires forall i :: 0 <= i < |facts| ==> facts[i].project in columns
    ensures Sum(Cells(facts, columns)) == FactHours(facts)
    decreases |facts|
  {
    if |facts| == 0 {
      CellsOfNothing(columns);
    } else {
      var n := |facts| - 1;
      assert facts == facts[..n] + [facts[n]];
      Partition(facts[..n], columns);
      CellsSnoc(facts[..n], facts[n], columns);
    }
  }

  /** The column keys of a grouping by project: each project of the rows once. */
  lemma ProjectKeys(facts: seq<Fact>)
    ensures var keys := SortedKeys(StrLess, ProjectColumn(facts));
      && Distinct(keys)
      && (forall f :: f in facts ==> f.project in keys)
      && (forall j :: 0 <= j < |keys| ==> exists f :: f in facts && f.project == keys[j])
  {
    var keys := SortedKeys(StrLess, ProjectColumn(facts));
    StringKeys(ProjectColumn(facts));
    forall f | f in facts ensures f.project in keys {
      var i :| 0 <= i < |facts| && facts[i] == f;
      assert ProjectColumn(facts)[i] in Elems(ProjectColumn(facts));
    }
    forall j | 0 <= j < |keys| ensures exists f :: f in facts && f.project == keys[j] {
      assert keys[j] in Elems(keys);
      var i :| 0 <= i < |facts| && ProjectColumn(facts)[i] == keys[j];
      assert facts[i] in facts;
    }
  }

  // ----- Project totals -----

  /** A row of `proj_tot`. */
  datatype ProjectTotal = ProjectTotal(project: string, hours: real)

  function Totals(facts: seq<Fact>, keys: seq<string>): (r: seq<ProjectTotal>)
    ensures |r| == |keys|
    ensures forall i {:trigger r[i]} :: 0 <= i < |keys| ==> r[i] == ProjectTotal(keys[i], FactHours(OfProject(facts, keys[i])))
  {
    if |keys| == 0 then []
    else
      var k := keys[|keys| - 1];
      Totals(facts, keys[..|keys| - 1]) + [ProjectTotal(k, FactHours(OfProject(facts, k)))]
  }

  /** `df_w.groupby("project")["hours"].sum()`. */
  function ProjectTotals(facts: seq<Fact>): seq<ProjectTotal>
  {
    Totals(facts, SortedKeys(StrLess, ProjectColumn(facts)))
  }

  /** The `hours` column of the totals, summed. */
  function TotalsHours(r: seq<ProjectTotal>): real
  {
    if |r| == 0 then 0.0 else TotalsHours(r[..|r| - 1]) + r[|r| - 1].hours
  }

  lemma {:induction false} TotalsHoursCells(facts: seq<Fact>, keys: seq<string>)
    ensures TotalsHours(Totals(facts, keys)) == Sum(Cells(facts, keys))
    decreases |keys|
  {
    if |keys| > 0 {
      var n := |keys| - 1;
      TotalsHoursCells(facts, keys[..n]);
      SumCellsNext(facts, keys);
      assert Totals(facts, keys)[..n] == Totals(facts, keys[..n]);
    }
  }

  /** The totals come in ascending project order, each holding its project's hours. */
  lemma ProjectTotalsOrder(facts: seq<Fact>)
    ensures var r := ProjectTotals(facts);
      && (forall i, j :: 0 <= i < j < |r| ==> StrLess(r[i].project, r[j].project))
      && (forall i :: 0 <= i < |r| ==> r[i].hours == FactHours(OfProject(facts, r[i].project)))
  {
    StringKeys(ProjectColumn(facts));
  }

  /** A project of the week has its totals row. */
  lemma ProjectTotalHas(facts: seq<Fact>, f: Fact)
    requires f in facts
    ensures exists i :: 0 <= i < |ProjectTotals(facts)| && ProjectTotals(facts)[i].project == f.project
  {
    var keys := SortedKeys(StrLess, ProjectColumn(facts));
    var r := ProjectTotals(facts);
    assert r == Totals(facts, keys);
    ProjectKeys(facts);
    var i :| 0 <= i < |keys| && keys[i] == f.project;
    assert r[i].project == f.project;
  }

  /** A totals row belongs to a project of the week. */
  lemma ProjectTotalFrom(facts: seq<Fact>, i: int)
    requires 0 <= i < |ProjectTotals(facts)|
    ensures exists f :: f in facts && f.project == ProjectTotals(facts)[i].project
  {
    var keys := SortedKeys(StrLess, ProjectColumn(facts));
    var r := ProjectTotals(facts);
    assert r == Totals(facts, keys);
    ProjectKeys(facts);
    assert r[i].project == keys[i];
  }

  /** One row per project of the week, and none for a project without hours logged. */
  lemma ProjectTotalsCover(facts: seq<Fact>)
    ensures var r := ProjectTotals(facts);
      && (forall f :: f in facts ==> exists i :: 0 <= i < |r| && r[i].project == f.project)
      && (forall i :: 0 <= i < |r| ==> exists f :: f in facts && f.project == r[i].project)
  {
    forall f | f in facts
      ensures exists i :: 0 <= i < |ProjectTotals(facts)| && ProjectTotals(facts)[i].project == f.project
    {
      ProjectTotalHas(facts, f);
    }
    forall i | 0 <= i < |ProjectTotals(facts)|
      ensures exists f :: f in facts && f.project == ProjectTotals(facts)[i].project
    {
      ProjectTotalFrom(facts, i);
    }
  }

  /** The totals together hold every hour of the week. */
  lemma ProjectTotalsSum(facts: seq<Fact>)
    ensures TotalsHours(ProjectTotals(facts)) == FactHours(facts)
  {
    var keys := SortedKeys(StrLess, ProjectColumn(facts));
    ProjectKeys(facts);
    forall i | 0 <= i < |facts| ensures facts[i].project in keys {
      assert facts[i] in facts;
    }
    TotalsHoursCells(facts, keys);
    Partition(facts, keys);
  }

  // ----- Weekday pivots -----

  /** A pivot row: its day, one summed cell per column and the row total. */
  datatype PivotRow = PivotRow(day: string, cells: seq<real>, total: real)

  /** `pivot_table(index="day", columns="project", values="hours",
      aggfunc="sum", fill_value=0)` reindexed to Monday..Friday, with the
      row sums appended. */
  datatype Pivot = Pivot(columns: seq<string>, rows: seq<PivotRow>)

  /** The row of one day: its cells and their sum. */
  function DayRow(facts: seq<Fact>, columns: seq<string>, day: string): PivotRow
  {
    var cells := Cells(OnDay(facts, day), columns);
    PivotRow(day, cells, Sum(cells))
  }

  /** The reindexed rows, Monday to Friday. */
  function WeekRows(facts: seq<Fact>, columns: seq<string>): seq<PivotRow>
  {
    [ DayRow(facts, columns, WorkdayNames[0]), DayRow(facts, columns, WorkdayNames[1]),
      DayRow(facts, columns, WorkdayNames[2]), DayRow(facts, columns, WorkdayNames[3]),
      DayRow(facts, columns, WorkdayNames[4]) ]
  }

  /** The columns are the projects of every row (a project worked only at the
      weekend included); the rows are the five working days. */
  function PivotOf(facts: seq<Fact>): Pivot
  {
    var columns := SortedKeys(StrLess, ProjectColumn(facts));
    Pivot(columns, WeekRows(facts, columns))
  }

  /** A day's row: one cell per column holding that project's hours of the
      day and, when the columns cover every project, a total of all the
      hours of that day. */
  lemma DayRowSpec(facts: seq<Fact>, columns: seq<string>, day: string)
    requires Distinct(columns)
    requires forall f :: f in facts ==> f.project in columns
    ensures var row := DayRow(facts, columns, day);
      && row.day == day
      && |row.cells| == |columns|
      && (forall j :: 0 <= j < |columns| ==> row.cells[j] == FactHours(OfProject(OnDay(facts, day), columns[j])))
      && row.total == FactHours(OnDay(facts, day))
  {
    var d := OnDay(facts, day);
    OnDayMembers(facts, day);
    forall t | 0 <= t < |d| ensures d[t].project in columns {
      assert d[t] in d;
    }
    Partition(d, columns);
  }

  /** Row `i` of the pivot is day `i` of Monday..Friday; each cell holds the
      hours of its project on that day and the row total all the hours of
      that day. */
  lemma PivotDay(facts: seq<Fact>, i: int)
    requires 0 <= i < 5
    ensures var p := PivotOf(facts);
      && |p.rows| == 5
      && p.rows[i].day == WorkdayNames[i]
      && |p.rows[i].cells| == |p.columns|
      && (forall j :: 0 <= j < |p.columns| ==>
            p.rows[i].cells[j] == FactHours(OfProject(OnDay(facts, WorkdayNames[i]), p.columns[j])))
      && p.rows[i].total == FactHours(OnDay(facts, WorkdayNames[i]))
  {
    var cols := SortedKeys(StrLess, ProjectColumn(facts));
    ProjectKeys(facts);
    DayRowSpec(facts, cols, WorkdayNames[i]);
    WeekRowsAt(facts, cols, i);
  }

  lemma WeekRowsAt(facts: seq<Fact>, columns: seq<string>, i: int)
    requires 0 <= i < 5
    ensures |WeekRows(facts, columns)| == 5
    ensures WeekRows(facts, columns)[i] == DayRow(facts, columns, WorkdayNames[i])
  {
  }

  /** The pivot's columns come in ascending project order. */
  lemma PivotColumnsOrder(facts: seq<Fact>)
    ensures Ascending(StrLess, PivotOf(facts).columns)
  {
    StringKeys(ProjectColumn(facts));
  }

  /** The pivot has a column for every project of the rows, each once, and no other. */
  lemma PivotColumnsCover(facts: seq<Fact>)
    ensures var p := PivotOf(facts);
      && Distinct(p.columns)
      && (forall f :: f in facts ==> f.project in p.columns)
      && (forall j :: 0 <= j < |p.columns| ==> exists f :: f in facts && f.project == p.columns[j])
  {
    ProjectKeys(facts);
  }

  /** A row for a project the list has already takes no new column. */
  lemma KnownProjectColumns(facts: seq<Fact>, f: Fact)
    requires exists g :: g in facts && g.project == f.project
    ensures SortedKeys(StrLess, ProjectColumn(facts + [f])) == SortedKeys(StrLess, ProjectColumn(facts))
  {
    assert ProjectColumn(facts + [f]) == ProjectColumn(facts) + [f.project];
    var g :| g in facts && g.project == f.project;
    var t :| 0 <= t < |facts| && facts[t] == g;
    assert ProjectColumn(facts)[t] == f.project;
    StringKeysKnown(ProjectColumn(facts), f.project);
  }

  lemma OffDayRows(facts: seq<Fact>, f: Fact, columns: seq<string>)
    requires f.day !in WorkdayNames
    ensures WeekRows(facts + [f], columns) == WeekRows(facts, columns)
  {
    forall i | 0 <= i < 5 ensures DayRow(facts + [f], columns, WorkdayNames[i]) == DayRow(facts, columns, WorkdayNames[i]) {
      OnDaySnoc(facts, f, WorkdayNames[i]);
      assert OnDay(facts, WorkdayNames[i]) + [] == OnDay(facts, WorkdayNames[i]);
    }
  }

  /** A row dated outside Monday..Friday for a project already shown changes
      nothing in the pivot. */
  lemma OffDayFact(facts: seq<Fact>, f: Fact)
    requires f.day !in WorkdayNames
    requires exists g :: g in facts && g.project == f.project
    ensures PivotOf(facts + [f]) == PivotOf(facts)
  {
    KnownProjectColumns(facts, f);
    OffDayRows(facts, f, SortedKeys(StrLess, ProjectColumn(facts)));
  }

  /** A row dated outside Monday..Friday leaves every day's total as it was,
      even when it brings a new project column, which then holds only zeros. */
  lemma OffDayTotals(facts: seq<Fact>, f: Fact, i: int)
    requires f.day !in WorkdayNames && 0 <= i < 5
    ensures PivotOf(facts + [f]).rows[i].total == PivotOf(facts).rows[i].total
  {
    PivotDay(facts + [f], i);
    PivotDay(facts, i);
    OnDaySnoc(facts, f, WorkdayNames[i]);
    assert OnDay(facts, WorkdayNames[i]) + [] == OnDay(facts, WorkdayNames[i]);
  }

  /** A log dated on a Saturday or Sunday for a project already logged that
      week changes nothing in the pivot. */
  lemma WeekendLog(logs: seq<TimeLog>, l: TimeLog)
    requires Weekday(l.date) >= 5
    requires exists g :: g in logs && g.project == l.project
    ensures PivotOf(LogFacts(logs + [l])) == PivotOf(LogFacts(logs))
  {
    var f := Fact(l.department, DayName(l.date), l.project, l.hours);
    assert LogFacts(logs + [l]) == LogFacts(logs) + [f];
    WeekendNotWorkday(l.date);
    var g :| g in logs && g.project == l.project;
    var t :| 0 <= t < |logs| && logs[t] == g;
    assert LogFacts(logs)[t] in LogFacts(logs);
    OffDayFact(LogFacts(logs), f);
  }

  // ----- Employee breakdown -----

  /** `df_w[df_w["email"] == emp]`. */
  function OfEmployee(logs: seq<TimeLog>, email: string): (r: seq<TimeLog>)
    ensures |r| <= |logs|
  {
    if |logs| == 0 then []
    else
      var rest := OfEmployee(logs[..|logs| - 1], email);
      if logs[|logs| - 1].email == email then rest + [logs[|logs| - 1]] else rest
  }

  lemma {:induction false} OfEmployeeMembers(logs: seq<TimeLog>, email: string)
    ensures forall l :: l in OfEmployee(logs, email) <==> l in logs && l.email == email
    decreases |logs|
  {
    if |logs| > 0 {
      var n := |logs| - 1;
      assert logs == logs[..n] + [logs[n]];
      OfEmployeeMembers(logs[..n], email);
    }
  }

  /** When every log is the employee's, the selection keeps them all. */
  lemma {:induction false} OfEmployeeAll(logs: seq<TimeLog>, email: string)
    requires forall i :: 0 <= i < |logs| ==> logs[i].email == email
    ensures OfEmployee(logs, email) == logs
    decreases |logs|
  {
    if |logs| > 0 {
      var n := |logs| - 1;
      OfEmployeeAll(logs[..n], email);
      assert logs[..n] + [logs[n]] == logs;
    }
  }

  /** The `email` column. */
  function EmailColumn(logs: seq<TimeLog>): (r: seq<string>)
    ensures |r| == |logs|
    ensures forall i {:trigger r[i]} :: 0 <= i < |logs| ==> r[i] == logs[i].email
  {
    if |logs| == 0 then [] else EmailColumn(logs[..|logs| - 1]) + [logs[|logs| - 1].email]
  }

  /** The "Employee" selector: "All" or one address. */
  datatype EmployeeChoice = All | One(email: string)

  /** The addresses the selector offers after "All": `sorted(df_w.email.unique())`. */
  function EmployeeOptions(window: seq<TimeLog>): seq<string>
  {
    SortedKeys(StrLess, EmailColumn(window))
  }

  /** One employee's section: the address and that employee's rows; the
      section shows their weekday pivot. */
  datatype EmployeeView = EmployeeView(email: string, rows: seq<Fact>)
  {
    function PivotTable(): Pivot
    {
      PivotOf(rows)
    }
  }

  /** `df_w[df_w["email"] == emp]` with its day names. */
  function EmployeeFacts(window: seq<TimeLog>, email: string): seq<Fact>
  {
    LogFacts(OfEmployee(window, email))
  }

  function EmployeeViews(window: seq<TimeLog>, emails: seq<string>): (r: seq<EmployeeView>)
    ensures |r| == |emails|
    ensures forall i {:trigger r[i]} :: 0 <= i < |emails| ==> r[i] == EmployeeView(emails[i], EmployeeFacts(window, emails[i]))
  {
    if |emails| == 0 then []
    else
      var e := emails[|emails| - 1];
      EmployeeViews(window, emails[..|emails| - 1]) + [EmployeeView(e, EmployeeFacts(window, e))]
  }

  /** The sections shown: every address of the window in order of first
      appearance for "All", the chosen one otherwise. */
  function EmployeeBreakdown(window: seq<TimeLog>, choice: EmployeeChoice): seq<EmployeeView>
  {
    EmployeeViews(window, if choice.All? then Unique(EmailColumn(window)) else [choice.email])
  }

  /** The addresses "All" lists: each address of the window, once. */
  lemma EmployeeEmails(window: seq<TimeLog>)
    ensures var emails := Unique(EmailColumn(window));
      && Distinct(emails)
      && (forall l :: l in window ==> l.email in emails)
      && (forall e :: e in emails ==> exists l :: l in window && l.email == e)
  {
    var col := EmailColumn(window);
    var emails := Unique(col);
    forall l | l in window ensures l.email in emails {
      var t :| 0 <= t < |window| && window[t] == l;
      assert col[t] in emails;
    }
    forall e | e in emails ensures exists l :: l in window && l.email == e {
      assert e in col;
      var t :| 0 <= t < |col| && col[t] == e;
      assert window[t] in window;
    }
  }

  /** Under "All" no address has two sections. */
  lemma EmployeeSectionsDistinct(window: seq<TimeLog>)
    ensures var r := EmployeeBreakdown(window, All);
      forall i, j :: 0 <= i < j < |r| ==> r[i].email != r[j].email
  {
    var emails := Unique(EmailColumn(window));
    assert EmployeeBreakdown(window, All) == EmployeeViews(window, emails);
  }

  /** Under "All" every address of the window has a section. */
  lemma EmployeeSectionsCover(window: seq<TimeLog>)
    ensures var r := EmployeeBreakdown(window, All);
      forall l :: l in window ==> exists i :: 0 <= i < |r| && r[i].email == l.email
  {
    var emails := Unique(EmailColumn(window));
    var r := EmployeeBreakdown(window, All);
    assert r == EmployeeViews(window, emails);
    EmployeeEmails(window);
    forall l | l in window ensures exists i :: 0 <= i < |r| && r[i].email == l.email {
      var i :| 0 <= i < |emails| && emails[i] == l.email;
      assert r[i].email == l.email;
    }
  }

  /** Under "All" every section is the address of some log of the window. */
  lemma EmployeeSectionsOnly(window: seq<TimeLog>)
    ensures var r := EmployeeBreakdown(window, All);
      forall i :: 0 <= i < |r| ==> exists l :: l in window && l.email == r[i].email
  {
    var emails := Unique(EmailColumn(window));
    var r := EmployeeBreakdown(window, All);
    assert r == EmployeeViews(window, emails);
    EmployeeEmails(window);
    forall i | 0 <= i < |r| ensures exists l :: l in window && l.email == r[i].email {
      assert r[i].email == emails[i];
      assert emails[i] in emails;
    }
  }

  /** Every section, whatever the choice, holds exactly its employee's logs
      of the window, in table order. */
  lemma EmployeeBreakdownRows(window: seq<TimeLog>, choice: EmployeeChoice)
    ensures var r := EmployeeBreakdown(window, choice);
      forall i :: 0 <= i < |r| ==>
        && r[i].rows == LogFacts(OfEmployee(window, r[i].email))
        && (forall l :: l in OfEmployee(window, r[i].email) <==> l in window && l.email == r[i].email)
  {
    var r := EmployeeBreakdown(window, choice);
    forall i | 0 <= i < |r| ensures forall l :: l in OfEmployee(window, r[i].email) <==> l in window && l.email == r[i].email {
      OfEmployeeMembers(window, r[i].email);
    }
  }

  /** A "One" choice shows exactly the chosen employee's section. */
  lemma EmployeeBreakdownOne(window: seq<TimeLog>, email: string)
    ensures EmployeeBreakdown(window, One(email)) == [EmployeeView(email, LogFacts(OfEmployee(window, email)))]
  {
    assert EmployeeBreakdown(window, One(email))[0] == EmployeeView(email, EmployeeFacts(window, email));
  }

  /** The window holds only the session's own logs, so the selector offers
      that one address and "All" shows only its section, which holds the
      whole window. */
  lemma SessionBreakdown(logs: seq<TimeLog>, user: string, now: Instant)
    requires Window(logs, user, now) != []
    ensures EmployeeOptions(Window(logs, user, now)) == [user]
    ensures EmployeeBreakdown(Window(logs, user, now), All)
         == [EmployeeView(user, LogFacts(Window(logs, user, now)))]
  {
    var window := Window(logs, user, now);
    assert forall i :: 0 <= i < |window| ==> window[i] in window;
    UniqueConstant(EmailColumn(window), user);
    SortedKeysConstant(StrLess, EmailColumn(window), user);
    OfEmployeeAll(window, user);
    assert EmployeeBreakdown(window, All)[0] == EmployeeView(user, EmployeeFacts(window, user));
  }

  // ----- Department table and breakdown -----

  /** The key of `groupby(["department", "day", "project"])`. */
  datatype DeptKey = DeptKey(department: string, day: string, project: string)

  function KeyOf(f: Fact): DeptKey
  {
    DeptKey(f.department, f.day, f.project)
  }

  /** Python's tuple order on the key: department, then day name, then project. */
  predicate KeyLess(a: DeptKey, b: DeptKey)
  {
    || StrLess(a.department, b.department)
    || (a.department == b.department && StrLess(a.day, b.day))
    || (a.department == b.department && a.day == b.day && StrLess(a.project, b.project))
  }

  lemma KeyLessIsStrictTotalOrder()
    ensures StrictTotalOrder(KeyLess)
  {
    forall a: DeptKey ensures !KeyLess(a, a) {
      StrLessIrreflexive(a.department);
      StrLessIrreflexive(a.day);
      StrLessIrreflexive(a.project);
    }
    forall a: DeptKey, b: DeptKey, c: DeptKey | KeyLess(a, b) && KeyLess(b, c) ensures KeyLess(a, c) {
      if StrLess(a.department, b.department) && StrLess(b.department, c.department) {
        StrLessTransitive(a.department, b.department, c.department);
      }
      if StrLess(a.day, b.day) && StrLess(b.day, c.day) {
        StrLessTransitive(a.day, b.day, c.day);
      }
      if StrLess(a.project, b.project) && StrLess(b.project, c.project) {
        StrLessTransitive(a.project, b.project, c.project);
      }
    }
    forall a: DeptKey, b: DeptKey | a != b ensures KeyLess(a, b) || KeyLess(b, a) {
      if a.department != b.department {
        StrLessTotal(a.department, b.department);
      } else if a.day != b.day {
        StrLessTotal(a.day, b.day);
      } else {
        StrLessTotal(a.project, b.project);
      }
    }
  }

  /** The key column. */
  function KeyColumn(facts: seq<Fact>): (r: seq<DeptKey>)
    ensures |r| == |facts|
    ensures forall i {:trigger r[i]} :: 0 <= i < |facts| ==> r[i] == KeyOf(facts[i])
  {
    if |facts| == 0 then [] else KeyColumn(facts[..|facts| - 1]) + [KeyOf(facts[|facts| - 1])]
  }

  /** The rows of one group: `dg[dg.department == d]` narrowed to a day and a project. */
  function KeyFacts(facts: seq<Fact>, k: DeptKey): seq<Fact>
  {
    OfProject(OnDay(OfDepartment(facts, k.department), k.day), k.project)
  }

  lemma KeyFactsMembers(facts: seq<Fact>, k: DeptKey)
    ensures forall f :: f in KeyFacts(facts, k) <==> f in facts && KeyOf(f) == k
  {
    OfDepartmentMembers(facts, k.department);
    OnDayMembers(OfDepartment(facts, k.department), k.day);
    OfProjectMembers(OnDay(OfDepartment(facts, k.department), k.day), k.project);
  }

  lemma KeyFactsSnoc(facts: seq<Fact>, f: Fact, k: DeptKey)
    ensures KeyFacts(facts + [f], k) == KeyFacts(facts, k) + (if KeyOf(f) == k then [f] else [])
  {
    var a := OfDepartment(facts, k.department);
    OfDepartmentSnoc(facts, f, k.department);
    if f.department == k.department {
      OnDaySnoc(a, f, k.day);
      if f.day == k.day {
        OfProjectSnoc(OnDay(a, k.day), f, k.project);
      } else {
        assert OnDay(a, k.day) + [] == OnDay(a, k.day);
      }
    } else {
      assert a + [] == a;
    }
    assert KeyFacts(facts, k) + [] == KeyFacts(facts, k);
  }

  /** One summed row per key, in key order. */
  function GroupRows(facts: seq<Fact>, keys: seq<DeptKey>): (r: seq<Fact>)
    ensures |r| == |keys|
    ensures forall i {:trigger r[i]} :: 0 <= i < |keys| ==>
              r[i] == Fact(keys[i].department, keys[i].day, keys[i].project, FactHours(KeyFacts(facts, keys[i])))
  {
    if |keys| == 0 then []
    else
      var k := keys[|keys| - 1];
      GroupRows(facts, keys[..|keys| - 1]) + [Fact(k.department, k.day, k.project, FactHours(KeyFacts(facts, k)))]
  }

  /** `dg`: `w.groupby(["department", "day", "project"])["hours"].sum().reset_index()`. */
  function DepartmentTable(facts: seq<Fact>): seq<Fact>
  {
    GroupRows(facts, SortedKeys(KeyLess, KeyColumn(facts)))
  }

  /** The group keys come in ascending key order, each once. */
  lemma GroupKeys(facts: seq<Fact>)
    ensures Ascending(KeyLess, SortedKeys(KeyLess, KeyColumn(facts)))
    ensures Distinct(SortedKeys(KeyLess, KeyColumn(facts)))
  {
    KeyLessIsStrictTotalOrder();
    SortedKeysAscending(KeyLess, KeyColumn(facts));
    AscendingDistinct(KeyLess, SortedKeys(KeyLess, KeyColumn(facts)));
  }

  /** The table is sorted by department, day name and project, one row per
      key, each holding the hours of that key. */
  lemma DepartmentTableOrder(facts: seq<Fact>)
    ensures var dg := DepartmentTable(facts);
      && (forall i, j :: 0 <= i < j < |dg| ==> KeyLess(KeyOf(dg[i]), KeyOf(dg[j])))
      && (forall i :: 0 <= i < |dg| ==> dg[i].hours == FactHours(KeyFacts(facts, KeyOf(dg[i]))))
  {
    GroupKeys(facts);
  }

  /** A key of the window has its row in the table. */
  lemma DepartmentTableHas(facts: seq<Fact>, f: Fact)
    requires f in facts
    ensures exists i :: 0 <= i < |DepartmentTable(facts)| && KeyOf(DepartmentTable(facts)[i]) == KeyOf(f)
  {
    var keys := SortedKeys(KeyLess, KeyColumn(facts));
    var t :| 0 <= t < |facts| && facts[t] == f;
    assert KeyColumn(facts)[t] in Elems(KeyColumn(facts));
    assert KeyOf(f) in Elems(keys);
    var i :| 0 <= i < |keys| && keys[i] == KeyOf(f);
    assert KeyOf(DepartmentTable(facts)[i]) == keys[i];
  }

  /** A row of the table has its key in the window. */
  lemma DepartmentTableFrom(facts: seq<Fact>, i: int)
    requires 0 <= i < |DepartmentTable(facts)|
    ensures exists f :: f in facts && KeyOf(f) == KeyOf(DepartmentTable(facts)[i])
  {
    var keys := SortedKeys(KeyLess, KeyColumn(facts));
    assert KeyOf(DepartmentTable(facts)[i]) == keys[i];
    assert keys[i] in Elems(keys);
    var t :| 0 <= t < |facts| && KeyColumn(facts)[t] == keys[i];
    assert facts[t] in facts;
  }

  /** Within grouped rows with distinct keys, a key's rows are its one row, or none. */
  lemma {:induction false} GroupedKeyFacts(facts: seq<Fact>, keys: seq<DeptKey>, k: DeptKey)
    requires Distinct(keys)
    ensures FactHours(KeyFacts(GroupRows(facts, keys), k)) == if k in keys then FactHours(KeyFacts(facts, k)) else 0.0
    decreases |keys|
  {
    if |keys| == 0 {
      assert KeyFacts([], k) == [];
    } else {
      var n := |keys| - 1;
      var row := Fact(keys[n].department, keys[n].day, keys[n].project, FactHours(KeyFacts(facts, keys[n])));
      assert keys == keys[..n] + [keys[n]];
      assert GroupRows(facts, keys) == GroupRows(facts, keys[..n]) + [row];
      GroupedKeyFacts(facts, keys[..n], k);
      KeyFactsSnoc(GroupRows(facts, keys[..n]), row, k);
      assert KeyOf(row) == keys[n];
      if keys[n] == k {
        FactHoursSnoc(KeyFacts(GroupRows(facts, keys[..n]), k), row);
      } else {
        assert KeyFacts(GroupRows(facts, keys[..n]), k) + [] == KeyFacts(GroupRows(facts, keys[..n]), k);
      }
    }
  }

  /** A key no row carries has no rows. */
  lemma {:induction false} KeyFactsAbsent(facts: seq<Fact>, k: DeptKey)
    requires forall i :: 0 <= i < |facts| ==> KeyOf(facts[i]) != k
    ensures KeyFacts(facts, k) == []
    decreases |facts|
  {
    if |facts| == 0 {
      assert OfDepartment([], k.department) == [];
    } else {
      var n := |facts| - 1;
      assert facts == facts[..n] + [facts[n]];
      KeyFactsAbsent(facts[..n], k);
      KeyFactsSnoc(facts[..n], facts[n], k);
    }
  }

  /** Grouping keeps every group's hours: the table's rows of a key hold the
      same hours as the window's rows of that key. */
  lemma RegroupHours(facts: seq<Fact>, k: DeptKey)
    ensures FactHours(KeyFacts(DepartmentTable(facts), k)) == FactHours(KeyFacts(facts, k))
  {
    var keys := SortedKeys(KeyLess, KeyColumn(facts));
    GroupKeys(facts);
    GroupedKeyFacts(facts, keys, k);
    if k !in keys {
      forall i | 0 <= i < |facts| ensures KeyOf(facts[i]) != k {
        assert KeyColumn(facts)[i] in Elems(KeyColumn(facts));
      }
      KeyFactsAbsent(facts, k);
    }
  }

  /** A value of the project column is the project of one of the rows. */
  lemma ProjectColumnMembers(facts: seq<Fact>, p: string)
    ensures p in Elems(ProjectColumn(facts)) <==> exists f :: f in facts && f.project == p
  {
    if p in Elems(ProjectColumn(facts)) {
      var t :| 0 <= t < |facts| && ProjectColumn(facts)[t] == p;
      assert facts[t] in facts;
    }
    if exists f :: f in facts && f.project == p {
      var f :| f in facts && f.project == p;
      var t :| 0 <= t < |facts| && facts[t] == f;
      assert ProjectColumn(facts)[t] == p;
    }
  }

  /** A project of a department's table rows is one of its window rows. */
  lemma TableProjectInFacts(facts: seq<Fact>, d: string, p: string)
    requires p in Elems(ProjectColumn(OfDepartment(DepartmentTable(facts), d)))
    ensures p in Elems(ProjectColumn(OfDepartment(facts, d)))
  {
    var dg := DepartmentTable(facts);
    ProjectColumnMembers(OfDepartment(dg, d), p);
    var g :| g in OfDepartment(dg, d) && g.project == p;
    OfDepartmentMembers(dg, d);
    var i :| 0 <= i < |dg| && dg[i] == g;
    DepartmentTableFrom(facts, i);
    var f :| f in facts && KeyOf(f) == KeyOf(dg[i]);
    OfDepartmentMembers(facts, d);
    assert f in OfDepartment(facts, d);
    ProjectColumnMembers(OfDepartment(facts, d), p);
  }

  /** A project of a department's window rows is one of its table rows. */
  lemma FactProjectInTable(facts: seq<Fact>, d: string, p: string)
    requires p in Elems(ProjectColumn(OfDepartment(facts, d)))
    ensures p in Elems(ProjectColumn(OfDepartment(DepartmentTable(facts), d)))
  {
    var dg := DepartmentTable(facts);
    ProjectColumnMembers(OfDepartment(facts, d), p);
    var f :| f in OfDepartment(facts, d) && f.project == p;
    OfDepartmentMembers(facts, d);
    DepartmentTableHas(facts, f);
    var i :| 0 <= i < |dg| && KeyOf(dg[i]) == KeyOf(f);
    OfDepartmentMembers(dg, d);
    assert dg[i] in OfDepartment(dg, d);
    ProjectColumnMembers(OfDepartment(dg, d), p);
  }

  /** The rows of one department carry the same projects in the table as in the window. */
  lemma DepartmentProjects(facts: seq<Fact>, d: string)
    ensures Elems(ProjectColumn(OfDepartment(DepartmentTable(facts), d)))
         == Elems(ProjectColumn(OfDepartment(facts, d)))
  {
    forall p | p in Elems(ProjectColumn(OfDepartment(DepartmentTable(facts), d)))
      ensures p in Elems(ProjectColumn(OfDepartment(facts, d)))
    {
      TableProjectInFacts(facts, d, p);
    }
    forall p | p in Elems(ProjectColumn(OfDepartment(facts, d)))
      ensures p in Elems(ProjectColumn(OfDepartment(DepartmentTable(facts), d)))
    {
      FactProjectInTable(facts, d, p);
    }
  }


  lemma DepartmentCells(facts: seq<Fact>, d: string, day: string, columns: seq<string>)
    ensures Cells(OnDay(OfDepartment(DepartmentTable(facts), d), day), columns)
         == Cells(OnDay(OfDepartment(facts, d), day), columns)
  {
    forall j | 0 <= j < |columns|
      ensures FactHours(OfProject(OnDay(OfDepartment(DepartmentTable(facts), d), day), columns[j]))
           == FactHours(OfProject(OnDay(OfDepartment(facts, d), day), columns[j]))
    {
      RegroupHours(facts, DeptKey(d, day, columns[j]));
    }
  }

  /** Pivoting the grouped table gives the pivot of the department's own
      rows: columns, cells and totals alike. */
  lemma DepartmentPivotOfFacts(facts: seq<Fact>, d: string)
    ensures PivotOf(OfDepartment(DepartmentTable(facts), d)) == PivotOf(OfDepartment(facts, d))
  {
    var a := OfDepartment(DepartmentTable(facts), d);
    var b := OfDepartment(facts, d);
    DepartmentProjects(facts, d);
    StringKeysSame(ProjectColumn(a), ProjectColumn(b));
    var cols := SortedKeys(StrLess, ProjectColumn(b));
    forall i | 0 <= i < 5 ensures DayRow(a, cols, WorkdayNames[i]) == DayRow(b, cols, WorkdayNames[i]) {
      DepartmentCells(facts, d, WorkdayNames[i], cols);
    }
    assert WeekRows(a, cols) == WeekRows(b, cols);
  }

  /** The `department` column. */
  function DepartmentColumn(facts: seq<Fact>): (r: seq<string>)
    ensures |r| == |facts|
    ensures forall i {:trigger r[i]} :: 0 <= i < |facts| ==> r[i] == facts[i].department
  {
    if |facts| == 0 then [] else DepartmentColumn(facts[..|facts| - 1]) + [facts[|facts| - 1].department]
  }

  /** One department's section: its name and its rows of `dg`; the section
      shows their weekday pivot. */
  datatype DepartmentView = DepartmentView(department: string, rows: seq<Fact>)
  {
    function PivotTable(): Pivot
    {
      PivotOf(rows)
    }
  }

  function DepartmentViews(dg: seq<Fact>, depts: seq<string>): (r: seq<DepartmentView>)
    ensures |r| == |depts|
    ensures forall i {:trigger r[i]} :: 0 <= i < |depts| ==> r[i] == DepartmentView(depts[i], OfDepartment(dg, depts[i]))
  {
    if |depts| == 0 then []
    else
      var d := depts[|depts| - 1];
      DepartmentViews(dg, depts[..|depts| - 1]) + [DepartmentView(d, OfDepartment(dg, d))]
  }

  /** A section per `dg.department.unique()`. */
  function DepartmentBreakdown(dg: seq<Fact>): seq<DepartmentView>
  {
    DepartmentViews(dg, Unique(DepartmentColumn(dg)))
  }

  /** The sections come in ascending department order, since `dg` is sorted. */
  lemma DepartmentBreakdownOrder(facts: seq<Fact>)
    ensures var r := DepartmentBreakdown(DepartmentTable(facts));
      forall i, j :: 0 <= i < j < |r| ==> StrLess(r[i].department, r[j].department)
  {
    var dg := DepartmentTable(facts);
    var col := DepartmentColumn(dg);
    DepartmentTableOrder(facts);
    forall i, j | 0 <= i < j < |col| ensures col[i] == col[j] || StrLess(col[i], col[j]) {
      assert KeyLess(KeyOf(dg[i]), KeyOf(dg[j]));
    }
    StrLessIsStrictTotalOrder();
    UniqueOfNondecreasing(StrLess, col);
  }

  /** A department of the window is one of the table's. */
  lemma TableHasDepartment(facts: seq<Fact>, f: Fact)
    requires f in facts
    ensures f.department in Unique(DepartmentColumn(DepartmentTable(facts)))
  {
    var dg := DepartmentTable(facts);
    DepartmentTableHas(facts, f);
    var t :| 0 <= t < |dg| && KeyOf(dg[t]) == KeyOf(f);
    assert DepartmentColumn(dg)[t] == f.department;
  }

  /** Every department `unique()` lists has its section. */
  lemma SectionOfListed(dg: seq<Fact>, d: string)
    requires d in Unique(DepartmentColumn(dg))
    ensures exists i :: 0 <= i < |DepartmentBreakdown(dg)| && DepartmentBreakdown(dg)[i].department == d
  {
    var depts := Unique(DepartmentColumn(dg));
    var r := DepartmentBreakdown(dg);
    assert r == DepartmentViews(dg, depts);
    var i :| 0 <= i < |depts| && depts[i] == d;
    assert r[i].department == d;
  }

  /** A department of the window has its section. */
  lemma DepartmentSectionHas(facts: seq<Fact>, f: Fact)
    requires f in facts
    ensures exists i :: 0 <= i < |DepartmentBreakdown(DepartmentTable(facts))|
              && DepartmentBreakdown(DepartmentTable(facts))[i].department == f.department
  {
    TableHasDepartment(facts, f);
    SectionOfListed(DepartmentTable(facts), f.department);
  }

  /** A section's department is one of the window's. */
  lemma DepartmentSectionFrom(facts: seq<Fact>, i: int)
    requires 0 <= i < |DepartmentBreakdown(DepartmentTable(facts))|
    ensures exists f :: f in facts && f.department == DepartmentBreakdown(DepartmentTable(facts))[i].department
  {
    var dg := DepartmentTable(facts);
    var col := DepartmentColumn(dg);
    var depts := Unique(col);
    assert DepartmentBreakdown(dg) == DepartmentViews(dg, depts);
    assert DepartmentViews(dg, depts)[i].department == depts[i];
    assert depts[i] in col;
    var t :| 0 <= t < |dg| && col[t] == depts[i];
    DepartmentTableFrom(facts, t);
  }

  /** Every section is a department of the window. */
  lemma DepartmentSectionsOnly(facts: seq<Fact>)
    ensures var r := DepartmentBreakdown(DepartmentTable(facts));
      forall i :: 0 <= i < |r| ==> exists f :: f in facts && f.department == r[i].department
  {
    var r := DepartmentBreakdown(DepartmentTable(facts));
    forall i | 0 <= i < |r| ensures exists f :: f in facts && f.department == r[i].department {
      DepartmentSectionFrom(facts, i);
    }
  }

  /** Each section holds its department's rows of `dg`, and the pivot it
      shows is the pivot of that department's rows of the window. */
  lemma DepartmentBreakdownPivots(facts: seq<Fact>)
    ensures var dg := DepartmentTable(facts);
      var r := DepartmentBreakdown(dg);
      forall i :: 0 <= i < |r| ==>
        && r[i].rows == OfDepartment(dg, r[i].department)
        && r[i].PivotTable() == PivotOf(OfDepartment(facts, r[i].department))
  {
    var dg := DepartmentTable(facts);
    var r := DepartmentBreakdown(dg);
    forall i | 0 <= i < |r| ensures r[i].PivotTable() == PivotOf(OfDepartment(facts, r[i].department)) {
      DepartmentPivotOfFacts(facts, r[i].department);
    }
  }

  // ----- The whole section -----

  /** What the weekly summary shows. */
  datatype Summary =
    | NoData
    | Weekly(totals: seq<ProjectTotal>, employees: seq<EmployeeView>,
             table: seq<Fact>, departments: seq<DepartmentView>)

  /** "No data this week." or the four parts of the summary, for the session
      address `email` at moment `now` with the selector on `choice`. */
  function WeeklySummary(logs: seq<TimeLog>, email: string, now: Instant, choice: EmployeeChoice): Summary
  {
    var window := Window(logs, email, now);
    if window == [] then NoData
    else
      var facts := LogFacts(window);
      var dg := DepartmentTable(facts);
      Weekly(ProjectTotals(facts), EmployeeBreakdown(window, choice), dg, DepartmentBreakdown(dg))
  }

  /** The summary is empty exactly when the session has no log in the window. */
  lemma NoDataIff(logs: seq<TimeLog>, email: string, now: Instant, choice: EmployeeChoice)
    ensures WeeklySummary(logs, email, now, choice) == NoData <==>
              forall l :: l in logs && l.email == email ==> !InLastWeek(l.date, now)
  {
    var window := Window(logs, email, now);
    assert |window| == 0 || window[0] in window;
  }
}
