/** The timesheet grid of a department and what "Save Timesheet" writes
    (Cloksy_app.py:121-149). */
module Timesheet {
  import opened Dates
  import opened Tables
  import opened Order

  /** The bucket rows every grid ends with, for time that is not project work. */
  const PseudoProjects: seq<string> := ["Paid Time Off", "Company Holiday", "Company Event"]

  /** `SELECT name FROM projects WHERE department=? AND status='active'`, in table order. */
  function ActiveNames(projects: seq<Project>, dept: string): (r: seq<string>)
    ensures |r| <= |projects|
    ensures forall n :: n in r <==>
              exists i :: 0 <= i < |projects| && projects[i] == Project(n, projects[i].client, dept, Active)
  {
    if |projects| == 0 then []
    else
      var init := projects[..|projects| - 1];
      var p := projects[|projects| - 1];
      assert forall i :: 0 <= i < |init| ==> init[i] == projects[i];
      var rest := ActiveNames(init, dept);
      if p.department == dept && p.status == Active then rest + [p.name] else rest
  }

  /** `projs`: the department's active projects, then the three buckets. */
  function GridProjects(projects: seq<Project>, dept: string): seq<string>
  {
    ActiveNames(projects, dept) + PseudoProjects
  }

  /** The grid always ends with the three buckets; every other row is an active
      project of the department. */
  lemma GridProjectsShape(projects: seq<Project>, dept: string)
    ensures var g := GridProjects(projects, dept);
      && |g| >= 3
      && g[|g| - 3..] == PseudoProjects
      && forall n :: n in g <==> (n in PseudoProjects ||
           exists i :: 0 <= i < |projects| && projects[i] == Project(n, projects[i].client, dept, Active))
  {
    var g := GridProjects(projects, dept);
    assert g[|g| - 3..] == PseudoProjects;
  }

  /** One row of the grid as the page holds it: `rd`, a project name and a
      dict from each grid date to the hours typed for it. */
  datatype Entry = Entry(project: string, hours: map<Day, real>)

  /** Entry `e` is grid row `project` holding `row`, keyed by the grid days. */
  predicate EntryHolds(e: Entry, project: string, days: seq<Day>, row: seq<real>)
    requires |row| == |days|
  {
    && e.project == project
    && e.hours.Keys == Elems(days)
    && forall j :: 0 <= j < |days| ==> e.hours[days[j]] == row[j]
  }

  /** The loop that builds `entries` (Cloksy_app.py:131-139): one entry per
      grid project, each holding the five typed values keyed by date. */
  method CollectEntries(projs: seq<string>, days: seq<Day>, values: seq<seq<real>>)
    returns (entries: seq<Entry>)
    requires |values| == |projs| && forall k :: 0 <= k < |values| ==> |values[k]| == |days|
    requires Distinct(days)
    ensures |entries| == |projs|
    ensures forall k :: 0 <= k < |projs| ==> EntryHolds(entries[k], projs[k], days, values[k])
  {
    entries := [];
    for k := 0 to |projs|
      invariant |entries| == k
      invariant forall k' :: 0 <= k' < k ==> EntryHolds(entries[k'], projs[k'], days, values[k'])
    {
      var rd: map<Day, real> := map[];
      for i := 0 to |days|
        invariant rd.Keys == Elems(days[..i])
        invariant forall j :: 0 <= j < i ==> rd[days[j]] == values[k][j]
      {
        assert days[..i + 1] == days[..i] + [days[i]];
        ElemsConcat(days[..i], [days[i]]);
        rd := rd[days[i] := values[k][i]];
      }
      assert days[..|days|] == days;
      entries := entries + [Entry(projs[k], rd)];
    }
  }

  /** The row written for one grid cell. */
  function CellLog(email: string, dept: string, project: string, day: Day, hours: real): TimeLog
  {
    TimeLog(email, dept, project, day, hours, "")
  }

  /** The logs one grid row writes: a log per day whose hours are > 0, in day order. */
  function RowLogs(email: string, dept: string, project: string, days: seq<Day>, hours: seq<real>): (r: seq<TimeLog>)
    requires |hours| == |days|
    decreases |days|
  {
    if |days| == 0 then []
    else
      var n := |days| - 1;
      RowLogs(email, dept, project, days[..n], hours[..n])
        + (if hours[n] > 0.0 then [CellLog(email, dept, project, days[n], hours[n])] else [])
  }

  /** The grid is well formed: one row of hours per project, one value per day. */
  predicate GridShaped(projs: seq<string>, days: seq<Day>, values: seq<seq<real>>)
  {
    |values| == |projs| && forall k :: 0 <= k < |values| ==> |values[k]| == |days|
  }

  /** Everything one press of "Save Timesheet" writes, project by project. */
  function GridLogs(email: string, dept: string, projs: seq<string>, days: seq<Day>, values: seq<seq<real>>): seq<TimeLog>
    requires GridShaped(projs, days, values)
    decreases |projs|
  {
    if |projs| == 0 then []
    else
      var n := |projs| - 1;
      GridLogs(email, dept, projs[..n], days, values[..n]) + RowLogs(email, dept, projs[n], days, values[n])
  }

  /** Saving one more grid row appends that row's logs. */
  lemma GridLogsNext(email: string, dept: string, projs: seq<string>, days: seq<Day>, values: seq<seq<real>>, k: nat)
    requires GridShaped(projs, days, values) && k < |projs|
    ensures GridShaped(projs[..k], days, values[..k]) && GridShaped(projs[..k + 1], days, values[..k + 1])
    ensures GridLogs(email, dept, projs[..k + 1], days, values[..k + 1])
         == GridLogs(email, dept, projs[..k], days, values[..k]) + RowLogs(email, dept, projs[k], days, values[k])
  {
    assert projs[..k + 1][..k] == projs[..k] && values[..k + 1][..k] == values[..k];
  }

  /** Saving one more cell of a row appends its log when it holds hours. */
  lemma RowLogsNext(email: string, dept: string, project: string, days: seq<Day>, hours: seq<real>, j: nat)
    requires |hours| == |days| && j < |days|
    ensures RowLogs(email, dept, project, days[..j + 1], hours[..j + 1])
         == RowLogs(email, dept, project, days[..j], hours[..j])
              + (if hours[j] > 0.0 then [CellLog(email, dept, project, days[j], hours[j])] else [])
  {
    assert days[..j + 1][..j] == days[..j] && hours[..j + 1][..j] == hours[..j];
  }

  /** The number of cells of a row holding more than zero hours. */
  function PositiveCount(hours: seq<real>): (c: nat)
    ensures c <= |hours|
  {
    if |hours| == 0 then 0
    else PositiveCount(hours[..|hours| - 1]) + (if hours[|hours| - 1] > 0.0 then 1 else 0)
  }

  /** The number of cells of the grid holding more than zero hours. */
  function PositiveCells(values: seq<seq<real>>): nat
  {
    if |values| == 0 then 0
    else PositiveCells(values[..|values| - 1]) + PositiveCount(values[|values| - 1])
  }

  /** The grid cell (k, j) holds more than zero hours and `l` is its log. */
  ghost predicate LogOfCell(email: string, dept: string, projs: seq<string>, days: seq<Day>,
                            values: seq<seq<real>>, k: int, j: int, l: TimeLog)
    requires GridShaped(projs, days, values)
  {
    0 <= k < |projs| && 0 <= j < |days| && values[k][j] > 0.0
      && l == CellLog(email, dept, projs[k], days[j], values[k][j])
  }

  lemma {:induction false} RowLogsSpec(email: string, dept: string, project: string, days: seq<Day>, hours: seq<real>)
    requires |hours| == |days|
    ensures |RowLogs(email, dept, project, days, hours)| == PositiveCount(hours)
    ensures forall l :: l in RowLogs(email, dept, project, days, hours) <==>
              exists j :: 0 <= j < |days| && hours[j] > 0.0 && l == CellLog(email, dept, project, days[j], hours[j])
    decreases |days|
  {
    if |days| > 0 {
      var n := |days| - 1;
      RowLogsSpec(email, dept, project, days[..n], hours[..n]);
      forall l ensures l in RowLogs(email, dept, project, days, hours) <==>
        exists j :: 0 <= j < |days| && hours[j] > 0.0 && l == CellLog(email, dept, project, days[j], hours[j])
      {
        if exists j :: 0 <= j < |days| && hours[j] > 0.0 && l == CellLog(email, dept, project, days[j], hours[j]) {
          var j :| 0 <= j < |days| && hours[j] > 0.0 && l == CellLog(email, dept, project, days[j], hours[j]);
          if j < n {
            assert days[..n][j] == days[j] && hours[..n][j] == hours[j];
          }
        }
        if l in RowLogs(email, dept, project, days[..n], hours[..n]) {
          var j :| 0 <= j < n && hours[..n][j] > 0.0 && l == CellLog(email, dept, project, days[..n][j], hours[..n][j]);
          assert days[..n][j] == days[j] && hours[..n][j] == hours[j];
        }
      }
    }
  }

  /** Save writes exactly one log per grid cell holding more than zero hours and
      none for the others, each carrying the session address, the department
      and empty notes. */
  lemma {:induction false} GridLogsSpec(email: string, dept: string, projs: seq<string>, days: seq<Day>, values: seq<seq<real>>)
    requires GridShaped(projs, days, values)
    ensures |GridLogs(email, dept, projs, days, values)| == PositiveCells(values)
    ensures forall l :: l in GridLogs(email, dept, projs, days, values) <==>
              exists k, j :: LogOfCell(email, dept, projs, days, values, k, j, l)
    decreases |projs|
  {
    if |projs| > 0 {
      var n := |projs| - 1;
      var values' := values[..n];
      assert GridShaped(projs[..n], days, values');
      GridLogsSpec(email, dept, projs[..n], days, values');
      RowLogsSpec(email, dept, projs[n], days, values[n]);
      forall l ensures l in GridLogs(email, dept, projs, days, values) <==>
        exists k, j :: LogOfCell(email, dept, projs, days, values, k, j, l)
      {
        if exists k, j :: LogOfCell(email, dept, projs, days, values, k, j, l) {
          var k, j :| LogOfCell(email, dept, projs, days, values, k, j, l);
          if k < n {
            assert LogOfCell(email, dept, projs[..n], days, values', k, j, l);
          } else {
            assert values[n][j] > 0.0 && l == CellLog(email, dept, projs[n], days[j], values[n][j]);
          }
        }
        if l in GridLogs(email, dept, projs[..n], days, values') {
          var k, j :| LogOfCell(email, dept, projs[..n], days, values', k, j, l);
          assert LogOfCell(email, dept, projs, days, values, k, j, l);
        }
        if l in RowLogs(email, dept, projs[n], days, values[n]) {
          var j :| 0 <= j < |days| && values[n][j] > 0.0 && l == CellLog(email, dept, projs[n], days[j], values[n][j]);
          assert LogOfCell(email, dept, projs, days, values, n, j, l);
        }
      }
    }
  }

  /** With five grid days, at most five logs per grid project. */
  lemma {:induction false} PositiveCellsBound(values: seq<seq<real>>, width: nat)
    requires forall k :: 0 <= k < |values| ==> |values[k]| == width
    ensures PositiveCells(values) <= width * |values|
    decreases |values|
  {
    if |values| > 0 {
      PositiveCellsBound(values[..|values| - 1], width);
    }
  }
}
