/** The page's commands against its four tables, held in memory
    (Cloksy_app.py:11-45 for the tables, 62-164 for the commands). Every
    command is one press of a form button; the widget values it reads are
    its parameters and `user` is the address typed at the gate. */
module Cloksy {
  import opened Dates
  import opened Tables
  import opened Access
  import opened Order
  import opened Calendar
  import opened Timesheet
  import opened Leave

  /** What every stored time log satisfies: it came from a grid cell of an
      admitted session with more than zero hours, and its project is a grid
      row of its department. */
  ghost predicate LogFromGrid(l: TimeLog, projects: seq<Project>)
  {
    && l.hours > 0.0
    && l.notes == ""
    && PassesGate(l.email)
    && l.department != []
    && l.project in GridProjects(projects, l.department)
  }

  /** Adding a project never takes a row away from a department's grid. */
  lemma GridProjectsGrow(projects: seq<Project>, p: Project, dept: string, n: string)
    requires n in GridProjects(projects, dept)
    ensures n in GridProjects(projects + [p], dept)
  {
    GridProjectsShape(projects, dept);
    GridProjectsShape(projects + [p], dept);
    if n !in PseudoProjects {
      var i :| 0 <= i < |projects| && projects[i] == Project(n, projects[i].client, dept, Active);
      assert (projects + [p])[i] == projects[i];
    }
  }

  /** Every log a save writes satisfies the store's log invariant. */
  lemma GridLogsFromGrid(user: string, dept: string, projects: seq<Project>, days: seq<Day>, values: seq<seq<real>>)
    requires PassesGate(user) && dept != []
    requires GridShaped(GridProjects(projects, dept), days, values)
    ensures forall l :: l in GridLogs(user, dept, GridProjects(projects, dept), days, values) ==> LogFromGrid(l, projects)
  {
    var projs := GridProjects(projects, dept);
    GridLogsSpec(user, dept, projs, days, values);
    forall l | l in GridLogs(user, dept, projs, days, values) ensures LogFromGrid(l, projects) {
      var k, j :| LogOfCell(user, dept, projs, days, values, k, j, l);
      assert l.project == projs[k];
    }
  }

  /** The department of each row of the projects table, in table order. */
  function ProjectDepartments(projects: seq<Project>): (r: seq<string>)
    ensures |r| == |projects|
    ensures forall i :: 0 <= i < |projects| ==> r[i] == projects[i].department
  {
    if |projects| == 0 then []
    else ProjectDepartments(projects[..|projects| - 1]) + [projects[|projects| - 1].department]
  }

  /** The search of the review loop for the request whose button was pressed. */
  method FindOffered(pending: seq<PtoRequest>, id: int) returns (offered: bool)
    ensures offered <==> exists j :: 0 <= j < |pending| && pending[j].id == id
  {
    offered := false;
    for k := 0 to |pending|
      invariant offered <==> exists j :: 0 <= j < k && pending[j].id == id
    {
      if pending[k].id == id {
        offered := true;
      }
    }
  }

  class Store {
    var projects: seq<Project>
    var logs: seq<TimeLog>
    var calendar: seq<CalendarEntry>
    var ptos: seq<PtoRequest>

    ghost predicate Valid()
      reads this
    {
      && (forall i :: 0 <= i < |projects| ==> projects[i].name != [] && projects[i].department != [])
      && (forall i :: 0 <= i < |logs| ==> LogFromGrid(logs[i], projects))
      && IdsInOrder(ptos)
      && (forall i :: 0 <= i < |ptos| ==> PassesGate(ptos[i].email))
    }

    /** A fresh database: `CREATE TABLE IF NOT EXISTS` on an empty file. */
    constructor ()
      ensures Valid()
      ensures projects == [] && logs == [] && calendar == [] && ptos == []
    {
      projects, logs, calendar, ptos := [], [], [], [];
    }

    /** `SELECT DISTINCT department FROM projects`, the department selector. */
    function Departments(): (r: seq<string>)
      reads this
      ensures Distinct(r)
      ensures forall d :: d in r <==> exists i :: 0 <= i < |projects| && projects[i].department == d
    {
      Unique(ProjectDepartments(projects))
    }

    /** "Save Project": inserts the row only when name and department are both
        filled in, and only sessions that see the sidebar can press it. */
    method AddProject(user: string, name: string, client: string, dept: string, status: ProjectStatus)
      returns (saved: bool)
      requires Valid()
      modifies this
      ensures Valid()
      ensures saved <==> CanManage(user) && name != [] && dept != []
      ensures projects == old(projects) + (if saved then [Project(name, client, dept, status)] else [])
      ensures logs == old(logs) && calendar == old(calendar) && ptos == old(ptos)
    {
      saved := CanManage(user) && name != [] && dept != [];
      if saved {
        var p := Project(name, client, dept, status);
        forall i | 0 <= i < |logs| ensures LogFromGrid(logs[i], projects + [p]) {
          GridProjectsGrow(projects, p, logs[i].department, logs[i].project);
        }
        projects := projects + [p];
      }
    }

    /** The date form's "Save": one `holidays` row per selected date, in order. */
    method AddCalendarEntries(user: string, title: string, sel: DateSelection)
      requires Valid()
      modifies this
      ensures Valid()
      ensures calendar == old(calendar) + (if CanManage(user) then CalendarRows(title, sel) else [])
      ensures projects == old(projects) && logs == old(logs) && ptos == old(ptos)
    {
      if !CanManage(user) {
        return;
      }
      var selDates := SelectedDates(sel);
      ghost var rows := CalendarRows(title, sel);
      for i := 0 to |selDates|
        invariant calendar == old(calendar) + rows[..i]
        invariant projects == old(projects) && logs == old(logs) && ptos == old(ptos)
      {
        assert rows[..i + 1] == rows[..i] + [rows[i]];
        calendar := calendar + [CalendarEntry(title, selDates[i], if sel.EventSpan? then Event else Holiday)];
      }
      assert rows[..|selDates|] == rows;
    }

    /** "Save Timesheet": a log for every grid cell holding more than zero
        hours, project by project and Monday to Friday. The grid exists only
        once a department is selected. */
    method SaveTimesheet(user: string, dept: string, today: Day, values: seq<seq<real>>)
      requires Valid() && PassesGate(user)
      requires GridShaped(GridProjects(projects, dept), GridDays(today), values)
      modifies this
      ensures Valid()
      ensures logs == old(logs) +
                (if dept == [] then [] else GridLogs(user, dept, GridProjects(old(projects), dept), GridDays(today), values))
      ensures projects == old(projects) && calendar == old(calendar) && ptos == old(ptos)
    {
      if dept == [] {
        return;
      }
      var days := GridDays(today);
      var projs := ActiveNames(projects, dept);
      projs := projs + PseudoProjects;
      var entries := CollectEntries(projs, days, values);
      ghost var before := logs;
      SaveGrid(user, dept, projs, days, values, entries);
      GridLogsFromGrid(user, dept, projects, days, values);
      assert forall i :: |before| <= i < |logs| ==> logs[i] in GridLogs(user, dept, projs, days, values);
    }

    /** The outer loop of the save, over the grid rows in order. */
    method SaveGrid(user: string, dept: string, projs: seq<string>, days: seq<Day>, values: seq<seq<real>>, entries: seq<Entry>)
      requires GridShaped(projs, days, values) && |entries| == |projs|
      requires forall k :: 0 <= k < |projs| ==> EntryHolds(entries[k], projs[k], days, values[k])
      modifies this
      ensures logs == old(logs) + GridLogs(user, dept, projs, days, values)
      ensures projects == old(projects) && calendar == old(calendar) && ptos == old(ptos)
    {
      for k := 0 to |entries|
        invariant logs == old(logs) + GridLogs(user, dept, projs[..k], days, values[..k])
        invariant projects == old(projects) && calendar == old(calendar) && ptos == old(ptos)
      {
        GridLogsNext(user, dept, projs, days, values, k);
        SaveRow(user, dept, entries[k], projs[k], days, values[k]);
      }
      assert projs[..|projs|] == projs && values[..|projs|] == values;
    }

    /** The inner loop of the save: the row's cells with more than zero hours,
        Monday to Friday. */
    method SaveRow(user: string, dept: string, e: Entry, project: string, days: seq<Day>, row: seq<real>)
      requires |row| == |days| && EntryHolds(e, project, days, row)
      modifies this
      ensures logs == old(logs) + RowLogs(user, dept, project, days, row)
      ensures projects == old(projects) && calendar == old(calendar) && ptos == old(ptos)
    {
      for j := 0 to |days|
        invariant logs == old(logs) + RowLogs(user, dept, project, days[..j], row[..j])
        invariant projects == old(projects) && calendar == old(calendar) && ptos == old(ptos)
      {
        RowLogsNext(user, dept, project, days, row, j);
        assert days[j] in Elems(days);
        if e.hours[days[j]] > 0.0 {
          logs := logs + [TimeLog(user, dept, e.project, days[j], e.hours[days[j]], "")];
        }
      }
      assert days[..|days|] == days && row[..|days|] == row;
    }

    /** "Submit PTO": a Pending request filed today under the next id. */
    method SubmitPto(user: string, from: Day, to: Day, reason: string, today: Day)
      requires Valid() && PassesGate(user)
      modifies this
      ensures Valid()
      ensures ptos == old(ptos) + [PtoRequest(|old(ptos)| + 1, user, from, to, reason, Pending, today)]
      ensures projects == old(projects) && logs == old(logs) && calendar == old(calendar)
    {
      ptos := ptos + [PtoRequest(|ptos| + 1, user, from, to, reason, Pending, today)];
    }

    /** The requests on the review list (Cloksy_app.py:104): the pending
        rows, in table order, each once. */
    function PendingApprovals(): (r: seq<PtoRequest>)
      reads this
      requires IdsInOrder(ptos)
      ensures forall p :: p in r <==> p in ptos && p.status == Pending
      ensures IdsAscending(r)
    {
      PendingOrdered(ptos);
      PendingRequests(ptos)
    }

    /** The review loop: the pressed button belongs to a request on the list,
        and its UPDATE sets the status of the row with that id. */
    method Review(user: string, id: int, s: PtoStatus)
      requires Valid() && s != Pending
      modifies this
      ensures Valid()
      ensures ptos == if CanManage(user) then Decide(old(ptos), id, s) else old(ptos)
      ensures projects == old(projects) && logs == old(logs) && calendar == old(calendar)
    {
      if !CanManage(user) {
        return;
      }
      var offered := FindOffered(PendingApprovals(), id);
      assert offered <==> Offered(ptos, id) by {
        if Offered(ptos, id) {
          var i :| 0 <= i < |ptos| && ptos[i].id == id && ptos[i].status == Pending;
          assert ptos[i] in PendingRequests(ptos);
        }
      }
      if offered {
        UpdateStatus(id, s);
      }
      DecideEffect(old(ptos), id, s);
    }

    /** `UPDATE pto_requests SET status=? WHERE id=?` */
    method UpdateStatus(id: int, s: PtoStatus)
      modifies this
      ensures ptos == SetStatus(old(ptos), id, s)
      ensures projects == old(projects) && logs == old(logs) && calendar == old(calendar)
    {
      for i := 0 to |ptos|
        invariant |ptos| == |old(ptos)|
        invariant forall j :: 0 <= j < |ptos| ==>
                    ptos[j] == if j < i && old(ptos)[j].id == id then old(ptos)[j].(status := s) else old(ptos)[j]
        invariant projects == old(projects) && logs == old(logs) && calendar == old(calendar)
      {
        if ptos[i].id == id {
          ptos := ptos[i := ptos[i].(status := s)];
        }
      }
    }

    /** "Approve" on a pending request. */
    method Approve(user: string, id: int)
      requires Valid()
      modifies this
      ensures Valid()
      ensures ptos == if CanManage(user) then Decide(old(ptos), id, Approved) else old(ptos)
      ensures projects == old(projects) && logs == old(logs) && calendar == old(calendar)
    {
      Review(user, id, Approved);
    }

    /** "Reject" on a pending request. */
    method Reject(user: string, id: int)
      requires Valid()
      modifies this
      ensures Valid()
      ensures ptos == if CanManage(user) then Decide(old(ptos), id, Rejected) else old(ptos)
      ensures projects == old(projects) && logs == old(logs) && calendar == old(calendar)
    {
      Review(user, id, Rejected);
    }
  }
}
