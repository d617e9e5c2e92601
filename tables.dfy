/** The rows of the four tables the page keeps (Cloksy_app.py:11-45). */
module Tables {
  import opened Dates

  datatype ProjectStatus = Active | Inactive

  /** A `projects` row. The AUTOINCREMENT id is not read anywhere and is left out. */
  datatype Project = Project(name: string, client: string, department: string, status: ProjectStatus)

  /** A `time_logs` row (id left out, as for projects). */
  datatype TimeLog = TimeLog(
    email: string,
    department: string,
    project: string,
    date: Day,
    hours: real,
    notes: string)

  /** The `type` column of a `holidays` row. */
  datatype EntryKind = Holiday | Event

  /** A `holidays` row (id left out, as for projects). */
  datatype CalendarEntry = CalendarEntry(title: string, date: Day, kind: EntryKind)

  datatype PtoStatus = Pending | Approved | Rejected

  /** A `pto_requests` row; its id is what the approval buttons act on. */
  datatype PtoRequest = PtoRequest(
    id: nat,
    email: string,
    fromDate: Day,
    toDate: Day,
    reason: string,
    status: PtoStatus,
    submittedOn: Day)
}
