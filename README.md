# Cloksy timesheet tracker — a Dafny model

Cloksy is a single Streamlit page backed by four SQLite tables:

- `projects`;
- `time_logs`;
- `holidays`, the company calendar;
- `pto_requests`.

An employee types an `@axial.energy` address and fills a Monday–Friday × project grid of hours. They can also request paid time off, and they see a weekly summary of their hours. Admins (`admin@…`) and team leads (`…-tl@…`) also see a sidebar with three controls:

- a project form;
- a calendar form for holidays and events;
- the list of pending PTO requests, each with Approve and Reject buttons.

This project models the page's logic in two layers.

- **The store** is the class `Cloksy.Store` (store.dfy). It holds the four tables as sequences of rows (tables.dfy). Each form button is one method:
  - `AddProject`;
  - `AddCalendarEntries`;
  - `SaveTimesheet`, whose two save loops are `SaveGrid` and `SaveRow`;
  - `SubmitPto`;
  - `Approve` and `Reject`, which share `Review` and `UpdateStatus`.

  Every widget value a button reads is a parameter. `user` is the address typed at the gate and `today` is the current date. Each method states the new state of all four tables. Each keeps `Valid()`: every stored log came from a positive grid cell of an admitted session, and PTO ids follow table order. The value-level definitions the methods are proved against live in their own modules:
  - timesheet.dfy: the grid and what a save writes;
  - calendar.dfy: calendar rows and the month listing;
  - leave.dfy: the PTO status machine;
  - access.dfy: the email gate and roles.
- **The reports** are pure functions over a snapshot of the logs (reports.dfy):
  - the weekly window;
  - the project totals (`groupby("project").sum()`);
  - the weekday × project pivot, reindexed to Monday..Friday with a row-total column;
  - the employee sections;
  - the long-form department table `dg` (`groupby(["department","day","project"]).sum()`);
  - the per-department pivots.

Two supporting modules:

- **Dates** (dates.dfy) holds the calendar arithmetic.
  - Days are integers counted from 1970-01-01.
  - The weekday is `(d + 3) % 7`, with Monday = 0.
  - A moment ("now") is a day plus microseconds since midnight.
  - The proleptic Gregorian conversion is written out, so the `LIKE 'YYYY-MM%'` filter becomes equality of year and month. Conversions both ways are proved.
- **Order** (order.dfy) models two pandas behaviours:
  - pandas' sorted group keys use Python's string order, which is code-point lexicographic (`StrLess`);
  - `unique()` keeps order of first appearance.

Hours are exact `real`s.

Behaviours of the code that the model makes explicit:

- **Weekly window.** The cutoff is `datetime.today() - 7 days` and carries the current time of day. A stored date is read back as its midnight. So a log dated exactly seven days ago is excluded unless "now" is exactly midnight (`Dates.InLastWeekIff`).
- **Roles.** Admin is the prefix test `startswith("admin@")`. Team lead is the test `"-tl@" in email`: the `-tl` must come right before an `@` (`Access.RolesIff`).
- **Breakdowns.** `df_l` is read with `WHERE email=?`, so every breakdown sees only the session's own logs. This covers the employee breakdown and the department breakdown. The "Employee" selector therefore offers exactly one address, and its section holds the whole window (`Reports.SessionBreakdown`).
- **Decisions are final.** Approve and Reject buttons exist only for the requests listed as Pending in the current page run. A decided request can therefore not be decided again (`Leave.DecisionIsFinal`).
- **Project totals order.** pandas' `groupby` sorts its keys, so the totals come in ascending project order (`Reports.ProjectTotalsOrder`).

## Model

| member | source | states |
|---|---|---|
| Access.Authenticate | Cloksy_app.py:53-60 | the gate: `NoEmail` for an empty field, `WrongDomain` for an address not ending in "@axial.energy", otherwise admitted with the flags `startswith("admin@")` and `"-tl@" in email`; its properties are `Access.AdmittedIff` and `Access.RolesIff` |
| Access.ContainsIff | Cloksy_app.py:60 | Python's `sub in s` scan holds exactly when `sub` occurs at some position of `s` |
| Access.AdmittedIff | Cloksy_app.py:53-58 | an address passes the gate iff it ends with "@axial.energy"; the empty field and a foreign domain are the two distinct stops |
| Access.RolesIff | Cloksy_app.py:59-63 | for an admitted address: admin iff it starts with "admin@", team lead iff "-tl@" occurs in it, sidebar iff either |
| Access.RolesNeedDomain | Cloksy_app.py:56-63 | an address without the domain is refused and sees no sidebar, whatever its prefix |
| Access.TeamLeadExample | Cloksy_app.py:60-63 | any `x-tl@axial.energy` address gets the management sidebar |
| Dates.MondayOf | Cloksy_app.py:123 | the grid's Monday is a Monday no later than today and less than a week before it |
| Dates.GridDays | Cloksy_app.py:124 | the grid has five strictly ascending days, Monday + i with weekday i |
| Dates.TodayInGrid | Cloksy_app.py:123-124 | today is a grid day exactly when it is Monday..Friday |
| Dates.DateRange | Cloksy_app.py:93 | `pd.date_range(dt0, dt1)` has `dt1 - dt0 + 1` days `dt0 + i`, none when `dt1 < dt0` |
| Dates.DateRangeMembers | Cloksy_app.py:93 | a day is in the range iff it lies between both ends inclusive |
| Dates.WeekendNotWorkday | Cloksy_app.py:202-204 | a day's name is one of the five pivot rows iff it is Monday..Friday |
| Dates.InLastWeekIff | Cloksy_app.py:174-177 | a log is in the window iff its day is later than a week ago, or exactly a week ago when now is midnight |
| Dates.Locate | Cloksy_app.py:168 | the year of a day offset and its place inside that year |
| Dates.MonthOfYear | Cloksy_app.py:168 | the month search returns the month whose days hold the day of the year |
| Dates.CivilOf | Cloksy_app.py:168 | the `strftime` civil date of a day number is a valid date |
| Dates.DayNumberOfCivil | Cloksy_app.py:168 | converting a day number to its civil date and back gives the same day |
| Dates.CivilOfDayNumber | Cloksy_app.py:168 | converting a valid civil date to a day number and back gives the same date |
| Dates.SameMonthIff | Cloksy_app.py:168 | a day has the "YYYY-MM" of a month iff it lies between that month's first and last day |
| Calendar.RowsFor | Cloksy_app.py:94-96 | one row per date, in the order of the dates, each carrying the title and the kind |
| Calendar.CalendarRows | Cloksy_app.py:86-97 | the rows of one "Save": the picked dates or every day of the range, kind "event" exactly for a range; its properties are `Calendar.EventSpanRows` and `Calendar.HolidayPickRows` |
| Calendar.EventSpanRows | Cloksy_app.py:91-97 | an event range gives one "event" row per day from `from` to `to` inclusive, ascending; none when `to < from` |
| Calendar.HolidayPickRows | Cloksy_app.py:86-90 | a holiday pick gives one "holiday" row per picked date, in pick order, repeats kept |
| Calendar.MonthListing | Cloksy_app.py:168-170 | the month listing holds exactly the calendar rows whose year and month are today's |
| Calendar.MonthListingAppend | Cloksy_app.py:168 | saving more rows adds exactly their rows of this month to the end of the listing |
| Leave.PendingRequests | Cloksy_app.py:104 | the review list holds exactly the Pending requests |
| Leave.PendingAppend | Cloksy_app.py:104 | a newly filed pending request joins the end of the review list |
| Leave.PendingOrdered | Cloksy_app.py:104 | with ids following the table, the review list's ids strictly ascend: table order, no request twice |
| Leave.SetStatus | Cloksy_app.py:109 | the UPDATE changes the status of the rows with that id and no other row |
| Leave.Decide | Cloksy_app.py:105-115 | a press of Approve or Reject on `id`: the UPDATE when a pending request with that id is listed, nothing otherwise; its properties are the four `Leave.Decide…` lemmas |
| Leave.DecideEffect | Cloksy_app.py:105-115 | a decision changes only the pending request with that id, to the chosen status, and keeps every id |
| Leave.DecideMovesOnlyPending | Cloksy_app.py:105-115 | a status only ever leaves Pending, and then for the decision given |
| Leave.DecisionIsFinal | Cloksy_app.py:105-115 | after Approve or Reject, a second decision on the same id changes nothing |
| Leave.DecidedLeavesList | Cloksy_app.py:104-115 | a decided request leaves the review list and nothing else joins or leaves it |
| Timesheet.ActiveNames | Cloksy_app.py:126-129 | the grid's project names are exactly the active projects of the department |
| Timesheet.GridProjects | Cloksy_app.py:126-130 | the grid rows: the department's active projects, then "Paid Time Off", "Company Holiday", "Company Event"; its shape is `Timesheet.GridProjectsShape` |
| Timesheet.GridProjectsShape | Cloksy_app.py:126-130 | the grid ends with the three fixed buckets; every other row is an active project of the department |
| Timesheet.CollectEntries | Cloksy_app.py:131-139 | one entry per grid project, keyed by exactly the grid days, each holding the typed value of its cell |
| Timesheet.RowLogs | Cloksy_app.py:143-148 | the inner save loop as a value: a log per day whose hours are > 0, in day order; specified by `Timesheet.RowLogsSpec` |
| Timesheet.GridLogs | Cloksy_app.py:142-148 | the outer save loop as a value: the rows' logs, project after project; specified by `Timesheet.GridLogsSpec` |
| Timesheet.RowLogsSpec | Cloksy_app.py:143-148 | a row writes exactly one log per day whose hours are > 0, carrying the address, department and empty notes |
| Timesheet.GridLogsSpec | Cloksy_app.py:142-148 | a save writes as many logs as the grid has cells with hours > 0, and a row is among them iff it is the log of such a cell |
| Timesheet.PositiveCellsBound | Cloksy_app.py:142-148 | a save writes at most five logs per grid project |
| Cloksy.GridProjectsGrow | Cloksy_app.py:72-77 | adding a project takes no row away from any department's grid |
| Cloksy.GridLogsFromGrid | Cloksy_app.py:141-148 | every log a save writes has hours > 0, empty notes, an admitted address and a project of the department's grid |
| Cloksy.FindOffered | Cloksy_app.py:105-108 | the search finds a listed request with the pressed id iff one exists |
| Cloksy.Store.constructor | Cloksy_app.py:11-45 | a fresh database has four empty tables and satisfies the store invariant |
| Cloksy.Store.Departments | Cloksy_app.py:118 | the department selector lists each department of the projects table once, and only those |
| Cloksy.Store.AddProject | Cloksy_app.py:72-77 | the row is appended iff the session manages and both name and department are filled in; otherwise nothing changes |
| Cloksy.Store.AddCalendarEntries | Cloksy_app.py:94-97 | a managing session appends the rows of its selection, in order; nothing else changes |
| Cloksy.Store.SaveTimesheet | Cloksy_app.py:121-148 | with a department selected, appends the grid's logs (one per positive cell), keeping the log invariant; otherwise nothing changes |
| Cloksy.Store.SaveGrid | Cloksy_app.py:142-148 | the outer loop appends the logs of every grid row, row by row |
| Cloksy.Store.SaveRow | Cloksy_app.py:143-148 | the inner loop appends the row's logs for its positive cells, day by day |
| Cloksy.Store.SubmitPto | Cloksy_app.py:158-162 | appends a Pending request under the next id, submitted today; nothing else changes |
| Cloksy.Store.PendingApprovals | Cloksy_app.py:104 | the review list: exactly the pending requests, ids strictly ascending |
| Cloksy.Store.Review | Cloksy_app.py:105-115 | a managing session's Approve or Reject applies the decision to the listed request with that id |
| Cloksy.Store.UpdateStatus | Cloksy_app.py:109 | the UPDATE loop sets the status of the rows with that id |
| Cloksy.Store.Approve | Cloksy_app.py:108-111 | Approve on a listed request sets it to Approved; other rows and tables are unchanged |
| Cloksy.Store.Reject | Cloksy_app.py:112-115 | Reject on a listed request sets it to Rejected; other rows and tables are unchanged |
| Reports.Window | Cloksy_app.py:174-177 | a log is in `df_w` iff it is the session's and inside the last week |
| Reports.WindowAppend | Cloksy_app.py:174-177 | the window distributes over appended rows, so every matching copy of a row is kept, in table order |
| Reports.WindowSingle | Cloksy_app.py:176-177 | one row alone is in the window exactly when it is the session's and inside the last week |
| Reports.WindowDays | Cloksy_app.py:174-177 | the same window day by day, the day exactly a week back only at midnight |
| Reports.LogFacts | Cloksy_app.py:211-212 | each row gets its department, the English day name of its date, project and hours |
| Reports.Partition | Cloksy_app.py:183 | when every row's project is a column, the per-project sums add up to all the hours |
| Reports.ProjectTotals | Cloksy_app.py:183 | `groupby("project")["hours"].sum()`: a row per sorted project key holding its hours; specified by the three `Reports.ProjectTotals…` lemmas |
| Reports.ProjectKeys | Cloksy_app.py:183 | the group keys are each project of the rows once, and only those |
| Reports.ProjectTotalsOrder | Cloksy_app.py:183 | the totals come in ascending project order, each holding the sum of its project's hours |
| Reports.ProjectTotalsCover | Cloksy_app.py:183 | a totals row for every project of the week and for no other |
| Reports.ProjectTotalsSum | Cloksy_app.py:183 | the totals add up to all the hours of the week |
| Reports.PivotOf | Cloksy_app.py:203-205 | `pivot_table` reindexed to Monday..Friday with a total column: the sorted projects as columns and a row per working day; specified by `Reports.PivotDay` and the `Reports.PivotColumns…` lemmas |
| Reports.DayRowSpec | Cloksy_app.py:203-205 | a day row has one cell per column with that project's hours of the day, and a total of all the day's hours |
| Reports.PivotDay | Cloksy_app.py:203-205 | the pivot has five rows Monday..Friday; a cell holds the hours of its day and project (0 when none); the row total holds all hours of that day |
| Reports.PivotColumnsOrder | Cloksy_app.py:203 | the pivot's project columns are ascending |
| Reports.PivotColumnsCover | Cloksy_app.py:203 | one column per project of the rows, each once, and no other |
| Reports.KnownProjectColumns | Cloksy_app.py:203 | a row for a project already present adds no column |
| Reports.OffDayFact | Cloksy_app.py:203-205 | a weekend row for a known project leaves the pivot unchanged |
| Reports.OffDayTotals | Cloksy_app.py:204-205 | a weekend row never changes any day's total |
| Reports.WeekendLog | Cloksy_app.py:201-205 | a Saturday or Sunday log for a project already in the window leaves its pivot unchanged |
| Reports.OfEmployeeMembers | Cloksy_app.py:201 | an employee's rows are exactly the window's logs with that address |
| Reports.OfEmployeeAll | Cloksy_app.py:198-201 | when every log is the employee's, the selection is the whole window |
| Reports.EmployeeBreakdown | Cloksy_app.py:197-205 | the employee sections: each address of `unique()` under "All", the chosen one otherwise, each holding that address's rows; specified by the `Reports.EmployeeSections…` and `Reports.EmployeeBreakdown…` lemmas |
| Reports.EmployeeEmails | Cloksy_app.py:199 | "All" lists each address of the window once and no other |
| Reports.EmployeeSectionsDistinct | Cloksy_app.py:199 | under "All" no address gets two sections |
| Reports.EmployeeSectionsCover | Cloksy_app.py:199 | under "All" every address of the window gets a section |
| Reports.EmployeeSectionsOnly | Cloksy_app.py:199 | under "All" every section is an address of the window |
| Reports.EmployeeBreakdownRows | Cloksy_app.py:197-201 | every section holds exactly its employee's logs of the window |
| Reports.EmployeeBreakdownOne | Cloksy_app.py:199-201 | a chosen address shows exactly its one section |
| Reports.SessionBreakdown | Cloksy_app.py:174-201 | the selector offers only the session's address, and "All" shows one section holding the whole window |
| Reports.KeyLessIsStrictTotalOrder | Cloksy_app.py:213 | the (department, day, project) key order is a strict total order |
| Reports.KeyFactsMembers | Cloksy_app.py:212-213 | a key's rows are exactly the rows with that department, day name and project |
| Reports.DepartmentTable | Cloksy_app.py:213 | `dg`: a row per sorted (department, day, project) key holding its summed hours; specified by `Reports.DepartmentTableOrder`, `…Has` and `…From` |
| Reports.GroupKeys | Cloksy_app.py:213 | the group keys of `dg` are ascending and distinct |
| Reports.DepartmentTableOrder | Cloksy_app.py:213 | `dg` is sorted by department, day name and project, each row holding the hours of its key |
| Reports.DepartmentTableHas | Cloksy_app.py:213 | every key of the window has a row in `dg` |
| Reports.DepartmentTableFrom | Cloksy_app.py:213 | every row of `dg` has its key in the window |
| Reports.GroupedKeyFacts | Cloksy_app.py:212-213 | in grouped rows with distinct keys, a key's hours are its one row's, or 0 |
| Reports.KeyFactsAbsent | Cloksy_app.py:212-213 | a key no row carries has no rows |
| Reports.RegroupHours | Cloksy_app.py:212-213 | grouping keeps every key's hours: `dg`'s rows of a key hold the window's hours of that key |
| Reports.ProjectColumnMembers | Cloksy_app.py:217 | a project column value is the project of some row |
| Reports.TableProjectInFacts | Cloksy_app.py:213-217 | a project of a department's `dg` rows is one of its window projects |
| Reports.FactProjectInTable | Cloksy_app.py:213-217 | a project of a department's window rows is one of its `dg` projects |
| Reports.DepartmentProjects | Cloksy_app.py:213-217 | a department has the same projects in `dg` as in the window |
| Reports.DepartmentCells | Cloksy_app.py:213-218 | a department's day cells are the same whether pivoted from `dg` or from the window |
| Reports.DepartmentPivotOfFacts | Cloksy_app.py:213-219 | pivoting a department's `dg` rows gives the pivot of its window rows: columns, cells and totals |
| Reports.DepartmentBreakdown | Cloksy_app.py:214-219 | a section per `dg.department.unique()`, holding that department's `dg` rows; specified by `Reports.DepartmentBreakdownPivots` and the `Reports.DepartmentSection…` lemmas |
| Reports.DepartmentBreakdownOrder | Cloksy_app.py:214 | department sections come in ascending department order |
| Reports.TableHasDepartment | Cloksy_app.py:214 | every department of the window is among `dg.department.unique()` |
| Reports.DepartmentSectionHas | Cloksy_app.py:214 | a department of the window has a section |
| Reports.DepartmentSectionFrom | Cloksy_app.py:214 | a section's department is one of the window's |
| Reports.DepartmentSectionsOnly | Cloksy_app.py:214 | every section is a department of the window |
| Reports.DepartmentBreakdownPivots | Cloksy_app.py:214-219 | each section holds its department's `dg` rows and shows the pivot of that department's window rows |
| Reports.WeeklySummary | Cloksy_app.py:173-219 | "No data this week." for an empty window, otherwise the project totals, the employee sections, `dg` and the department sections of the window |
| Reports.NoDataIff | Cloksy_app.py:179-180 | "No data this week." exactly when the session has no log in the window |
| Order.StrLessIsStrictTotalOrder | Cloksy_app.py:183 | Python's string order is a strict total order |
| Order.SortedKeys | Cloksy_app.py:183 | the group keys hold exactly the values of the column; they ascend, by `Order.SortedKeysAscending` |
| Order.SortedKeysAscending | Cloksy_app.py:183 | sorted group keys are strictly ascending |
| Order.AscendingDistinct | Cloksy_app.py:183 | strictly ascending keys have no duplicates |
| Order.Unique | Cloksy_app.py:199 | `unique()` holds each value of the column once and no other value |
| Order.UniqueFirstAppearance | Cloksy_app.py:199 | `unique()` lists values in order of first appearance: wherever a later value occurs, every earlier one has occurred before it |
| Order.AscendingUnique | Cloksy_app.py:183 | two ascending key lists holding the same values are equal |
| Order.SortedKeysSame | Cloksy_app.py:203 | columns holding the same values have the same sorted keys |
| Order.SortedKeysKnown | Cloksy_app.py:203 | another row for a value already present leaves the keys unchanged |
| Order.UniqueOfNondecreasing | Cloksy_app.py:214 | `unique()` of a column sorted ascending is strictly ascending |
| Order.UniqueConstant | Cloksy_app.py:199 | `unique()` of a column holding one value is that value |
| Order.SortedKeysConstant | Cloksy_app.py:197 | the sorted keys of a column holding one value are that value |

## Left out

- The Streamlit UI is not modelled: widgets, `st.stop`, the rerun model, messages and layout. Widget values are parameters of the store's methods. The selector's choice `One(email)` is not restricted to the offered addresses.
- SQLite is not modelled: the connection, SQL text, commits and the shared connection. The tables are in-memory sequences.
- AUTOINCREMENT ids are not modelled for `projects`, `time_logs` and `holidays`, because nothing reads them. PTO ids are modelled as table position + 1.
- Concurrency is not modelled: races between sessions approving or rejecting the same request.
- The bytes of the CSV and XLSX exports (Cloksy_app.py:186-193, 222-223) are not modelled. They come from pandas and xlsxwriter, whose code is not part of this model.
- Floating point is not modelled: hours are exact reals.
- The `min_value`/`step` of the number inputs are not constraints of the model. The save's `> 0` test is modelled for any real.
- `strftime`/`to_datetime` text is not modelled. Dates are day numbers. A stored date string read back is its midnight, and "YYYY-MM" is the civil year and month.
- Reports.Window: keeps table order instead of the `ORDER BY date DESC` order. With exact sums and sorted group keys, no modelled output depends on it. The one order it could affect is `unique()` over a single address.
- The `st.date_input` failure is not modelled: the crash when only one date of the range is chosen (Cloksy_app.py:92).
- Reports.PivotOf: does not model the clash of a project literally named "Total Hours" or "Total" with the total column.
- Dates.InLastWeekIff: requires a valid time of day (fewer microseconds than a day has), as `datetime.today()` always gives.
- Timesheet.GridLogsSpec: states the count and the membership of the saved logs, not a cell-by-cell matching, so equal logs of two grid rows with the same name are not told apart. The page never saves such a grid: each cell's widget key is `f"{p}_{i}"` (Cloksy_app.py:138), and Streamlit refuses a repeated key, so a department with an active project named like a bucket (which `Cloksy.Store.AddProject` permits) or two active projects of one name fails to render its grid.
