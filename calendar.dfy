/** The company calendar: what the date form turns into `holidays` rows
    (Cloksy_app.py:83-97) and the "this month" listing (Cloksy_app.py:168-170). */
module Calendar {
  import opened Dates
  import opened Tables

  /** What the date form collects. "holiday (single/multi)" offers a
      multi-select of dates, "event (range)" a from/to pair. */
  datatype DateSelection = HolidayPick(dates: seq<Day>) | EventSpan(from: Day, to: Day)

  /** `sel_dates`: the picked dates as picked, or every day of the span. */
  function SelectedDates(sel: DateSelection): seq<Day>
  {
    match sel
    case HolidayPick(dates) => dates
    case EventSpan(from, to) => DateRange(from, to)
  }

  /** `"event" if "event" in type_sel else "holiday"`. */
  function KindOf(sel: DateSelection): EntryKind
  {
    if sel.EventSpan? then Event else Holiday
  }

  /** One row per date, in the order of the dates. */
  function RowsFor(title: string, dates: seq<Day>, kind: EntryKind): (rows: seq<CalendarEntry>)
    ensures |rows| == |dates|
    ensures forall i :: 0 <= i < |dates| ==> rows[i] == CalendarEntry(title, dates[i], kind)
  {
    if |dates| == 0 then []
    else RowsFor(title, dates[..|dates| - 1], kind) + [CalendarEntry(title, dates[|dates| - 1], kind)]
  }

  /** The rows one press of "Save" inserts, in insertion order. */
  function CalendarRows(title: string, sel: DateSelection): seq<CalendarEntry>
  {
    RowsFor(title, SelectedDates(sel), KindOf(sel))
  }

  /** An event span gives one "event" row per day from `from` to `to`, in
      ascending order; none when `to` comes before `from`. */
  lemma EventSpanRows(title: string, from: Day, to: Day)
    ensures |CalendarRows(title, EventSpan(from, to))| == (if to < from then 0 else to - from + 1)
    ensures forall i :: 0 <= i < |CalendarRows(title, EventSpan(from, to))| ==>
              CalendarRows(title, EventSpan(from, to))[i] == CalendarEntry(title, from + i, Event)
    ensures forall d :: CalendarEntry(title, d, Event) in CalendarRows(title, EventSpan(from, to)) <==>
              from <= d <= to
  {
    var rows := CalendarRows(title, EventSpan(from, to));
    forall d ensures CalendarEntry(title, d, Event) in rows <==> from <= d <= to {
      if from <= d <= to {
        assert rows[d - from] == CalendarEntry(title, d, Event);
      }
    }
  }

  /** A holiday pick gives one "holiday" row per picked date, in pick order,
      with repeated dates repeated. */
  lemma HolidayPickRows(title: string, dates: seq<Day>)
    ensures |CalendarRows(title, HolidayPick(dates))| == |dates|
    ensures forall i :: 0 <= i < |dates| ==>
              CalendarRows(title, HolidayPick(dates))[i] == CalendarEntry(title, dates[i], Holiday)
  {
  }

  /** `SELECT * FROM holidays WHERE date LIKE 'YYYY-MM%'` with today's year
      and month: the rows of this month, in table order. */
  function MonthListing(entries: seq<CalendarEntry>, today: Day): (r: seq<CalendarEntry>)
    ensures |r| <= |entries|
    ensures forall e :: e in r <==> e in entries && YearMonth(e.date) == YearMonth(today)
  {
    if |entries| == 0 then []
    else
      var rest := MonthListing(entries[..|entries| - 1], today);
      var e := entries[|entries| - 1];
      assert entries == entries[..|entries| - 1] + [e];
      if YearMonth(e.date) == YearMonth(today) then rest + [e] else rest
  }

  /** Adding rows for another month leaves this month's listing as it was;
      rows for this month join its end. */
  lemma {:induction false} MonthListingAppend(entries: seq<CalendarEntry>, more: seq<CalendarEntry>, today: Day)
    ensures MonthListing(entries + more, today) == MonthListing(entries, today) + MonthListing(more, today)
    decreases |more|
  {
    if |more| == 0 {
      assert entries + more == entries;
    } else {
      var init := more[..|more| - 1];
      assert (entries + more)[..|entries + more| - 1] == entries + init;
      assert (entries + more)[|entries + more| - 1] == more[|more| - 1];
      MonthListingAppend(entries, init, today);
    }
  }
}
