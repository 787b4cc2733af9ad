/**
 * The calendar view of static/js/app.js (`initCalendarView`): the shown
 * month and year and the selected date are closure variables that the
 * navigation buttons and day clicks update; `renderCalendar` lays the month
 * out in Monday-first weeks padded with days of the neighbouring months;
 * the events of the month are grouped by date to draw up to three dots per
 * day; event types get a label.
 *
 * Each cell carries the three numbers written into its `data-date` text.
 * The neighbouring-month cells keep the numbers the source writes (the year
 * is not rolled over and the month after December is written as 13); the
 * model states what is written, not that it names the right day.
 */
module CalendarView {
  import opened Text
  import opened Gregorian

  /** The numbers written into a cell's `data-date`, month counted from 1. */
  datatype KeyFields = KeyFields(year: int, month: int, day: int)

  datatype GridCell =
    | OtherMonth(day: int, key: KeyFields)
    | CurrentMonth(day: int, isToday: bool, isSelected: bool, key: KeyFields)

  /** An event as the events endpoint returns it; `kind` is its `type` field. */
  datatype ServerEvent = ServerEvent(id: string, title: string, date: string, time: string, kind: string)

  /** `isSameDay`: compares the day, the month and the year only. */
  function IsSameDay(a: Date, b: Date): (r: bool)
    ensures r <==> a == b
  {
    a.day == b.day && a.month == b.month && a.year == b.year
  }

  /**
   * The `data-date` text: the three numbers joined by '-'. For a date of
   * year 0 or later splitting at '-' gives back the three printed numbers.
   */
  function DateKey(k: KeyFields): (s: string)
    ensures k.year >= 0 && k.month >= 0 && k.day >= 0 ==>
      Split(s, '-') == [NatToString(k.year), NatToString(k.month), NatToString(k.day)]
  {
    var a, b, c := IntToString(k.year), IntToString(k.month), IntToString(k.day);
    if k.year >= 0 && k.month >= 0 && k.day >= 0 then
      SplitDigitTriple(a, b, c);
      a + "-" + b + "-" + c
    else
      a + "-" + b + "-" + c
  }

  /** Three digit strings joined by '-' split back into the three. */
  lemma SplitDigitTriple(a: string, b: string, c: string)
    requires AllDigits(a) && AllDigits(b) && AllDigits(c)
    ensures Split(a + "-" + b + "-" + c, '-') == [a, b, c]
  {
    DigitsHaveNoDash(a);
    DigitsHaveNoDash(b);
    DigitsHaveNoDash(c);
    SplitWithoutSeparator(c, '-');
    SplitAfterPiece(b, '-', c);
    SplitAfterPiece(a, '-', b + ['-'] + c);
    assert a + "-" + b + "-" + c == a + ['-'] + (b + ['-'] + c);
  }

  /**
   * `dateStr.split("-").map(Number)` read into year, month and day; None when
   * one of the three is missing or not a number.
   */
  function ParseDateKey(s: string): (r: Option<KeyFields>)
    ensures var parts := Split(s, '-');
      r.Some? <==> |parts| >= 3 && AllDigits(parts[0]) && AllDigits(parts[1]) && AllDigits(parts[2])
    ensures r.Some? ==> r.value.year >= 0 && r.value.month >= 0 && r.value.day >= 0
  {
    var parts := Split(s, '-');
    if |parts| < 3 then None
    else
      match (ParseDecimal(parts[0]), ParseDecimal(parts[1]), ParseDecimal(parts[2]))
      case (Some(y), Some(m), Some(d)) => Some(KeyFields(y, m, d))
      case _ => None
  }

  /** A digit string holds no '-'. */
  lemma DigitsHaveNoDash(s: string)
    requires AllDigits(s)
    ensures '-' !in s
  {
  }

  /** Reading a key back gives the numbers it was written from (for non-negative numbers). */
  lemma DateKeyRoundTrip(k: KeyFields)
    requires k.year >= 0 && k.month >= 0 && k.day >= 0
    ensures ParseDateKey(DateKey(k)) == Some(k)
  {
    ParseNatToString(k.year);
    ParseNatToString(k.month);
    ParseNatToString(k.day);
  }

  /** The grid column of the 1st: `getDay() - 1`, with Sunday moved from -1 to 6. */
  function FirstDayIndex(year: int, month: int): (i: int)
    requires 0 <= month < 12
    ensures 0 <= i < 7
    ensures (i + 1) % 7 == Weekday(year, month, 1)
  {
    var i := Weekday(year, month, 1) - 1;
    if i < 0 then 6 else i
  }

  /** Day d of the month sits in the Monday-first column of its weekday (Monday 0 … Sunday 6). */
  lemma MondayColumn(year: int, month: int, d: int)
    requires 0 <= month < 12
    ensures (FirstDayIndex(year, month) + d - 1) % 7 == (Weekday(year, month, d) + 6) % 7
  {
    WeekdayOfDay(year, month, d);
    ColumnShift(Weekday(year, month, 1), FirstDayIndex(year, month), d - 1);
  }

  /**
   * Grid position k, in a grid whose first FirstDayIndex cells belong to the
   * month before, lies in the Monday-first column of the weekday of the day
   * it shows.
   */
  ghost predicate InWeekdayColumn(year: int, month: int, k: int)
    requires 0 <= month < 12
  {
    k % 7 == (Weekday(year, month, k - FirstDayIndex(year, month) + 1) + 6) % 7
  }

  /** Every day of the month sits, in a grid offset by FirstDayIndex, in its Monday-first weekday column. */
  lemma MonthColumns(year: int, month: int)
    requires 0 <= month < 12
    ensures var f := FirstDayIndex(year, month);
      forall k :: f <= k < f + DaysInMonth(year, month) ==> InWeekdayColumn(year, month, k)
  {
    var f := FirstDayIndex(year, month);
    forall k | f <= k < f + DaysInMonth(year, month)
      ensures InWeekdayColumn(year, month, k)
    {
      var d := k - f + 1;
      MondayColumn(year, month, d);
      assert f + d - 1 == k;
    }
  }

  /** Counting columns from Monday moves every weekday back by one, modulo 7. */
  lemma ColumnShift(w: int, f: int, x: int)
    requires 0 <= w < 7 && f == (if w == 0 then 6 else w - 1)
    ensures (f + x) % 7 == ((w + x) % 7 + 6) % 7
  {
    ModShift7(w + x, 6);
    if w != 0 {
      assert w + x + 6 == (f + x) + 7;
    }
  }

  /** Padding f + n cells up to whole weeks gives four to six weeks. */
  lemma GridLength(f: int, n: int)
    requires 0 <= f < 7 && 28 <= n <= 31
    ensures var t := f + n; var next := 7 - t % 7;
      var len := if next < 7 then t + next else t;
      len % 7 == 0 && t <= len < t + 7 && 28 <= len <= 42
  {
  }

  /** The events with the given `date` text, in their original order. */
  function EventsWithDate(events: seq<ServerEvent>, date: string): (r: seq<ServerEvent>)
    ensures forall e :: e in r <==> e in events && e.date == date
    decreases |events|
  {
    if events == [] then []
    else
      var last := events[|events| - 1];
      EventsWithDate(events[..|events| - 1], date) + (if last.date == date then [last] else [])
  }

  /** No event carries the date: its bucket is empty. */
  lemma {:induction false} NoEventsWithDate(events: seq<ServerEvent>, date: string)
    requires forall e :: e in events ==> e.date != date
    ensures EventsWithDate(events, date) == []
    decreases |events|
  {
    if events != [] {
      NoEventsWithDate(events[..|events| - 1], date);
    }
  }

  /** Each event lands in the bucket of its own date as often as it occurs, and in no other. */
  lemma {:induction false} BucketCount(events: seq<ServerEvent>, date: string, e: ServerEvent)
    ensures multiset(EventsWithDate(events, date))[e] == if e.date == date then multiset(events)[e] else 0
    decreases |events|
  {
    if events != [] {
      var init := events[..|events| - 1];
      BucketCount(init, date, e);
      assert events == init + [events[|events| - 1]];
    }
  }

  /** byDate holds, for every date that occurs in events, that date's events in order, and nothing else. */
  ghost predicate Grouped(byDate: map<string, seq<ServerEvent>>, events: seq<ServerEvent>) {
    && (forall d :: d in byDate <==> exists e :: e in events && e.date == d)
    && (forall d :: d in byDate ==> byDate[d] == EventsWithDate(events, d))
  }

  /** One step of the grouping loop: appending e to its date's bucket keeps the grouping. */
  lemma GroupStep(prefix: seq<ServerEvent>, e: ServerEvent, byDate: map<string, seq<ServerEvent>>)
    requires Grouped(byDate, prefix)
    ensures Grouped(byDate[e.date := (if e.date in byDate then byDate[e.date] else []) + [e]], prefix + [e])
  {
    var next := prefix + [e];
    var grouped := byDate[e.date := (if e.date in byDate then byDate[e.date] else []) + [e]];
    assert next[..|next| - 1] == prefix && next[|next| - 1] == e;
    forall d
      ensures d in grouped <==> exists x :: x in next && x.date == d
    {
      if d == e.date {
        assert e in next;
      } else {
        if d in byDate {
          var x :| x in prefix && x.date == d;
          assert x in next;
        }
        if exists x :: x in next && x.date == d {
          var x :| x in next && x.date == d;
          assert x in prefix;
        }
      }
    }
    forall d | d in grouped
      ensures grouped[d] == EventsWithDate(next, d)
    {
      if d == e.date && e.date !in byDate {
        NoEventsWithDate(prefix, d);
      }
    }
  }

  /**
   * The grouping loop of `loadEventsForMonth`: one bucket per date that
   * occurs, holding that date's events in their original order.
   */
  method GroupByDate(events: seq<ServerEvent>) returns (byDate: map<string, seq<ServerEvent>>)
    ensures forall d :: d in byDate <==> exists e :: e in events && e.date == d
    ensures forall d :: d in byDate ==> byDate[d] == EventsWithDate(events, d)
  {
    byDate := map[];
    var i := 0;
    while i < |events|
      invariant 0 <= i <= |events|
      invariant Grouped(byDate, events[..i])
    {
      var e := events[i];
      assert events[..i + 1] == events[..i] + [e];
      GroupStep(events[..i], e, byDate);
      if e.date !in byDate {
        byDate := byDate[e.date := []];
      }
      byDate := byDate[e.date := byDate[e.date] + [e]];
      i := i + 1;
    }
    assert events[..|events|] == events;
  }

  predicate IsKnownType(kind: string) {
    kind == "deadline" || kind == "exam" || kind == "class" || kind == "meeting"
  }

  /** `getEventTypeLabel`. */
  function EventTypeLabel(kind: string): (name: string)
    ensures name == "Evento" <==> !IsKnownType(kind)
  {
    if kind == "deadline" then "Entrega"
    else if kind == "exam" then "Examen"
    else if kind == "class" then "Clase"
    else if kind == "meeting" then "Tutoría"
    else "Evento"
  }

  /** The four known types have four different labels. */
  lemma KnownLabelsDistinct(a: string, b: string)
    requires IsKnownType(a) && IsKnownType(b) && a != b
    ensures EventTypeLabel(a) != EventTypeLabel(b)
  {
  }

  /** The background a dot gets for an event type; unknown types get none. */
  function DotColor(kind: string): (color: Option<string>)
    ensures color.Some? <==> IsKnownType(kind)
    ensures color.Some? <==> EventTypeLabel(kind) != "Evento"
  {
    if kind == "deadline" then Some("var(--error-color)")
    else if kind == "exam" then Some("var(--warning-color)")
    else if kind == "class" then Some("var(--info-color)")
    else if kind == "meeting" then Some("var(--success-color)")
    else None
  }

  /**
   * The dot loop: one dot per event of the day, at most three, coloured by
   * the event's type, for the first events of the bucket.
   */
  method RenderDots(bucket: seq<ServerEvent>) returns (dots: seq<Option<string>>)
    ensures |dots| <= 3 && |dots| <= |bucket|
    ensures |dots| < 3 ==> |dots| == |bucket|
    ensures forall i :: 0 <= i < |dots| ==> dots[i] == DotColor(bucket[i].kind)
  {
    var maxDots := if |bucket| < 3 then |bucket| else 3;
    dots := [];
    for i := 0 to maxDots
      invariant |dots| == i
      invariant forall j :: 0 <= j < i ==> dots[j] == DotColor(bucket[j].kind)
    {
      dots := dots + [DotColor(bucket[i].kind)];
    }
  }


  /**
   * The first `count` cells of the grid: the last `count` days of the month
   * before `month`, counting up to its last day, keyed with the 1-based
   * month number as the grid writes it (December of the year before shows
   * as month 12 of `year`).
   */
  method PreviousMonthCells(year: int, month: int, count: int) returns (cells: seq<GridCell>)
    requires 0 <= month < 12 && 0 <= count
    ensures |cells| == count
    ensures forall k :: 0 <= k < count ==>
      var day := PrevMonthLength(year, month) - count + 1 + k;
      cells[k] == OtherMonth(day, KeyFields(year, if month == 0 then 12 else month, day))
  {
    var prevMonthLastDay := PrevMonthLength(year, month);
    cells := [];
    var i := count;
    while i > 0
      invariant 0 <= i <= count
      invariant |cells| == count - i
      invariant forall k :: 0 <= k < |cells| ==>
        var day := prevMonthLastDay - count + 1 + k;
        cells[k] == OtherMonth(day, KeyFields(year, if month == 0 then 12 else month, day))
    {
      var day := prevMonthLastDay - i + 1;
      cells := cells + [OtherMonth(day, KeyFields(year, if month == 0 then 12 else month, day))];
      i := i - 1;
    }
  }

  /** One cell per day of the month, in order, flagged when it is today or the selected date. */
  method MonthCells(year: int, month: int, today: Date, selected: Date) returns (cells: seq<GridCell>)
    requires 0 <= month < 12
    ensures |cells| == DaysInMonth(year, month)
    ensures forall k :: 0 <= k < |cells| ==>
      var date := Date(year, month, k + 1);
      cells[k] == CurrentMonth(k + 1, IsSameDay(date, today), IsSameDay(date, selected), KeyFields(year, month + 1, k + 1))
  {
    cells := [];
    for d := 1 to DaysInMonth(year, month) + 1
      invariant |cells| == d - 1
      invariant forall k :: 0 <= k < |cells| ==>
        var date := Date(year, month, k + 1);
        cells[k] == CurrentMonth(k + 1, IsSameDay(date, today), IsSameDay(date, selected), KeyFields(year, month + 1, k + 1))
    {
      var date := Date(year, month, d);
      cells := cells + [CurrentMonth(d, IsSameDay(date, today), IsSameDay(date, selected), KeyFields(year, month + 1, d))];
    }
  }

  /** Days 1 .. count of the following month, keyed with month number month + 2 as the grid writes it. */
  method NextMonthCells(year: int, month: int, count: int) returns (cells: seq<GridCell>)
    requires 0 <= count
    ensures |cells| == count
    ensures forall k :: 0 <= k < count ==> cells[k] == OtherMonth(k + 1, KeyFields(year, month + 2, k + 1))
  {
    cells := [];
    for d := 1 to count + 1
      invariant |cells| == d - 1
      invariant forall k :: 0 <= k < |cells| ==> cells[k] == OtherMonth(k + 1, KeyFields(year, month + 2, k + 1))
    {
      cells := cells + [OtherMonth(d, KeyFields(year, month + 2, d))];
    }
  }

  /** Where each cell of a grid made of three runs of cells comes from. */
  lemma ThreeParts(a: seq<GridCell>, b: seq<GridCell>, c: seq<GridCell>)
    ensures forall k :: 0 <= k < |a| ==> (a + b + c)[k] == a[k]
    ensures forall k :: |a| <= k < |a| + |b| ==> (a + b + c)[k] == b[k - |a|]
    ensures forall k :: |a| + |b| <= k < |a| + |b| + |c| ==> (a + b + c)[k] == c[k - |a| - |b|]
  {
  }

  /** The state of `initCalendarView`: the shown month and year and the selected date. */
  class MonthCalendar {
    var currentMonth: int
    var currentYear: int
    var selectedDate: Date
    const today: Date

    ghost predicate Valid()
      reads this
    {
      0 <= currentMonth < 12
    }

    /** The view opens on today's month with today selected. */
    constructor (today: Date)
      requires 0 <= today.month < 12
      ensures Valid() && this.today == today && selectedDate == today
      ensures currentMonth == today.month && currentYear == today.year
    {
      this.today := today;
      currentMonth := today.month;
      currentYear := today.year;
      selectedDate := today;
    }

    /** The previous-month button: one month back, January wraps to December of the year before. */
    method PrevMonth()
      requires Valid()
      modifies this`currentMonth, this`currentYear
      ensures Valid()
      ensures MonthIndex(currentYear, currentMonth) == MonthIndex(old(currentYear), old(currentMonth)) - 1
    {
      currentMonth := currentMonth - 1;
      if currentMonth < 0 {
        currentMonth := 11;
        currentYear := currentYear - 1;
      }
    }

    /** The next-month button: one month on, December wraps to January of the year after. */
    method NextMonth()
      requires Valid()
      modifies this`currentMonth, this`currentYear
      ensures Valid()
      ensures MonthIndex(currentYear, currentMonth) == MonthIndex(old(currentYear), old(currentMonth)) + 1
    {
      currentMonth := currentMonth + 1;
      if currentMonth > 11 {
        currentMonth := 0;
        currentYear := currentYear + 1;
      }
    }

    /**
     * The cells of `renderCalendar`: the last days of the previous month up
     * to the Monday before the 1st, the days of the month with their today
     * and selected flags, then days 1, 2, … of the next month up to the end of
     * the last week.
     */
    method RenderCalendar() returns (cells: seq<GridCell>)
      requires Valid()
      ensures |cells| % 7 == 0 && 28 <= |cells| <= 42
      ensures var f, n := FirstDayIndex(currentYear, currentMonth), DaysInMonth(currentYear, currentMonth);
        f + n <= |cells| < f + n + 7
      ensures var y, m := currentYear, currentMonth;
        var f, p := FirstDayIndex(y, m), PrevMonthLength(y, m);
        forall k :: 0 <= k < f ==>
          cells[k] == OtherMonth(p - f + 1 + k, KeyFields(y, if m == 0 then 12 else m, p - f + 1 + k))
      ensures var y, m := currentYear, currentMonth;
        var f, n := FirstDayIndex(y, m), DaysInMonth(y, m);
        forall k :: f <= k < f + n ==>
          var d := Date(y, m, k - f + 1);
          cells[k] == CurrentMonth(d.day, IsSameDay(d, today), IsSameDay(d, selectedDate), KeyFields(y, m + 1, d.day))
      ensures var y, m := currentYear, currentMonth;
        var f, n := FirstDayIndex(y, m), DaysInMonth(y, m);
        forall k :: f + n <= k < |cells| ==> cells[k] == OtherMonth(k - f - n + 1, KeyFields(y, m + 2, k - f - n + 1))
    {
      var year, month := currentYear, currentMonth;
      var daysInMonth := DaysInMonth(year, month);
      var firstDayIndex := FirstDayIndex(year, month);
      var totalDays := firstDayIndex + daysInMonth;
      var nextDays := 7 - totalDays % 7;
      GridLength(firstDayIndex, daysInMonth);
      var leading := PreviousMonthCells(year, month, firstDayIndex);
      var days := MonthCells(year, month, today, selectedDate);
      var trailing := [];
      if nextDays < 7 {
        trailing := NextMonthCells(year, month, nextDays);
      }
      cells := leading + days + trailing;
      ThreeParts(leading, days, trailing);
    }

    /**
     * A click on day i of the shown month: the cell's `data-date` is split
     * and read back into a date, which becomes the selected date.
     */
    method SelectDay(i: int)
      requires Valid() && currentYear >= 0 && 1 <= i <= DaysInMonth(currentYear, currentMonth)
      modifies this`selectedDate
      ensures Valid() && ValidDate(selectedDate)
      ensures selectedDate == Date(currentYear, currentMonth, i)
    {
      var key := KeyFields(currentYear, currentMonth + 1, i);
      DateKeyRoundTrip(key);
      var read := ParseDateKey(DateKey(key)).value;
      selectedDate := Date(read.year, read.month - 1, read.day);
    }
  }

  /** Moving one month on and then one month back shows the original month again. */
  method NextThenPrev(view: MonthCalendar)
    requires view.Valid()
    modifies view
    ensures view.Valid()
    ensures view.currentMonth == old(view.currentMonth) && view.currentYear == old(view.currentYear)
  {
    view.NextMonth();
    view.PrevMonth();
    MonthIndexInjective(view.currentYear, view.currentMonth, old(view.currentYear), old(view.currentMonth));
  }
}
