/**
  The acceptance tests `get_filters` applies to the user's answers, and the
  time-window filter of `load_data` (bikeshare_2.py).
 */
module Filters {
  import opened Wrappers
  import opened Trips
  import opened Frequency

  /** The supported cities and their files. */
  const CITY_DATA: map<string, string> :=
    map["chicago" := "chicago.csv", "new york city" := "new_york_city.csv", "washington" := "washington.csv"]

  /** The months the data covers, in calendar order. */
  const MONTHS: seq<string> := ["january", "february", "march", "april", "may", "june"]

  // ---------------------------------------------------------------------
  // get_filters: which answers end each prompt loop. Answers are taken as
  // already lower-cased.

  /** The city prompt (line 31) accepts exactly the cities that have a data file. */
  predicate AcceptsCity(city: string): (ok: bool)
    ensures ok <==> city in CITY_DATA
  {
    city in ["chicago", "new york city", "washington"]
  }

  /** The decision prompt accepts exactly the answers that lead to a month question, a day question, or neither. */
  predicate AcceptsDecision(decision: string): (ok: bool)
    ensures ok <==> AsksMonth(decision) || AsksDay(decision) || decision == "none"
  {
    decision in ["month", "day", "both", "none"]
  }

  /** The month prompt accepts exactly the names `MONTHS.index` can find. */
  predicate AcceptsMonth(month: string): (ok: bool)
    ensures ok <==> month in MONTHS
  {
    month in ["january", "february", "march", "april", "may", "june"]
  }

  /** The day prompt accepts exactly 1..7, the numbers whose `day - 1` is a weekday index. */
  predicate AcceptsDay(day: int): (ok: bool)
    ensures ok <==> 1 <= day <= 7
    ensures ok <==> 0 <= day - 1 <= 6
  {
    !(day > 7 || day < 1)
  }

  /** The month answer: "all", or a month's name. */
  datatype MonthFilter = AllMonths | MonthNamed(name: string)

  /** The day answer: "all", or a day number where Monday is 1. */
  datatype DayFilter = AllDays | DayNumbered(number: int)

  predicate AsksMonth(decision: string)
  {
    decision == "month" || decision == "both"
  }

  predicate AsksDay(decision: string)
  {
    decision == "day" || decision == "both"
  }

  /**
    One pass of the filter dialogue: the filters `get_filters` returns when
    the decision and the month and day answers it asks for are accepted, and
    None when one of them would be asked for again.
   */
  function ChooseFilters(decision: string, month: string, day: int): (r: Option<(MonthFilter, DayFilter)>)
    ensures r.Some? <==>
      AcceptsDecision(decision) && (AsksMonth(decision) ==> AcceptsMonth(month)) && (AsksDay(decision) ==> AcceptsDay(day))
    ensures r.Some? ==> (r.value.0.MonthNamed? <==> AsksMonth(decision)) && (r.value.1.DayNumbered? <==> AsksDay(decision))
    ensures r.Some? && r.value.0.MonthNamed? ==> r.value.0.name == month
    ensures r.Some? && r.value.1.DayNumbered? ==> r.value.1.number == day
  {
    if !AcceptsDecision(decision) then None
    else if AsksMonth(decision) && !AcceptsMonth(month) then None
    else if AsksDay(decision) && !AcceptsDay(day) then None
    else
      var m := if AsksMonth(decision) then MonthNamed(month) else AllMonths;
      var d := if AsksDay(decision) then DayNumbered(day) else AllDays;
      Some((m, d))
  }

  // ---------------------------------------------------------------------
  // load_data

  /** `MONTHS.index(name) + 1`, or None where `index` raises ValueError. */
  function MonthNumberOf(name: string): (r: Option<int>)
    ensures r.Some? <==> name in MONTHS
    ensures r.Some? ==> 1 <= r.value <= |MONTHS| && MONTHS[r.value - 1] == name
    ensures r.Some? ==> forall j :: 0 <= j < r.value - 1 ==> MONTHS[j] != name
  {
    IndexOf(MONTHS, name, 1)
  }

  /** The position, counted from `base`, of the first `x` in `s`. */
  function IndexOf(s: seq<string>, x: string, base: nat): (r: Option<int>)
    ensures r.Some? <==> x in s
    ensures r.Some? ==> base <= r.value < base + |s| && s[r.value - base] == x
    ensures r.Some? ==> forall j :: 0 <= j < r.value - base ==> s[j] != x
  {
    if s == [] then None
    else if s[0] == x then Some(base)
    else
      var r := IndexOf(s[1..], x, base + 1);
      assert forall j :: 1 <= j < |s| ==> s[j] == s[1..][j - 1];
      r
  }

  /** A boolean mask over rows: `df['month'] == m` or `df['week_day'] == d`. */
  datatype RowTest = MonthIs(month: int) | WeekdayIs(weekday: int)

  predicate Holds(t: RowTest, row: Trip)
  {
    match t
    case MonthIs(m) => row.month == m
    case WeekdayIs(d) => row.weekday == d
  }

  /** `df[mask]`: the rows passing the test, in their order. */
  function Select(rows: seq<Trip>, t: RowTest): (kept: seq<Trip>)
    ensures |kept| <= |rows|
    ensures forall i :: 0 <= i < |kept| ==> Holds(t, kept[i])
  {
    if rows == [] then []
    else if Holds(t, rows[0]) then [rows[0]] + Select(rows[1..], t)
    else Select(rows[1..], t)
  }

  /** `a` is `b` with some rows left out and the rest in their order. */
  ghost predicate IsSubsequence<T>(a: seq<T>, b: seq<T>)
    decreases |b|
  {
    a == [] || (b != [] && ((a[0] == b[0] && IsSubsequence(a[1..], b[1..])) || IsSubsequence(a, b[1..])))
  }

  /** Selection keeps every passing row as often as the table has it, and no other row. */
  lemma {:induction false} SelectCount(rows: seq<Trip>, t: RowTest, row: Trip)
    ensures Count(Select(rows, t), row) == if Holds(t, row) then Count(rows, row) else 0
  {
    if rows != [] {
      SelectCount(rows[1..], t, row);
    }
  }

  lemma {:induction false} SelectIsSubsequence(rows: seq<Trip>, t: RowTest)
    ensures IsSubsequence(Select(rows, t), rows)
  {
    if rows != [] {
      SelectIsSubsequence(rows[1..], t);
    }
  }

  /** Selecting rows that all pass changes nothing. */
  lemma {:induction false} SelectAllPassing(rows: seq<Trip>, t: RowTest)
    requires forall i :: 0 <= i < |rows| ==> Holds(t, rows[i])
    ensures Select(rows, t) == rows
  {
    if rows != [] {
      SelectAllPassing(rows[1..], t);
      assert rows == [rows[0]] + rows[1..];
    }
  }

  /** Two masks applied one after the other keep the same rows in either order. */
  lemma {:induction false} SelectCommutes(rows: seq<Trip>, t: RowTest, u: RowTest)
    ensures Select(Select(rows, t), u) == Select(Select(rows, u), t)
  {
    if rows != [] {
      SelectCommutes(rows[1..], t, u);
    }
  }

  /** The row test the month answer puts on the table, if any. */
  function MonthTest(month: MonthFilter): Option<RowTest>
  {
    match month
    case AllMonths => None
    case MonthNamed(name) =>
      match MonthNumberOf(name)
      case Some(m) => Some(MonthIs(m))
      case None => None
  }

  /** The row test the day answer puts on the table: day 1 (Monday) is weekday 0. */
  function DayTest(day: DayFilter): Option<RowTest>
  {
    match day
    case AllDays => None
    case DayNumbered(n) => Some(WeekdayIs(n - 1))
  }

  function ApplyTest(rows: seq<Trip>, t: Option<RowTest>): seq<Trip>
  {
    match t
    case None => rows
    case Some(t) => Select(rows, t)
  }

  /** The rows a month answer and a day answer let through. */
  ghost predicate Wanted(month: MonthFilter, day: DayFilter, row: Trip)
  {
    && (match month
        case AllMonths => true
        case MonthNamed(name) => name in MONTHS && row.month == MonthNumberOf(name).value)
    && (match day
        case AllDays => true
        case DayNumbered(n) => row.weekday == n - 1)
  }

  lemma {:induction false} ApplyTestCount(rows: seq<Trip>, t: Option<RowTest>, row: Trip)
    ensures Count(ApplyTest(rows, t), row) == if t.None? || Holds(t.value, row) then Count(rows, row) else 0
  {
    if t.Some? {
      SelectCount(rows, t.value, row);
    }
  }

  lemma ApplyTestIsSubsequence(rows: seq<Trip>, t: Option<RowTest>)
    ensures IsSubsequence(ApplyTest(rows, t), rows)
  {
    if t.Some? {
      SelectIsSubsequence(rows, t.value);
    } else {
      SubsequenceReflexive(rows);
    }
  }

  lemma {:induction false} SubsequenceReflexive<T>(s: seq<T>)
    ensures IsSubsequence(s, s)
  {
    if s != [] {
      SubsequenceReflexive(s[1..]);
    }
  }

  lemma {:induction false} SubsequenceTransitive<T>(a: seq<T>, b: seq<T>, c: seq<T>)
    requires IsSubsequence(a, b) && IsSubsequence(b, c)
    ensures IsSubsequence(a, c)
    decreases |c|
  {
    if a != [] {
      if b[0] == c[0] && IsSubsequence(b[1..], c[1..]) {
        if a[0] == b[0] && IsSubsequence(a[1..], b[1..]) {
          SubsequenceTransitive(a[1..], b[1..], c[1..]);
        } else {
          SubsequenceTransitive(a, b[1..], c[1..]);
        }
      } else {
        SubsequenceTransitive(a, b, c[1..]);
      }
    }
  }

  /**
    `load_data` on a table already read from the city's file: the untouched
    table, and the rows of the wanted month and day in their order. A month
    name outside MONTHS raises, as `MONTHS.index` does.
   */
  function LoadData(table: Frame, month: MonthFilter, day: DayFilter): (r: Result<(Frame, Frame), Fault>)
    ensures r.Failure? <==> month.MonthNamed? && month.name !in MONTHS
    ensures r.Failure? ==> r.error == UnknownMonth(month.name)
    ensures r.Success? ==> r.value.0 == table
    ensures r.Success? ==> r.value.1.hasGender == table.hasGender && r.value.1.hasBirthYear == table.hasBirthYear
    ensures r.Success? ==> IsSubsequence(r.value.1.rows, table.rows)
    ensures r.Success? ==> forall row :: Count(r.value.1.rows, row) == if Wanted(month, day, row) then Count(table.rows, row) else 0
  {
    if month.MonthNamed? && month.name !in MONTHS then Failure(UnknownMonth(month.name))
    else
      var view := ApplyTest(ApplyTest(table.rows, MonthTest(month)), DayTest(day));
      FilteredRows(table.rows, month, day);
      Success((table, Frame(view, table.hasGender, table.hasBirthYear)))
  }

  /** What the two masks of `load_data` keep, applied one after the other. */
  lemma FilteredRows(rows: seq<Trip>, month: MonthFilter, day: DayFilter)
    requires month.MonthNamed? ==> month.name in MONTHS
    ensures var view := ApplyTest(ApplyTest(rows, MonthTest(month)), DayTest(day));
      && IsSubsequence(view, rows)
      && forall row :: Count(view, row) == if Wanted(month, day, row) then Count(rows, row) else 0
  {
    var byMonth := ApplyTest(rows, MonthTest(month));
    var byDay := ApplyTest(byMonth, DayTest(day));
    ApplyTestIsSubsequence(rows, MonthTest(month));
    ApplyTestIsSubsequence(byMonth, DayTest(day));
    SubsequenceTransitive(byDay, byMonth, rows);
    forall row | true ensures Count(byDay, row) == if Wanted(month, day, row) then Count(rows, row) else 0 {
      ApplyTestCount(rows, MonthTest(month), row);
      ApplyTestCount(byMonth, DayTest(day), row);
    }
  }

  /** Both filters "all": the view is the whole table, in its order. */
  lemma NoFilterKeepsEveryRow(table: Frame)
    ensures LoadData(table, AllMonths, AllDays) == Success((table, table))
  {
  }

  /** A month filter keeps exactly the rows of month `MONTHS.index(name) + 1`, a number in 1..6. */
  lemma MonthFilterKeepsThatMonth(table: Frame, name: string)
    requires name in MONTHS
    ensures LoadData(table, MonthNamed(name), AllDays).Success?
    ensures var view := LoadData(table, MonthNamed(name), AllDays).value.1.rows;
      var m := MonthNumberOf(name).value;
      && 1 <= m <= 6
      && (forall i :: 0 <= i < |view| ==> view[i].month == m)
      && (forall row: Trip :: row.month == m ==> Count(view, row) == Count(table.rows, row))
  {
    var view := LoadData(table, MonthNamed(name), AllDays).value.1.rows;
    forall i | 0 <= i < |view| ensures view[i].month == MonthNumberOf(name).value {
      assert view[i] in view;
      assert Count(view, view[i]) > 0;
    }
  }

  /** A day filter keeps exactly the rows of weekday `day - 1`: 1 selects Monday (0), 7 Sunday (6). */
  lemma DayFilterKeepsThatWeekday(table: Frame, day: int)
    requires AcceptsDay(day)
    ensures var view := LoadData(table, AllMonths, DayNumbered(day)).value.1.rows;
      && 0 <= day - 1 <= 6
      && (forall i :: 0 <= i < |view| ==> view[i].weekday == day - 1)
      && (forall row: Trip :: row.weekday == day - 1 ==> Count(view, row) == Count(table.rows, row))
  {
    var view := LoadData(table, AllMonths, DayNumbered(day)).value.1.rows;
    forall i | 0 <= i < |view| ensures view[i].weekday == day - 1 {
      assert view[i] in view;
      assert Count(view, view[i]) > 0;
    }
  }

  /** Filtering by month and then by day gives the same view as by day and then by month. */
  lemma FilterOrderDoesNotMatter(table: Frame, month: MonthFilter, day: DayFilter)
    requires LoadData(table, month, AllDays).Success?
    ensures var byMonth := LoadData(table, month, AllDays).value.1;
      var byDay := LoadData(table, AllMonths, day).value.1;
      && LoadData(byMonth, AllMonths, day) == Success((byMonth, LoadData(table, month, day).value.1))
      && LoadData(byDay, month, AllDays) == Success((byDay, LoadData(table, month, day).value.1))
  {
    var rows := table.rows;
    match (MonthTest(month), DayTest(day))
    case (Some(t), Some(u)) => SelectCommutes(rows, t, u);
    case _ =>
  }

  /** Filtering the view again with the same answers changes nothing. */
  lemma FilterIsIdempotent(table: Frame, month: MonthFilter, day: DayFilter)
    requires LoadData(table, month, day).Success?
    ensures var view := LoadData(table, month, day).value.1;
      LoadData(view, month, day) == Success((view, view))
  {
    var rows := table.rows;
    match (MonthTest(month), DayTest(day))
    case (Some(t), Some(u)) =>
      var once := Select(Select(rows, t), u);
      SelectCommutes(rows, t, u);
      SelectAllPassing(once, u);
      assert forall i :: 0 <= i < |once| ==> Holds(t, once[i]) by {
        SelectCommutes(rows, u, t);
      }
      SelectAllPassing(once, t);
    case (Some(t), None) =>
      SelectAllPassing(Select(rows, t), t);
    case (None, Some(u)) =>
      SelectAllPassing(Select(rows, u), u);
    case (None, None) =>
  }

  /** Whatever `get_filters` returns can be loaded: the month is in MONTHS and the day gives a weekday 0..6. */
  lemma ChosenFiltersAlwaysLoad(table: Frame, decision: string, month: string, day: int)
    requires ChooseFilters(decision, month, day).Some?
    ensures var (m, d) := ChooseFilters(decision, month, day).value;
      && LoadData(table, m, d).Success?
      && (d.DayNumbered? ==> 0 <= d.number - 1 <= 6)
  {
  }
}
