/**
  The data model: one decoded trip record per CSV row, and a table of them
  together with which optional columns its city's file carries.
 */
module Trips {
  import opened Wrappers
  import opened Frequency

  /** `Start Time.dt.month`: January is 1, December is 12. */
  type MonthNumber = m: int | 1 <= m <= 12 witness 1

  /** `Start Time.dt.weekday`: Monday is 0, Sunday is 6. */
  type WeekdayIndex = d: int | 0 <= d <= 6

  /** `Start Time.dt.hour`. */
  type HourOfDay = h: int | 0 <= h <= 23

  /**
    One trip. Times are whole seconds. `gender` and `birthYear` are None
    where the cell is empty (NaN) or the city's file has no such column.
   */
  datatype Trip = Trip(
    month: MonthNumber,
    weekday: WeekdayIndex,
    hour: HourOfDay,
    startStation: string,
    endStation: string,
    startTime: int,
    endTime: int,
    userType: string,
    gender: Option<string>,
    birthYear: Option<int>)

  /**
    A data frame: its rows in file order, and whether the file has the
    `Gender` and `Birth Year` columns (Washington's has neither).
   */
  datatype Frame = Frame(rows: seq<Trip>, hasGender: bool, hasBirthYear: bool)

  /** Why a step of the analysis raises instead of producing a result. */
  datatype Fault =
    | UnknownMonth(name: string)    // MONTHS.index(month) raises ValueError
    | EmptyView                     // mode()[0] on an empty column raises KeyError
    | MonthNameMissing(month: int)  // MONTHS[month - 1] raises IndexError for July to December
    | NoBirthYears                  // int() of the NaN min() of a column with no value raises ValueError

  function Months(rows: seq<Trip>): (s: seq<int>)
    ensures |s| == |rows| && forall i :: 0 <= i < |rows| ==> s[i] == rows[i].month as int
  {
    seq(|rows|, i requires 0 <= i < |rows| => rows[i].month as int)
  }

  function Weekdays(rows: seq<Trip>): (s: seq<int>)
    ensures |s| == |rows| && forall i :: 0 <= i < |rows| ==> s[i] == rows[i].weekday as int
  {
    seq(|rows|, i requires 0 <= i < |rows| => rows[i].weekday as int)
  }

  function Hours(rows: seq<Trip>): (s: seq<int>)
    ensures |s| == |rows| && forall i :: 0 <= i < |rows| ==> s[i] == rows[i].hour as int
  {
    seq(|rows|, i requires 0 <= i < |rows| => rows[i].hour as int)
  }

  function StartStations(rows: seq<Trip>): (s: seq<string>)
    ensures |s| == |rows| && forall i :: 0 <= i < |rows| ==> s[i] == rows[i].startStation
  {
    seq(|rows|, i requires 0 <= i < |rows| => rows[i].startStation)
  }

  function EndStations(rows: seq<Trip>): (s: seq<string>)
    ensures |s| == |rows| && forall i :: 0 <= i < |rows| ==> s[i] == rows[i].endStation
  {
    seq(|rows|, i requires 0 <= i < |rows| => rows[i].endStation)
  }

  /** The (start, end) station pair of every row. */
  function Routes(rows: seq<Trip>): (s: seq<(string, string)>)
    ensures |s| == |rows|
    ensures forall i :: 0 <= i < |rows| ==> s[i] == (rows[i].startStation, rows[i].endStation)
  {
    seq(|rows|, i requires 0 <= i < |rows| => (rows[i].startStation, rows[i].endStation))
  }

  function UserTypes(rows: seq<Trip>): (s: seq<string>)
    ensures |s| == |rows| && forall i :: 0 <= i < |rows| ==> s[i] == rows[i].userType
  {
    seq(|rows|, i requires 0 <= i < |rows| => rows[i].userType)
  }

  /** The `Gender` cell of every row, None where it is empty. */
  function GenderCells(rows: seq<Trip>): (s: seq<Option<string>>)
    ensures |s| == |rows| && forall i :: 0 <= i < |rows| ==> s[i] == rows[i].gender
  {
    seq(|rows|, i requires 0 <= i < |rows| => rows[i].gender)
  }

  /** The `Birth Year` cell of every row, None where it is empty. */
  function BirthYearCells(rows: seq<Trip>): (s: seq<Option<int>>)
    ensures |s| == |rows| && forall i :: 0 <= i < |rows| ==> s[i] == rows[i].birthYear
  {
    seq(|rows|, i requires 0 <= i < |rows| => rows[i].birthYear)
  }

  /**
    The non-empty `Gender` cells, in row order (groupby drops NaN keys):
    each gender as often as rows hold it, one entry per row with a gender.
   */
  function KnownGenders(rows: seq<Trip>): (s: seq<string>)
    ensures forall g :: g in s <==> exists i :: 0 <= i < |rows| && rows[i].gender == Some(g)
    ensures forall g :: Count(s, g) == Count(GenderCells(rows), Some(g))
    ensures |s| == |rows| - Count(GenderCells(rows), None)
  {
    var cells := GenderCells(rows);
    var s := Present(cells);
    assert forall g :: g in s <==> Some(g) in cells by {
      forall g ensures g in s <==> Some(g) in cells {
        assert Count(s, g) == Count(cells, Some(g));
      }
    }
    s
  }

  /**
    The non-empty `Birth Year` cells, in row order (min, max and mode skip
    NaN): each year as often as rows hold it, one entry per row with a year.
   */
  function KnownBirthYears(rows: seq<Trip>): (s: seq<int>)
    ensures forall y :: y in s <==> exists i :: 0 <= i < |rows| && rows[i].birthYear == Some(y)
    ensures forall y :: Count(s, y) == Count(BirthYearCells(rows), Some(y))
    ensures |s| == |rows| - Count(BirthYearCells(rows), None)
  {
    var cells := BirthYearCells(rows);
    var s := Present(cells);
    assert forall y :: y in s <==> Some(y) in cells by {
      forall y ensures y in s <==> Some(y) in cells {
        assert Count(s, y) == Count(cells, Some(y));
      }
    }
    s
  }
}
