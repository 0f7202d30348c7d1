/**
  The four statistics groups of bikeshare_2.py, computed on a filtered view:
  `time_stats`, `station_stats`, `trip_duration_stats` and `user_stats`.
 */
module Statistics {
  import opened Wrappers
  import opened Orders
  import opened Frequency
  import opened Trips
  import Filters

  // ---------------------------------------------------------------------
  // time_stats

  datatype TimeReport = TimeReport(month: Popular<int>, weekday: Popular<int>, hour: Popular<int>)

  /**
    The most common month, weekday and start hour of the view, each with
    the number of rows holding it. An empty view raises (mode()[0] has no
    element 0); so does a most common month past June, which has no entry
    in MONTHS for the report to name it by.
   */
  function TimeStats(view: Frame): (r: Result<TimeReport, Fault>)
    ensures r == Failure(EmptyView) <==> view.rows == []
    ensures r.Failure? && r.error != EmptyView ==>
      && r.error.MonthNameMissing?
      && IsMode(Months(view.rows), r.error.month, IntLe)
      && r.error.month > |Filters.MONTHS|
    ensures r.Success? ==>
      && IsMode(Months(view.rows), r.value.month.value, IntLe)
      && r.value.month.count == Count(Months(view.rows), r.value.month.value)
      && 1 <= r.value.month.value <= |Filters.MONTHS|
      && IsMode(Weekdays(view.rows), r.value.weekday.value, IntLe)
      && r.value.weekday.count == Count(Weekdays(view.rows), r.value.weekday.value)
      && IsMode(Hours(view.rows), r.value.hour.value, IntLe)
      && r.value.hour.count == Count(Hours(view.rows), r.value.hour.value)
  {
    if view.rows == [] then Failure(EmptyView)
    else
      IntLeIsTotalOrder();
      var month := MostCommon(Months(view.rows), IntLe);
      assert month.value in Months(view.rows);
      if month.value > |Filters.MONTHS| then Failure(MonthNameMissing(month.value))
      else
        Success(TimeReport(month, MostCommon(Weekdays(view.rows), IntLe), MostCommon(Hours(view.rows), IntLe)))
  }

  /** After a month filter, that month is the most common one, counted on every row of the view. */
  lemma MonthFilterMakesItsMonthPopular(table: Frame, name: string)
    requires name in Filters.MONTHS
    requires Filters.LoadData(table, Filters.MonthNamed(name), Filters.AllDays).value.1.rows != []
    ensures var view := Filters.LoadData(table, Filters.MonthNamed(name), Filters.AllDays).value.1;
      TimeStats(view).Success? && TimeStats(view).value.month == Popular(Filters.MonthNumberOf(name).value, |view.rows|)
  {
    var view := Filters.LoadData(table, Filters.MonthNamed(name), Filters.AllDays).value.1;
    var m := Filters.MonthNumberOf(name).value;
    Filters.MonthFilterKeepsThatMonth(table, name);
    IntLeIsTotalOrder();
    ModeOfConstant(Months(view.rows), m, IntLe);
  }

  // ---------------------------------------------------------------------
  // station_stats

  /**
    The trip key bikeshare_2.py builds: `start + ' -> ' + end`. It starts
    with the start station and ends with the end station.
   */
  function TripKey(start: string, end: string): (k: string)
    ensures |k| == |start| + 4 + |end|
    ensures k[..|start|] == start && k[|k| - |end|..] == end
  {
    start + " -> " + end
  }

  function TripKeys(rows: seq<Trip>): (s: seq<string>)
    ensures |s| == |rows| && forall i :: 0 <= i < |rows| ==> s[i] == TripKey(rows[i].startStation, rows[i].endStation)
  {
    seq(|rows|, i requires 0 <= i < |rows| => TripKey(rows[i].startStation, rows[i].endStation))
  }

  function RouteKey(p: (string, string)): string
  {
    TripKey(p.0, p.1)
  }

  /**
    The order in which ties between trips are broken: by the joined key, as
    the mode of the joined strings does, and by (start, end) only between
    different trips whose keys coincide.
   */
  predicate TripLe(p: (string, string), q: (string, string))
  {
    if RouteKey(p) != RouteKey(q) then StrLe(RouteKey(p), RouteKey(q)) else PairLe(p, q)
  }

  lemma TripLeIsTotalOrder()
    ensures TotalOrder(TripLe)
  {
    StrLeIsTotalOrder();
    PairLeIsTotalOrder();
  }

  datatype StationReport = StationReport(start: Popular<string>, end: Popular<string>, trip: Popular<(string, string)>)

  /**
    The most common start station, end station and (start, end) trip of
    the view, with their numbers of rows; a trip is counted as a pair, so a
    row counts for the trip only when both of its stations match. Ties go to
    the smallest name, for trips the smallest joined key (TripLe).
   */
  function StationStats(view: Frame): (r: Result<StationReport, Fault>)
    ensures r.Failure? <==> view.rows == []
    ensures r.Failure? ==> r.error == EmptyView
    ensures r.Success? ==>
      && IsMode(StartStations(view.rows), r.value.start.value, StrLe)
      && r.value.start.count == Count(StartStations(view.rows), r.value.start.value)
      && IsMode(EndStations(view.rows), r.value.end.value, StrLe)
      && r.value.end.count == Count(EndStations(view.rows), r.value.end.value)
      && IsMode(Routes(view.rows), r.value.trip.value, TripLe)
      && r.value.trip.count == Count(Routes(view.rows), r.value.trip.value)
  {
    if view.rows == [] then Failure(EmptyView)
    else
      StrLeIsTotalOrder();
      TripLeIsTotalOrder();
      Success(StationReport(
        MostCommon(StartStations(view.rows), StrLe),
        MostCommon(EndStations(view.rows), StrLe),
        MostCommon(Routes(view.rows), TripLe)))
  }

  /** Rows where the trip started at `a` and ended at `b`. */
  function RowsOnRoute(rows: seq<Trip>, a: string, b: string): nat
  {
    if rows == [] then 0
    else (if rows[0].startStation == a && rows[0].endStation == b then 1 else 0) + RowsOnRoute(rows[1..], a, b)
  }

  /** The trip count is the number of rows whose start and end stations both match. */
  lemma {:induction false} RouteCountMatchesBothStations(rows: seq<Trip>, a: string, b: string)
    ensures Count(Routes(rows), (a, b)) == RowsOnRoute(rows, a, b)
  {
    if rows != [] {
      assert Routes(rows)[1..] == Routes(rows[1..]);
      RouteCountMatchesBothStations(rows[1..], a, b);
    }
  }

  /** The most popular trip as written: the mode of the joined strings, with their count. */
  function PopularTripAsWritten(view: Frame): (r: Result<Popular<string>, Fault>)
    ensures r.Failure? <==> view.rows == []
    ensures r.Success? ==> IsMode(TripKeys(view.rows), r.value.value, StrLe)
    ensures r.Success? ==> r.value.count == Count(TripKeys(view.rows), r.value.value)
  {
    if view.rows == [] then Failure(EmptyView)
    else
      StrLeIsTotalOrder();
      Success(MostCommon(TripKeys(view.rows), StrLe))
  }

  /** No two different trips of `rows` share a joined key. */
  ghost predicate KeysTellTripsApart(rows: seq<Trip>)
  {
    forall i, j :: 0 <= i < |rows| && 0 <= j < |rows| && TripKeys(rows)[i] == TripKeys(rows)[j] ==>
      Routes(rows)[i] == Routes(rows)[j]
  }

  /** A trip whose key no other trip of `rows` has is counted as often by its key as by its stations. */
  lemma {:induction false} KeyCountIsRouteCount(rows: seq<Trip>, p: (string, string))
    requires forall i :: 0 <= i < |rows| && TripKeys(rows)[i] == RouteKey(p) ==> Routes(rows)[i] == p
    ensures Count(TripKeys(rows), RouteKey(p)) == Count(Routes(rows), p)
  {
    if rows != [] {
      assert TripKeys(rows)[1..] == TripKeys(rows[1..]);
      assert Routes(rows)[1..] == Routes(rows[1..]);
      forall i | 0 <= i < |rows[1..]| && TripKeys(rows[1..])[i] == RouteKey(p) ensures Routes(rows[1..])[i] == p {
        assert TripKeys(rows)[i + 1] == TripKeys(rows[1..])[i];
        assert Routes(rows)[i + 1] == Routes(rows[1..])[i];
      }
      KeyCountIsRouteCount(rows[1..], p);
    }
  }

  /**
    Where no two different trips of the view share a joined key, the
    corrected trip statistic reports the trip the program reports, with the
    same count: the correction only changes views with a collision.
   */
  lemma CorrectedTripMatchesJoinedKey(view: Frame)
    requires view.rows != [] && KeysTellTripsApart(view.rows)
    ensures RouteKey(StationStats(view).value.trip.value) == PopularTripAsWritten(view).value.value
    ensures StationStats(view).value.trip.count == PopularTripAsWritten(view).value.count
  {
    var routes := Routes(view.rows);
    var keys := TripKeys(view.rows);
    var t := StationStats(view).value.trip.value;
    StrLeIsTotalOrder();
    TripLeIsTotalOrder();
    forall j | 0 <= j < |routes| ensures Count(keys, RouteKey(routes[j])) == Count(routes, routes[j]) {
      assert keys[j] == RouteKey(routes[j]);
      KeyCountIsRouteCount(view.rows, routes[j]);
    }
    var k :| 0 <= k < |routes| && routes[k] == t;
    assert keys[k] == RouteKey(t);
    forall x | x in keys ensures Beats(keys, RouteKey(t), x, StrLe) {
      var j :| 0 <= j < |keys| && keys[j] == x;
      assert keys[j] == RouteKey(routes[j]);
      assert routes[j] in routes;
      assert Beats(routes, t, routes[j], TripLe);
    }
    ModeIsUnique(keys, RouteKey(t), PopularTripAsWritten(view).value.value, StrLe);
  }

  /** A trip between two stations, other fields immaterial. */
  function TripBetween(start: string, end: string): Trip
  {
    Trip(1, 0, 0, start, end, 0, 0, "Subscriber", None, None)
  }

  /**
    The joined key merges different trips: "A -> B" to "C" and "A" to
    "B -> C" both become "A -> B -> C", so the key is reported with count 2
    although no (start, end) pair occurs more than once.
   */
  lemma JoinedKeyMergesDistinctTrips()
    ensures var view := Frame([TripBetween("A -> B", "C"), TripBetween("A", "B -> C")], false, false);
      && PopularTripAsWritten(view).Success?
      && PopularTripAsWritten(view).value.count == 2
      && (forall p :: Count(Routes(view.rows), p) <= 1)
      && StationStats(view).value.trip.count == 1
  {
    var view := Frame([TripBetween("A -> B", "C"), TripBetween("A", "B -> C")], false, false);
    var keys := TripKeys(view.rows);
    assert TripKey("A -> B", "C") == TripKey("A", "B -> C");
    assert keys == [TripKey("A", "B -> C"), TripKey("A", "B -> C")];
    CountOfConstant(keys, TripKey("A", "B -> C"));
    var routes := Routes(view.rows);
    assert routes == [("A -> B", "C"), ("A", "B -> C")];
    assert routes[0] != routes[1];
    forall p ensures Count(routes, p) <= 1 {
      assert routes[1..] == [routes[1]];
      assert routes[1..][1..] == [];
    }
  }

  /**
    Ties between trips go by the joined key even where no key is shared:
    "A & B -> C" sorts before "A -> Z" because '&' sorts before '-', so of
    two trips seen once each the program and the model report A & B to C.
   */
  lemma TiesFollowTheJoinedKey()
    ensures var view := Frame([TripBetween("A", "Z"), TripBetween("A & B", "C")], false, false);
      && StationStats(view).value.trip == Popular(("A & B", "C"), 1)
      && PopularTripAsWritten(view).value == Popular(TripKey("A & B", "C"), 1)
  {
    var view := Frame([TripBetween("A", "Z"), TripBetween("A & B", "C")], false, false);
    var routes := Routes(view.rows);
    assert routes == [("A", "Z"), ("A & B", "C")];
    assert KeysTellTripsApart(view.rows) by {
      assert TripKeys(view.rows) == [TripKey("A", "Z"), TripKey("A & B", "C")];
      assert TripKey("A", "Z")[2] != TripKey("A & B", "C")[2];
    }
    assert routes[0] != routes[1];
    assert Count(routes, ("A", "Z")) == 1 && Count(routes, ("A & B", "C")) == 1 by {
      assert routes[1..] == [routes[1]];
      assert routes[1..][1..] == [];
    }
    AmpersandSortsBeforeArrow();
    TripLeIsTotalOrder();
    var trip := StationStats(view).value.trip;
    assert IsMode(routes, ("A & B", "C"), TripLe);
    ModeIsUnique(routes, trip.value, ("A & B", "C"), TripLe);
    CorrectedTripMatchesJoinedKey(view);
  }

  lemma AmpersandSortsBeforeArrow()
    ensures TripLe(("A & B", "C"), ("A", "Z"))
  {
    assert RouteKey(("A & B", "C")) == "A & B -> C";
    assert RouteKey(("A", "Z")) == "A -> Z";
    assert "A & B -> C"[1..] == " & B -> C" && "A -> Z"[1..] == " -> Z";
    assert " & B -> C"[1..] == "& B -> C" && " -> Z"[1..] == "-> Z";
  }

  // ---------------------------------------------------------------------
  // trip_duration_stats

  /** `End Time - Start Time` of every row, in seconds. */
  function Durations(rows: seq<Trip>): (s: seq<int>)
    ensures |s| == |rows| && forall i :: 0 <= i < |rows| ==> s[i] == rows[i].endTime - rows[i].startTime
  {
    seq(|rows|, i requires 0 <= i < |rows| => rows[i].endTime - rows[i].startTime)
  }

  /** Total travel time, and the mean (None where pandas gives NaT, on an empty view). */
  datatype DurationReport = DurationReport(total: int, mean: Option<real>)

  /**
    The sum of the trip durations of the view and their mean: the mean
    times the number of rows is the total.
   */
  function DurationStats(view: Frame): (r: DurationReport)
    ensures r.total == Sum(Durations(view.rows))
    ensures r.mean.Some? <==> view.rows != []
    ensures r.mean.Some? ==> r.mean.value * |view.rows| as real == r.total as real
  {
    var d := Durations(view.rows);
    var total := Sum(d);
    if d == [] then DurationReport(total, None)
    else
      var m := Mean(d);
      assert m * |d| as real == total as real && |d| == |view.rows|;
      DurationReport(total, Some(m))
  }

  /** `Series.mean()` of a non-empty column of integers, as an exact quotient. */
  function Mean(d: seq<int>): (m: real)
    requires |d| > 0
    ensures m * |d| as real == Sum(d) as real
  {
    Sum(d) as real / |d| as real
  }

  /**
    The total lies between the number of trips times the shortest trip and
    the number of trips times the longest, so the mean lies between the
    shortest and the longest trip.
   */
  lemma TotalBetweenShortestAndLongest(view: Frame)
    requires view.rows != []
    ensures var d := Durations(view.rows);
      |d| * Min(d) <= DurationStats(view).total <= |d| * Max(d)
  {
    var d := Durations(view.rows);
    SumAtLeast(d, Min(d));
    SumAtMost(d, Max(d));
  }

  /** The total of a view split in two parts is the sum of the parts' totals. */
  lemma TotalDurationAdds(a: seq<Trip>, b: seq<Trip>)
    ensures DurationStats(Frame(a + b, false, false)).total
         == DurationStats(Frame(a, false, false)).total + DurationStats(Frame(b, false, false)).total
  {
    assert Durations(a + b) == Durations(a) + Durations(b) by {
      forall i | 0 <= i < |a| + |b| ensures Durations(a + b)[i] == (Durations(a) + Durations(b))[i] {
        if i < |a| { assert (a + b)[i] == a[i]; } else { assert (a + b)[i] == b[i - |a|]; }
      }
    }
    SumConcat(Durations(a), Durations(b));
  }

  /** Trips of 10 and 20 minutes: 30 minutes in all, 15 minutes on average. */
  lemma TenAndTwentyMinutes()
    ensures var view := Frame([Trip(1, 0, 8, "A", "B", 0, 600, "Customer", None, None),
                               Trip(1, 0, 9, "B", "A", 3600, 4800, "Customer", None, None)], false, false);
      DurationStats(view) == DurationReport(1800, Some(900.0))
  {
    var view := Frame([Trip(1, 0, 8, "A", "B", 0, 600, "Customer", None, None),
                       Trip(1, 0, 9, "B", "A", 3600, 4800, "Customer", None, None)], false, false);
    assert Durations(view.rows) == [600, 1200];
    assert Sum([600, 1200]) == 1800;
  }

  // ---------------------------------------------------------------------
  // user_stats

  /** A statistic over an optional column: the column is missing from the city's file, or its value. */
  datatype Demographic<T> = NotRecorded | Recorded(value: T)

  datatype YearSummary = YearSummary(earliest: int, mostRecent: int, mostCommon: int)

  datatype UserReport = UserReport(
    userTypes: seq<Group<string>>,
    genders: Demographic<seq<Group<string>>>,
    birthYears: Demographic<YearSummary>)

  /** How many rows have each user type, largest group first; the counts add up to the rows of the view. */
  function UserTypeCounts(view: Frame): (r: seq<Group<string>>)
    ensures forall i :: 0 <= i < |r| ==> r[i].size == Count(UserTypes(view.rows), r[i].key)
    ensures forall k :: k in KeySet(r) <==> exists i :: 0 <= i < |view.rows| && view.rows[i].userType == k
    ensures DistinctKeys(r) && NonIncreasing(r)
    ensures TotalSize(r) == |view.rows|
  {
    var types := UserTypes(view.rows);
    var r := Breakdown(types);
    assert forall k :: k in types <==> exists i :: 0 <= i < |view.rows| && view.rows[i].userType == k by {
      forall k | k in types ensures exists i :: 0 <= i < |view.rows| && view.rows[i].userType == k {
        var i :| 0 <= i < |types| && types[i] == k;
      }
    }
    r
  }

  /**
    How many rows have each recorded gender, largest group first, the
    counts adding up to the rows with a gender; NotRecorded when the city's
    file has no Gender column (the KeyError the code catches).
   */
  function GenderCounts(view: Frame): (r: Demographic<seq<Group<string>>>)
    ensures r.NotRecorded? <==> !view.hasGender
    ensures r.Recorded? ==>
      && (forall i :: 0 <= i < |r.value| ==> r.value[i].size == Count(KnownGenders(view.rows), r.value[i].key))
      && (forall k :: k in KeySet(r.value) <==> exists i :: 0 <= i < |view.rows| && view.rows[i].gender == Some(k))
      && DistinctKeys(r.value) && NonIncreasing(r.value)
      && TotalSize(r.value) == |KnownGenders(view.rows)|
  {
    if !view.hasGender then NotRecorded else Recorded(Breakdown(KnownGenders(view.rows)))
  }

  /**
    The earliest, most recent and most common birth year of the view:
    NotRecorded when the file has no Birth Year column; a fault when the
    column holds no year in the view, since the NaN minimum cannot be made
    an int.
   */
  function BirthYearStats(view: Frame): (r: Result<Demographic<YearSummary>, Fault>)
    ensures r.Failure? <==> view.hasBirthYear && KnownBirthYears(view.rows) == []
    ensures r.Failure? ==> r.error == NoBirthYears
    ensures r.Success? ==> (r.value.NotRecorded? <==> !view.hasBirthYear)
    ensures r.Success? && r.value.Recorded? ==>
      var years := KnownBirthYears(view.rows);
      var y := r.value.value;
      && y.earliest in years && y.mostRecent in years
      && (forall x :: x in years ==> y.earliest <= x <= y.mostRecent)
      && IsMode(years, y.mostCommon, IntLe)
      && y.earliest <= y.mostCommon <= y.mostRecent
  {
    if !view.hasBirthYear then Success(NotRecorded)
    else
      var years := KnownBirthYears(view.rows);
      if years == [] then Failure(NoBirthYears)
      else
        IntLeIsTotalOrder();
        var common := MostCommon(years, IntLe).value;
        Success(Recorded(YearSummary(Min(years), Max(years), common)))
  }

  /** `user_stats`: user types, genders and birth years, raising where the birth years do. */
  function UserStats(view: Frame): (r: Result<UserReport, Fault>)
    ensures r.Failure? <==> BirthYearStats(view).Failure?
    ensures r.Success? ==> r.value == UserReport(UserTypeCounts(view), GenderCounts(view), BirthYearStats(view).value)
  {
    match BirthYearStats(view)
    case Failure(e) => Failure(e)
    case Success(years) => Success(UserReport(UserTypeCounts(view), GenderCounts(view), years))
  }
}
