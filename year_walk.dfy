/**
 * The per-state year walk: for every state and every year of the horizon,
 * how many of the state's facilities opened and closed that year, and a
 * running total of the facilities operating, restarted at 0 for each state.
 */
module YearWalk {
  import opened Facilities
  import opened Grouping

  /** The two events a row records, each with its own year column. */
  datatype Event = Establishment | Discontinuance

  function YearOf(f: Facility, e: Event): int {
    match e
    case Establishment => f.established
    case Discontinuance => f.discontinued
  }

  /** Whether year `y` is among the values of the column of `e`. */
  predicate Occurs(g: seq<Facility>, e: Event, y: int) {
    exists f :: f in g && YearOf(f, e) == y
  }

  /** How many rows of `g` record event `e` in year `y`. */
  function CountAt(g: seq<Facility>, e: Event, y: int): (n: nat)
    ensures n <= |g|
    ensures n == 0 <==> !Occurs(g, e, y)
  {
    if g == [] then 0
    else
      assert g == [g[0]] + g[1..];
      (if YearOf(g[0], e) == y then 1 else 0) + CountAt(g[1..], e, y)
  }

  /** How many rows of `g` record event `e` in a year of the horizon up to `y`. */
  function CountUpTo(g: seq<Facility>, e: Event, y: int): nat {
    if g == [] then 0
    else (if FirstYear <= YearOf(g[0], e) <= y then 1 else 0) + CountUpTo(g[1..], e, y)
  }

  /**
   * The facilities of `g` operating at the end of year `y`: the previous
   * year's figure plus the openings of `y` minus its closings, 0 before the horizon.
   */
  function Operating(g: seq<Facility>, y: int): int
    decreases if y < FirstYear then 0 else y - FirstYear + 1
  {
    if y < FirstYear then 0
    else Operating(g, y - 1) + CountAt(g, Establishment, y) - CountAt(g, Discontinuance, y)
  }

  lemma OperatingStep(g: seq<Facility>, y: int)
    requires FirstYear <= y
    ensures Operating(g, y) == Operating(g, y - 1) + CountAt(g, Establishment, y) - CountAt(g, Discontinuance, y)
  {
  }

  // ---------------------------------------------------------------------------
  // What the counts mean

  function YearsOf(g: seq<Facility>, e: Event): seq<int> {
    seq(|g|, i requires 0 <= i < |g| => YearOf(g[i], e))
  }

  /** The count of a year is its multiplicity among the column's values. */
  lemma {:induction false} CountAtIsMultiplicity(g: seq<Facility>, e: Event, y: int)
    ensures CountAt(g, e, y) == multiset(YearsOf(g, e))[y]
  {
    if g != [] {
      assert YearsOf(g, e) == [YearOf(g[0], e)] + YearsOf(g[1..], e);
      CountAtIsMultiplicity(g[1..], e, y);
    }
  }

  lemma {:induction false} CountAtConcat(a: seq<Facility>, b: seq<Facility>, e: Event, y: int)
    ensures CountAt(a + b, e, y) == CountAt(a, e, y) + CountAt(b, e, y)
  {
    if a == [] {
      assert a + b == b;
    } else {
      assert (a + b)[0] == a[0];
      assert (a + b)[1..] == a[1..] + b;
      CountAtConcat(a[1..], b, e, y);
    }
  }

  /** How many rows of the whole table have state `s` and record `e` in year `y`. */
  function StateCountAt(rows: seq<Facility>, s: string, e: Event, y: int): nat {
    if rows == [] then 0
    else
      var last := rows[|rows| - 1];
      StateCountAt(rows[..|rows| - 1], s, e, y) + (if last.state == s && YearOf(last, e) == y then 1 else 0)
  }

  /** Counting within a state's group counts the table's rows of that state. */
  lemma {:induction false} GroupCountIsStateCount(rows: seq<Facility>, s: string, e: Event, y: int)
    ensures CountAt(Group(rows, s), e, y) == StateCountAt(rows, s, e, y)
  {
    if rows != [] {
      var init, last := rows[..|rows| - 1], rows[|rows| - 1];
      var tail := if last.state == s then [last] else [];
      assert Group(rows, s) == Group(init, s) + tail;
      GroupCountIsStateCount(init, s, e, y);
      CountAtConcat(Group(init, s), tail, e, y);
      if last.state == s {
        CountsOfOne(last, e, y);
      }
    }
  }

  lemma {:induction false} CountUpToBefore(g: seq<Facility>, e: Event, y: int)
    requires y < FirstYear
    ensures CountUpTo(g, e, y) == 0
  {
    if g != [] {
      CountUpToBefore(g[1..], e, y);
    }
  }

  lemma {:induction false} CountUpToStep(g: seq<Facility>, e: Event, y: int)
    requires FirstYear <= y
    ensures CountUpTo(g, e, y) == CountUpTo(g, e, y - 1) + CountAt(g, e, y)
  {
    if g != [] {
      CountUpToStep(g[1..], e, y);
    }
  }

  /** The running total in closed form: openings up to `y` minus closings up to `y`. */
  lemma {:induction false} OperatingClosedForm(g: seq<Facility>, y: int)
    ensures Operating(g, y) == CountUpTo(g, Establishment, y) - CountUpTo(g, Discontinuance, y)
    decreases if y < FirstYear then 0 else y - FirstYear + 1
  {
    if y < FirstYear {
      CountUpToBefore(g, Establishment, y);
      CountUpToBefore(g, Discontinuance, y);
    } else {
      OperatingClosedForm(g, y - 1);
      CountUpToStep(g, Establishment, y);
      CountUpToStep(g, Discontinuance, y);
    }
  }

  lemma {:induction false} CountUpToConcat(a: seq<Facility>, b: seq<Facility>, e: Event, y: int)
    ensures CountUpTo(a + b, e, y) == CountUpTo(a, e, y) + CountUpTo(b, e, y)
  {
    if a == [] {
      assert a + b == b;
    } else {
      assert (a + b)[0] == a[0];
      assert (a + b)[1..] == a[1..] + b;
      CountUpToConcat(a[1..], b, e, y);
    }
  }

  /** The operating figure of two sets of rows together is the sum of their figures. */
  lemma OperatingConcat(a: seq<Facility>, b: seq<Facility>, y: int)
    ensures Operating(a + b, y) == Operating(a, y) + Operating(b, y)
  {
    OperatingClosedForm(a + b, y);
    OperatingClosedForm(a, y);
    OperatingClosedForm(b, y);
    CountUpToConcat(a, b, Establishment, y);
    CountUpToConcat(a, b, Discontinuance, y);
  }

  /**
   * A facility opened and closed in the same year counts once in that year's
   * openings and once in its closings, and never changes the operating figure.
   */
  lemma SameYearNetZero(g: seq<Facility>, f: Facility, y: int)
    requires f.established == f.discontinued
    ensures CountAt(g + [f], Establishment, f.established) == CountAt(g, Establishment, f.established) + 1
    ensures CountAt(g + [f], Discontinuance, f.discontinued) == CountAt(g, Discontinuance, f.discontinued) + 1
    ensures Operating(g + [f], y) == Operating(g, y)
  {
    CountAtConcat(g, [f], Establishment, f.established);
    CountAtConcat(g, [f], Discontinuance, f.discontinued);
    assert [f][1..] == [];
    OperatingConcat(g, [f], y);
    OperatingClosedForm([f], y);
  }

  /** A row whose year of `e` lies outside the horizon (a missing year, read as 0) adds to no year's count. */
  lemma OutOfHorizonNeverCounted(g: seq<Facility>, f: Facility, e: Event, y: int)
    requires !InHorizon(YearOf(f, e)) && InHorizon(y)
    ensures CountAt(g + [f], e, y) == CountAt(g, e, y)
    ensures CountUpTo(g + [f], e, y) == CountUpTo(g, e, y)
  {
    CountAtConcat(g, [f], e, y);
    CountUpToConcat(g, [f], e, y);
    assert [f][1..] == [];
  }

  /** Nothing keeps the running total from going negative: a closing with no opening. */
  lemma OperatingMayBeNegative()
    ensures Operating([Facility("WA", 0, 1800)], 1800) == -1
  {
    var g := [Facility("WA", 0, 1800)];
    OperatingClosedForm(g, 1800);
    assert g[1..] == [];
  }

  lemma CountsOfOne(f: Facility, e: Event, y: int)
    ensures CountAt([f], e, y) == if YearOf(f, e) == y then 1 else 0
    ensures CountUpTo([f], e, y) == if FirstYear <= YearOf(f, e) <= y then 1 else 0
  {
    assert [f][1..] == [];
  }

  /** One office of a state opened in 1850 and another closed in 1900. */
  lemma OpenThenCloseExample(y: int)
    requires InHorizon(y)
    ensures var g := [Facility("WA", 1850, 0), Facility("WA", 0, 1900)];
      && CountAt(g, Establishment, y) == (if y == 1850 then 1 else 0)
      && CountAt(g, Discontinuance, y) == (if y == 1900 then 1 else 0)
      && Operating(g, y) == (if 1850 <= y < 1900 then 1 else 0)
  {
    var opening, closing := Facility("WA", 1850, 0), Facility("WA", 0, 1900);
    var g := [opening, closing];
    assert g == [opening] + [closing];
    CountAtConcat([opening], [closing], Establishment, y);
    CountAtConcat([opening], [closing], Discontinuance, y);
    CountUpToConcat([opening], [closing], Establishment, y);
    CountUpToConcat([opening], [closing], Discontinuance, y);
    CountsOfOne(opening, Establishment, y);
    CountsOfOne(opening, Discontinuance, y);
    CountsOfOne(closing, Establishment, y);
    CountsOfOne(closing, Discontinuance, y);
    OperatingClosedForm(g, y);
  }

  // ---------------------------------------------------------------------------
  // The walk

  /** The record of one state and one year. */
  datatype YearRecord = YearRecord(year: int, established: nat, discontinued: nat, operating: int)

  /** A state's series: one record per year of the horizon. */
  function Series(g: seq<Facility>): (series: seq<YearRecord>)
    ensures |series| == YearCount
  {
    var records := seq(YearCount, k requires 0 <= k < YearCount => YearRecordOf(g, FirstYear + k));
    assert forall k :: 0 <= k < YearCount ==> records[k] == YearRecordOf(g, FirstYear + k);
    records
  }

  function YearRecordOf(g: seq<Facility>, y: int): YearRecord {
    YearRecord(y, CountAt(g, Establishment, y), CountAt(g, Discontinuance, y), Operating(g, y))
  }

  lemma SeriesAt(g: seq<Facility>, k: nat)
    requires k < YearCount
    ensures Series(g)[k] == YearRecordOf(g, FirstYear + k)
  {
  }

  /** A sequence holding the record of every year of the horizon, in order, is the series. */
  lemma IsSeries(g: seq<Facility>, series: seq<YearRecord>)
    requires |series| == YearCount
    requires forall k :: 0 <= k < YearCount ==> series[k] == YearRecordOf(g, FirstYear + k)
    ensures series == Series(g)
  {
    forall k | 0 <= k < YearCount
      ensures series[k] == Series(g)[k]
    {
      SeriesAt(g, k);
    }
  }

  /**
   * A state's series covers the horizon year by year, each record holding
   * that year's openings and closings; the first year starts from 0.
   */
  lemma SeriesShape(g: seq<Facility>)
    ensures forall k :: 0 <= k < YearCount ==> Series(g)[k].year == FirstYear + k
    ensures forall k :: 0 <= k < YearCount ==>
      Series(g)[k].established == CountAt(g, Establishment, FirstYear + k) &&
      Series(g)[k].discontinued == CountAt(g, Discontinuance, FirstYear + k)
    ensures Series(g)[0].operating == Series(g)[0].established - Series(g)[0].discontinued
  {
    forall k | 0 <= k < YearCount
      ensures Series(g)[k] == YearRecordOf(g, FirstYear + k)
    {
      SeriesAt(g, k);
    }
  }

  /** From one year to the next, the operating figure changes by that year's openings minus its closings. */
  lemma SeriesRecurrence(g: seq<Facility>, k: nat)
    requires 0 < k < YearCount
    ensures Series(g)[k].operating == Series(g)[k - 1].operating + Series(g)[k].established - Series(g)[k].discontinued
  {
    SeriesAt(g, k);
    SeriesAt(g, k - 1);
  }

  /** Walks the horizon for the rows `g` of one state, keeping a running total. */
  method WalkState(g: seq<Facility>) returns (series: seq<YearRecord>)
    ensures series == Series(g)
  {
    series := [];
    var runningTotal: int := 0;
    for year := FirstYear to LastYear + 1
      invariant |series| == year - FirstYear
      invariant forall k :: 0 <= k < |series| ==> series[k] == Series(g)[k]
      invariant runningTotal == Operating(g, year - 1)
    {
      OperatingStep(g, year);
      SeriesAt(g, year - FirstYear);
      var record := YearRecord(year, 0, 0, 0);
      if Occurs(g, Establishment, year) {
        var openings := CountAt(g, Establishment, year);
        record := record.(established := record.established + openings);
        runningTotal := runningTotal + openings;
      }
      if Occurs(g, Discontinuance, year) {
        var closings := CountAt(g, Discontinuance, year);
        record := record.(discontinued := record.discontinued + closings);
        runningTotal := runningTotal - closings;
      }
      record := record.(operating := runningTotal);
      series := series + [record];
    }
  }

  /** The series of one state, as the data dictionary holds it. */
  datatype StateSeries = StateSeries(state: string, years: seq<YearRecord>)

  /** The data dictionary: every state of `rows`, in grouping order, with its series. */
  function DataDict(rows: seq<Facility>): (data: seq<StateSeries>)
    ensures |data| == |States(rows)|
    ensures forall i :: 0 <= i < |data| ==> data[i].state == States(rows)[i] && |data[i].years| == YearCount
  {
    var states := States(rows);
    var data := seq(|states|, i requires 0 <= i < |states| => StateSeriesOf(rows, states[i]));
    assert forall i :: 0 <= i < |states| ==> data[i] == StateSeriesOf(rows, states[i]);
    data
  }

  function StateSeriesOf(rows: seq<Facility>, s: string): StateSeries {
    StateSeries(s, Series(Group(rows, s)))
  }

  lemma DataDictAt(rows: seq<Facility>, i: nat)
    requires i < |States(rows)|
    ensures DataDict(rows)[i] == StateSeriesOf(rows, States(rows)[i])
  {
  }

  /** A sequence that holds the series of every state, in grouping order, is the data dictionary. */
  lemma IsDataDict(rows: seq<Facility>, data: seq<StateSeries>)
    requires |data| == |States(rows)|
    requires forall j :: 0 <= j < |data| ==> data[j] == StateSeriesOf(rows, States(rows)[j])
    ensures data == DataDict(rows)
  {
    forall i | 0 <= i < |data|
      ensures data[i] == DataDict(rows)[i]
    {
      DataDictAt(rows, i);
    }
  }

  /** Walks every state of the cleaned table, each with its own running total. */
  method WalkStates(rows: seq<Facility>) returns (data: seq<StateSeries>)
    ensures data == DataDict(rows)
  {
    var states := States(rows);
    data := [];
    for i := 0 to |states|
      invariant |data| == i
      invariant forall j :: 0 <= j < i ==> data[j] == StateSeriesOf(rows, states[j])
    {
      var series := WalkState(Group(rows, states[i]));
      assert StateSeries(states[i], series) == StateSeriesOf(rows, states[i]);
      data := data + [StateSeries(states[i], series)];
    }
    IsDataDict(rows, data);
  }
}
