/**
 * Flattening the data dictionary into the output table: one row per
 * (state, year) pair, with the columns code, Year, Established,
 * Discontinued and Operating.
 */
module Flattening {
  import opened Wrappers
  import opened Facilities
  import opened Grouping
  import opened YearWalk

  datatype OutRow = OutRow(code: string, year: int, established: nat, discontinued: nat, operating: int)

  function RowOf(state: string, r: YearRecord): OutRow {
    OutRow(state, r.year, r.established, r.discontinued, r.operating)
  }

  /** The rows of one state, year after year. */
  function StateRows(s: StateSeries): (rows: seq<OutRow>)
    ensures |rows| == |s.years|
    ensures forall k :: 0 <= k < |rows| ==> rows[k] == RowOf(s.state, s.years[k])
  {
    seq(|s.years|, k requires 0 <= k < |s.years| => RowOf(s.state, s.years[k]))
  }

  /** The rows of every state, state after state. */
  function Flatten(data: seq<StateSeries>): (out: seq<OutRow>)
    ensures forall o :: o in out ==> exists i :: 0 <= i < |data| && o.code == data[i].state
  {
    if data == [] then []
    else
      var rest := Flatten(data[1..]);
      assert forall o :: o in rest ==> exists i :: 1 <= i < |data| && o.code == data[i].state by {
        forall o | o in rest ensures exists i :: 1 <= i < |data| && o.code == data[i].state {
          var j :| 0 <= j < |data[1..]| && o.code == data[1..][j].state;
          assert o.code == data[j + 1].state;
        }
      }
      StateRows(data[0]) + rest
  }

  /** Naming the five columns fails: the frame has a different number of columns. */
  datatype FrameError = ColumnCountMismatch

  /**
   * The flat table once its columns are named. When no state has a year the
   * frame has no value column, and after `reset_index` it has a single
   * column, so the five names do not fit and the script stops.
   */
  function Tabulate(data: seq<StateSeries>): (r: Result<seq<OutRow>, FrameError>)
    ensures r.Failure? <==> forall i :: 0 <= i < |data| ==> data[i].years == []
    ensures r.Success? ==> r.value == Flatten(data)
  {
    FlattenEmpty(data);
    var out := Flatten(data);
    if out == [] then Failure(ColumnCountMismatch) else Success(out)
  }

  /** The flat table is empty exactly when no state has a year. */
  lemma {:induction false} FlattenEmpty(data: seq<StateSeries>)
    ensures Flatten(data) == [] <==> forall i :: 0 <= i < |data| ==> data[i].years == []
  {
    if data != [] {
      FlattenEmpty(data[1..]);
      assert Flatten(data) == StateRows(data[0]) + Flatten(data[1..]);
      if data[0].years == [] {
        forall i | 1 <= i < |data| ensures data[i] == data[1..][i - 1] {}
      } else {
        assert |Flatten(data)| >= |StateRows(data[0])| > 0;
      }
    }
  }

  predicate FullSeries(data: seq<StateSeries>) {
    forall i :: 0 <= i < |data| ==> |data[i].years| == YearCount
  }

  /** With a full series per state, the flat table has YearCount rows per state. */
  lemma {:induction false} FlattenLength(data: seq<StateSeries>)
    requires FullSeries(data)
    ensures |Flatten(data)| == |data| * YearCount
  {
    if data != [] {
      FlattenLength(data[1..]);
      assert |Flatten(data)| == YearCount + |Flatten(data[1..])|;
      MulSucc(|data| - 1, YearCount);
    }
  }

  lemma MulSucc(n: nat, c: nat)
    ensures (n + 1) * c == c + n * c
  {
  }

  /** Row `i * YearCount + k` of the flat table is year `k` of state `i`. */
  lemma {:induction false} FlattenAt(data: seq<StateSeries>, i: nat, k: nat)
    requires FullSeries(data)
    requires i < |data| && k < YearCount
    ensures i * YearCount + k < |Flatten(data)|
    ensures Flatten(data)[i * YearCount + k] == RowOf(data[i].state, data[i].years[k])
  {
    FlattenLength(data);
    if i > 0 {
      FlattenAt(data[1..], i - 1, k);
      MulSucc(i - 1, YearCount);
    }
  }

  /** The output table of a cleaned table: its data dictionary, flattened. */
  function Report(rows: seq<Facility>): seq<OutRow> {
    Flatten(DataDict(rows))
  }

  /**
   * The output has YearCount rows per state of the cleaned table; row
   * `i * YearCount + k` is state `i` in year FirstYear + k, with that
   * state's openings, closings and running total.
   */
  lemma ReportAt(rows: seq<Facility>, i: nat, k: nat)
    requires i < |States(rows)| && k < YearCount
    ensures |Report(rows)| == |States(rows)| * YearCount
    ensures i * YearCount + k < |Report(rows)|
    ensures Report(rows)[i * YearCount + k].code == States(rows)[i]
    ensures Report(rows)[i * YearCount + k].year == FirstYear + k
    ensures Report(rows)[i * YearCount + k].established ==
      CountAt(Group(rows, States(rows)[i]), Establishment, FirstYear + k)
    ensures Report(rows)[i * YearCount + k].discontinued ==
      CountAt(Group(rows, States(rows)[i]), Discontinuance, FirstYear + k)
    ensures Report(rows)[i * YearCount + k].operating ==
      Operating(Group(rows, States(rows)[i]), FirstYear + k)
  {
    var data := DataDict(rows);
    var s := States(rows)[i];
    assert FullSeries(data);
    FlattenLength(data);
    FlattenAt(data, i, k);
    DataDictAt(rows, i);
    SeriesAt(Group(rows, s), k);
    assert Report(rows) == Flatten(data);
  }

  /** Every code of the output is a state of the cleaned table. */
  lemma ReportCodesAreStates(rows: seq<Facility>)
    ensures forall o :: o in Report(rows) ==> HasState(rows, o.code)
  {
    var data := DataDict(rows);
    forall o | o in Report(rows) ensures HasState(rows, o.code) {
      assert o in Flatten(data);
      var i :| 0 <= i < |data| && o.code == data[i].state;
      assert o.code in States(rows);
    }
  }

  lemma {:induction false} FlattenHasFirstYear(data: seq<StateSeries>, i: nat)
    requires i < |data| && |data[i].years| > 0
    ensures RowOf(data[i].state, data[i].years[0]) in Flatten(data)
  {
    if i == 0 {
      assert StateRows(data[0])[0] == RowOf(data[0].state, data[0].years[0]);
    } else {
      FlattenHasFirstYear(data[1..], i - 1);
    }
  }

  /** Every state of the cleaned table appears in the output. */
  lemma EveryStateReported(rows: seq<Facility>, s: string)
    requires HasState(rows, s)
    ensures exists o :: o in Report(rows) && o.code == s
  {
    var states := States(rows);
    var data := DataDict(rows);
    assert s in states;
    var i :| 0 <= i < |states| && states[i] == s;
    FlattenHasFirstYear(data, i);
    assert RowOf(data[i].state, data[i].years[0]) in Report(rows);
  }
}
