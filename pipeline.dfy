/**
 * The whole script: clean the post-office table, walk every state through the
 * horizon, flatten the series and join the two lookup tables. Reading and
 * writing the files is left to the caller: the tables come in as values and
 * the final table goes out as one.
 */
module Pipeline {
  import opened Wrappers
  import opened Facilities
  import opened Cleaning
  import opened Grouping
  import opened YearWalk
  import opened Flattening
  import opened Enrichment

  /** Why a run stops before writing its output. */
  datatype RunError = FrameFailure(frame: FrameError) | CastFailure(cast: CastError)

  /** The script as a function of the tables it reads. */
  function Run(raw: seq<RawRow>, codes: map<string, StateInfo>, geo: map<string, int>): Result<seq<FinalRow>, RunError> {
    match Tabulate(DataDict(Cleaned(raw)))
    case Failure(e) => Failure(FrameFailure(e))
    case Success(out) =>
      match Enrich(out, codes, geo)
      case Failure(e) => Failure(CastFailure(e))
      case Success(rows) => Success(rows)
  }

  /** Runs the stages one after the other, as the script does. */
  method ProcessPostOffices(raw: seq<RawRow>, codes: map<string, StateInfo>, geo: map<string, int>)
    returns (result: Result<seq<FinalRow>, RunError>)
    ensures result == Run(raw, codes, geo)
    ensures result == Failure(FrameFailure(ColumnCountMismatch)) <==> Cleaned(raw) == []
    ensures result.Success? <==>
      Cleaned(raw) != [] &&
      forall s :: HasState(Cleaned(raw), s) ==> s in codes && codes[s].name in geo
    ensures result.Success? ==> |result.value| == |States(Cleaned(raw))| * YearCount
    ensures result.Success? ==>
      forall i :: 0 <= i < |result.value| ==> result.value[i].row == Report(Cleaned(raw))[i]
    ensures result.Success? ==>
      forall r :: r in result.value ==> !IsDropped(r.row.code) && r.row.code != LegacyCode
  {
    var facilities := Clean(raw);
    var data := WalkStates(facilities);
    var frame := Tabulate(data);
    match frame {
      case Failure(e) =>
        result := Failure(FrameFailure(e));
      case Success(out) =>
        var enriched := Enrich(out, codes, geo);
        match enriched {
          case Failure(e) =>
            result := Failure(CastFailure(e));
          case Success(rows) =>
            result := Success(rows);
        }
    }
    RunOutcome(raw, codes, geo);
    if result.Success? {
      RunRows(raw, codes, geo);
    }
  }

  /** The columns can be named exactly when the cleaned table has a row; the named frame is the report. */
  lemma TabulateReport(rows: seq<Facility>)
    ensures Tabulate(DataDict(rows)) == if rows == [] then Failure(ColumnCountMismatch) else Success(Report(rows))
  {
    var data := DataDict(rows);
    if rows != [] {
      assert rows[0] in rows;
      assert States(rows)[0] in States(rows);
      assert data[0].years != [];
    }
  }

  /** Enriching the report succeeds exactly when every state is in both lookups; it then keeps the report's rows. */
  lemma EnrichReport(rows: seq<Facility>, codes: map<string, StateInfo>, geo: map<string, int>)
    ensures Enrich(Report(rows), codes, geo).Success? <==>
      forall s :: HasState(rows, s) ==> s in codes && codes[s].name in geo
    ensures Enrich(Report(rows), codes, geo).Success? ==>
      |Enrich(Report(rows), codes, geo).value| == |States(rows)| * YearCount
    ensures Enrich(Report(rows), codes, geo).Success? ==>
      forall i :: 0 <= i < |Enrich(Report(rows), codes, geo).value| ==>
        Enrich(Report(rows), codes, geo).value[i].row == Report(rows)[i]
  {
    var out := Report(rows);
    ReportCodesAreStates(rows);
    forall s | HasState(rows, s) ensures exists o :: o in out && o.code == s {
      EveryStateReported(rows, s);
    }
    FlattenLength(DataDict(rows));
  }

  /** The run stops at the column names exactly when cleaning leaves no row, and otherwise at the cast exactly when a lookup misses. */
  lemma RunOutcome(raw: seq<RawRow>, codes: map<string, StateInfo>, geo: map<string, int>)
    ensures Run(raw, codes, geo) == Failure(FrameFailure(ColumnCountMismatch)) <==> Cleaned(raw) == []
    ensures Run(raw, codes, geo).Success? <==>
      Cleaned(raw) != [] &&
      forall s :: HasState(Cleaned(raw), s) ==> s in codes && codes[s].name in geo
  {
    TabulateReport(Cleaned(raw));
    EnrichReport(Cleaned(raw), codes, geo);
  }

  /** No row of the report carries a dropped code or the legacy code. */
  lemma ReportCodesClean(raw: seq<RawRow>)
    ensures forall i :: 0 <= i < |Report(Cleaned(raw))| ==>
      !IsDropped(Report(Cleaned(raw))[i].code) && Report(Cleaned(raw))[i].code != LegacyCode
  {
    var facilities := Cleaned(raw);
    var out := Report(facilities);
    CleanedStates(raw);
    ReportCodesAreStates(facilities);
    forall i | 0 <= i < |out| ensures !IsDropped(out[i].code) && out[i].code != LegacyCode {
      assert out[i] in out;
      var f :| f in facilities && f.state == out[i].code;
    }
  }

  /** A successful run has one row per state and year, each the report's row, and no dropped or legacy code. */
  lemma RunRows(raw: seq<RawRow>, codes: map<string, StateInfo>, geo: map<string, int>)
    requires Run(raw, codes, geo).Success?
    ensures |Run(raw, codes, geo).value| == |States(Cleaned(raw))| * YearCount
    ensures forall i :: 0 <= i < |Run(raw, codes, geo).value| ==>
      Run(raw, codes, geo).value[i].row == Report(Cleaned(raw))[i]
    ensures forall r :: r in Run(raw, codes, geo).value ==> !IsDropped(r.row.code) && r.row.code != LegacyCode
  {
    var facilities := Cleaned(raw);
    TabulateReport(facilities);
    var enriched := Enrich(Report(facilities), codes, geo);
    assert Run(raw, codes, geo) == Success(enriched.value);
    var rows := enriched.value;
    EnrichReport(facilities, codes, geo);
    ReportCodesClean(raw);
    forall r | r in rows ensures !IsDropped(r.row.code) && r.row.code != LegacyCode {
      var i :| 0 <= i < |rows| && rows[i] == r;
      assert r.row == Report(facilities)[i];
    }
  }

  /** The year of event `e` as read, before cleaning. */
  function RawYearOf(r: RawRow, e: Event): Option<int> {
    match e
    case Establishment => r.established
    case Discontinuance => r.discontinued
  }

  /**
   * A kept row whose year of `e` is missing is cleaned to year 0, which lies
   * outside the horizon: event `e` of that row adds nothing to any year's
   * count or cumulative count. Its other event still counts.
   */
  lemma MissingYearNeverCounted(g: seq<Facility>, r: RawRow, e: Event, y: int)
    requires !IsDropped(r.state) && RawYearOf(r, e).None? && InHorizon(y)
    ensures |Cleaned([r])| == 1 && YearOf(Cleaned([r])[0], e) == 0
    ensures CountAt(g + Cleaned([r]), e, y) == CountAt(g, e, y)
    ensures CountUpTo(g + Cleaned([r]), e, y) == CountUpTo(g, e, y)
  {
    CleanedSingle(r);
    OutOfHorizonNeverCounted(g, CleanRow(r), e, y);
  }

  /** A kept row with both years missing leaves every running total in the horizon unchanged. */
  lemma BothYearsMissingNeverOperate(g: seq<Facility>, r: RawRow, y: int)
    requires !IsDropped(r.state) && r.established.None? && r.discontinued.None? && InHorizon(y)
    ensures Operating(g + Cleaned([r]), y) == Operating(g, y)
  {
    MissingYearNeverCounted(g, r, Establishment, y);
    MissingYearNeverCounted(g, r, Discontinuance, y);
    OperatingClosedForm(g + Cleaned([r]), y);
    OperatingClosedForm(g, y);
  }

  /**
   * A row of the legacy code is counted under the current code, with the
   * same years, and the legacy code has no group of its own.
   */
  lemma LegacyRowsCountedAsCurrent(raw: seq<RawRow>, i: nat)
    requires i < |raw| && raw[i].state == LegacyCode
    ensures CleanRow(raw[i]) == Facility(CurrentCode, YearOrZero(raw[i].established), YearOrZero(raw[i].discontinued))
    ensures CleanRow(raw[i]) in Group(Cleaned(raw), CurrentCode)
    ensures LegacyCode !in States(Cleaned(raw))
  {
    var rows := Cleaned(raw);
    var f := CleanRow(raw[i]);
    CleanedKeeps(raw, i);
    assert multiset(rows)[f] > 0;
    assert multiset(Group(rows, CurrentCode))[f] > 0;
    CleanedStates(raw);
  }
}
