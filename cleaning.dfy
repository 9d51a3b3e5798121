/**
 * The cleaning stage: the working table loses the rows of two malformed state
 * codes, its missing years become 0, and the legacy code of Washington is
 * replaced by the current one. The table is changed in place, step by step.
 */
module Cleaning {
  import opened Wrappers
  import opened Facilities

  /** The two state codes whose rows are dropped. */
  const CompoundCode: string := "MI/OH"
  const MalformedCode: string := "VAy"

  /** The legacy code of Washington and the code that replaces it. */
  const LegacyCode: string := "DC"
  const CurrentCode: string := "WA"

  predicate IsDropped(state: string) {
    state == CompoundCode || state == MalformedCode
  }

  predicate HasYears(r: RawRow) {
    r.established.Some? && r.discontinued.Some?
  }

  // ---------------------------------------------------------------------------
  // Each step of the stage as a function on the rows

  /**
   * The rows whose state is not `code`, each as often as in `rows`; their
   * order is kept too (`WithoutConcat`).
   */
  function Without(rows: seq<RawRow>, code: string): (kept: seq<RawRow>)
    ensures |kept| <= |rows|
    ensures forall r {:trigger r in kept} :: r in kept <==> r in rows && r.state != code
    ensures forall r {:trigger multiset(kept)[r]} ::
      multiset(kept)[r] == if r.state == code then 0 else multiset(rows)[r]
  {
    if rows == [] then []
    else
      assert rows == [rows[0]] + rows[1..];
      (if rows[0].state == code then [] else [rows[0]]) + Without(rows[1..], code)
  }

  /** Dropping from a concatenation drops from each part: the kept rows stay in order. */
  lemma {:induction false} WithoutConcat(a: seq<RawRow>, b: seq<RawRow>, code: string)
    ensures Without(a + b, code) == Without(a, code) + Without(b, code)
  {
    if a == [] {
      assert a + b == b;
    } else {
      var head := if a[0].state == code then [] else [a[0]];
      assert (a + b)[0] == a[0];
      assert (a + b)[1..] == a[1..] + b;
      assert Without(a + b, code) == head + Without(a[1..] + b, code);
      assert Without(a, code) == head + Without(a[1..], code);
      WithoutConcat(a[1..], b, code);
    }
  }

  /** A missing year read as 0. */
  function YearOrZero(y: Option<int>): int {
    y.GetOr(0)
  }

  function FillRow(r: RawRow): RawRow {
    r.(established := Some(YearOrZero(r.established)), discontinued := Some(YearOrZero(r.discontinued)))
  }

  /** Every missing year replaced by 0, every present one kept. */
  function FilledYears(rows: seq<RawRow>): (filled: seq<RawRow>)
    ensures |filled| == |rows|
    ensures forall i :: 0 <= i < |rows| ==> HasYears(filled[i]) && filled[i].state == rows[i].state
    ensures forall i :: 0 <= i < |rows| && rows[i].established.Some? ==> filled[i].established == rows[i].established
    ensures forall i :: 0 <= i < |rows| && rows[i].established.None? ==> filled[i].established == Some(0)
    ensures forall i :: 0 <= i < |rows| && rows[i].discontinued.Some? ==> filled[i].discontinued == rows[i].discontinued
    ensures forall i :: 0 <= i < |rows| && rows[i].discontinued.None? ==> filled[i].discontinued == Some(0)
  {
    if rows == [] then [] else [FillRow(rows[0])] + FilledYears(rows[1..])
  }

  function RenameRow(r: RawRow, from: string, to: string): RawRow {
    if r.state == from then r.(state := to) else r
  }

  /** Every row of state `from` moved to state `to`; years and all other rows untouched. */
  function Renamed(rows: seq<RawRow>, from: string, to: string): (renamed: seq<RawRow>)
    ensures |renamed| == |rows|
    ensures forall i :: 0 <= i < |rows| ==>
      renamed[i].established == rows[i].established && renamed[i].discontinued == rows[i].discontinued
    ensures forall i :: 0 <= i < |rows| && rows[i].state == from ==> renamed[i].state == to
    ensures forall i :: 0 <= i < |rows| && rows[i].state != from ==> renamed[i].state == rows[i].state
    ensures from != to ==> forall r :: r in renamed ==> r.state != from
  {
    if rows == [] then [] else [RenameRow(rows[0], from, to)] + Renamed(rows[1..], from, to)
  }

  function TypeRow(r: RawRow): Facility
    requires HasYears(r)
  {
    Facility(r.state, r.established.value, r.discontinued.value)
  }

  /** The integer view of a table that has no missing year. */
  function Typed(rows: seq<RawRow>): (typed: seq<Facility>)
    requires forall i :: 0 <= i < |rows| ==> HasYears(rows[i])
    ensures |typed| == |rows|
    ensures forall i :: 0 <= i < |rows| ==>
      typed[i].state == rows[i].state &&
      Some(typed[i].established) == rows[i].established &&
      Some(typed[i].discontinued) == rows[i].discontinued
  {
    if rows == [] then [] else [TypeRow(rows[0])] + Typed(rows[1..])
  }

  /**
   * The steps after the drops, applied to the rows of the table that remain.
   * The script casts the years before it renames; here the cast comes last,
   * which gives the same rows because the rename touches only the state
   * (`CastCommutesWithRename`).
   */
  function FillRenameType(rows: seq<RawRow>): seq<Facility> {
    Typed(Renamed(FilledYears(rows), LegacyCode, CurrentCode))
  }

  /** The whole stage: both drops, then the fill, the rename and the cast. */
  function Cleaned(raw: seq<RawRow>): seq<Facility> {
    FillRenameType(Without(Without(raw, CompoundCode), MalformedCode))
  }

  /** Casting before renaming, as the script does, gives the rows that renaming first gives. */
  lemma CastCommutesWithRename(rows: seq<RawRow>, from: string, to: string)
    requires forall i :: 0 <= i < |rows| ==> HasYears(rows[i])
    ensures forall i :: 0 <= i < |rows| ==> HasYears(Renamed(rows, from, to)[i])
    ensures |Typed(Renamed(rows, from, to))| == |Typed(rows)|
    ensures forall i :: 0 <= i < |rows| ==>
      Typed(Renamed(rows, from, to))[i] ==
        var f := Typed(rows)[i]; if f.state == from then f.(state := to) else f
  {
  }

  // ---------------------------------------------------------------------------
  // A row-by-row reference for the stage and what it guarantees

  /** What the stage makes of one row that it keeps. */
  function CleanRow(r: RawRow): Facility {
    Facility(if r.state == LegacyCode then CurrentCode else r.state,
             YearOrZero(r.established), YearOrZero(r.discontinued))
  }

  /** The stage in one pass: each row either dropped or cleaned on its own. */
  function CleanedByRow(raw: seq<RawRow>): seq<Facility> {
    if raw == [] then []
    else (if IsDropped(raw[0].state) then [] else [CleanRow(raw[0])]) + CleanedByRow(raw[1..])
  }

  lemma FillRenameTypeCons(r: RawRow, rest: seq<RawRow>)
    ensures FillRenameType([r] + rest) == [CleanRow(r)] + FillRenameType(rest)
  {
    var f := FilledYears(rest);
    assert ([r] + rest)[1..] == rest;
    assert FilledYears([r] + rest) == [FillRow(r)] + f;
    var n := Renamed(f, LegacyCode, CurrentCode);
    assert ([FillRow(r)] + f)[1..] == f;
    var rr := RenameRow(FillRow(r), LegacyCode, CurrentCode);
    assert Renamed([FillRow(r)] + f, LegacyCode, CurrentCode) == [rr] + n;
    assert ([rr] + n)[1..] == n;
    assert Typed([rr] + n) == [TypeRow(rr)] + Typed(n);
  }

  lemma DropsCons(r: RawRow, rest: seq<RawRow>)
    ensures var kept := Without(Without(rest, CompoundCode), MalformedCode);
      Without(Without([r] + rest, CompoundCode), MalformedCode) ==
        if IsDropped(r.state) then kept else [r] + kept
  {
    var w1 := Without(rest, CompoundCode);
    assert ([r] + rest)[0] == r && ([r] + rest)[1..] == rest;
    if r.state == CompoundCode {
      assert Without([r] + rest, CompoundCode) == w1;
    } else {
      assert Without([r] + rest, CompoundCode) == [r] + w1;
      assert ([r] + w1)[0] == r && ([r] + w1)[1..] == w1;
      if r.state == MalformedCode {
        assert Without([r] + w1, MalformedCode) == Without(w1, MalformedCode);
      } else {
        assert Without([r] + w1, MalformedCode) == [r] + Without(w1, MalformedCode);
      }
    }
  }

  /** The stepwise stage and the row-by-row reference agree. */
  lemma {:induction false} CleanedIsRowByRow(raw: seq<RawRow>)
    ensures Cleaned(raw) == CleanedByRow(raw)
  {
    if raw != [] {
      var r, rest := raw[0], raw[1..];
      assert raw == [r] + rest;
      CleanedIsRowByRow(rest);
      DropsCons(r, rest);
      if !IsDropped(r.state) {
        FillRenameTypeCons(r, Without(Without(rest, CompoundCode), MalformedCode));
      }
    }
  }

  /** Cleaning a concatenation cleans each part: kept rows stay in their order. */
  lemma {:induction false} CleanedConcat(a: seq<RawRow>, b: seq<RawRow>)
    ensures Cleaned(a + b) == Cleaned(a) + Cleaned(b)
  {
    CleanedIsRowByRow(a);
    CleanedIsRowByRow(b);
    CleanedIsRowByRow(a + b);
    RowByRowConcat(a, b);
  }

  lemma {:induction false} RowByRowConcat(a: seq<RawRow>, b: seq<RawRow>)
    ensures CleanedByRow(a + b) == CleanedByRow(a) + CleanedByRow(b)
  {
    if a != [] {
      assert (a + b)[0] == a[0];
      assert (a + b)[1..] == a[1..] + b;
      RowByRowConcat(a[1..], b);
    } else {
      assert a + b == b;
    }
  }

  /** One row: dropped when its state is malformed, cleaned otherwise. */
  lemma CleanedSingle(r: RawRow)
    ensures Cleaned([r]) == if IsDropped(r.state) then [] else [CleanRow(r)]
  {
    CleanedIsRowByRow([r]);
    assert [r][1..] == [];
  }

  /** No cleaned row carries a dropped state or the legacy code. */
  lemma {:induction false} CleanedStates(raw: seq<RawRow>)
    ensures forall f :: f in Cleaned(raw) ==> !IsDropped(f.state) && f.state != LegacyCode
  {
    CleanedIsRowByRow(raw);
    RowByRowStates(raw);
  }

  lemma {:induction false} RowByRowStates(raw: seq<RawRow>)
    ensures forall f :: f in CleanedByRow(raw) ==> !IsDropped(f.state) && f.state != LegacyCode
  {
    if raw != [] {
      RowByRowStates(raw[1..]);
    }
  }

  /** Every row that is not dropped reaches the cleaned table, cleaned on its own. */
  lemma {:induction false} CleanedKeeps(raw: seq<RawRow>, i: nat)
    requires i < |raw| && !IsDropped(raw[i].state)
    ensures CleanRow(raw[i]) in Cleaned(raw)
  {
    var r := raw[i];
    assert raw == raw[..i] + [r] + raw[i + 1..];
    CleanedConcat(raw[..i] + [r], raw[i + 1..]);
    CleanedConcat(raw[..i], [r]);
    CleanedSingle(r);
  }

  /** The cleaned table has one row per row whose state is not dropped. */
  function KeptCount(raw: seq<RawRow>): nat {
    if raw == [] then 0 else (if IsDropped(raw[0].state) then 0 else 1) + KeptCount(raw[1..])
  }

  lemma {:induction false} CleanedLength(raw: seq<RawRow>)
    ensures |Cleaned(raw)| == KeptCount(raw)
  {
    CleanedIsRowByRow(raw);
    RowByRowLength(raw);
  }

  lemma {:induction false} RowByRowLength(raw: seq<RawRow>)
    ensures |CleanedByRow(raw)| == KeptCount(raw)
  {
    if raw != [] {
      RowByRowLength(raw[1..]);
    }
  }

  // ---------------------------------------------------------------------------
  // The working table, changed in place

  class FacilityTable {
    var rows: seq<RawRow>

    constructor (raw: seq<RawRow>)
      ensures rows == raw
    {
      rows := raw;
    }

    /** Drops every row whose state is `code`. */
    method DropState(code: string)
      modifies this
      ensures rows == Without(old(rows), code)
      ensures forall r :: r in rows ==> r.state != code
    {
      rows := Without(rows, code);
    }

    /** Fills the missing years with 0, so that every row has both years. */
    method FillMissingYears()
      modifies this
      ensures rows == FilledYears(old(rows))
      ensures forall i :: 0 <= i < |rows| ==> HasYears(rows[i])
    {
      rows := FilledYears(rows);
    }

    /** Moves every row of state `from` to state `to`. */
    method ReplaceState(from: string, to: string)
      modifies this
      ensures rows == Renamed(old(rows), from, to)
    {
      rows := Renamed(rows, from, to);
    }

    /** The table with both year columns cast to integers. */
    function TypedRows(): (typed: seq<Facility>)
      reads this
      requires forall i :: 0 <= i < |rows| ==> HasYears(rows[i])
      ensures |typed| == |rows|
      ensures forall i :: 0 <= i < |rows| ==>
        typed[i].state == rows[i].state &&
        Some(typed[i].established) == rows[i].established &&
        Some(typed[i].discontinued) == rows[i].discontinued
    {
      Typed(rows)
    }
  }

  /** Runs the cleaning stage on a fresh working table holding `raw`. */
  method Clean(raw: seq<RawRow>) returns (facilities: seq<Facility>)
    ensures facilities == Cleaned(raw)
    ensures forall f :: f in facilities ==> !IsDropped(f.state) && f.state != LegacyCode
  {
    var table := new FacilityTable(raw);
    table.DropState(CompoundCode);
    table.DropState(MalformedCode);
    table.FillMissingYears();
    table.ReplaceState(LegacyCode, CurrentCode);
    facilities := table.TypedRows();
    CleanedStates(raw);
  }
}
