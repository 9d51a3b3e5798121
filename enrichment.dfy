/**
 * Enrichment: the output table is left-joined with the state-code table on
 * the code, then with the map-identifier table on the state's display name,
 * and the identifier column is cast to integers. The two tables are lookups
 * with unique keys.
 */
module Enrichment {
  import opened Wrappers
  import opened Flattening

  /** The descriptive columns of the state-code table once `category` is dropped. */
  datatype StateInfo = StateInfo(name: string, details: seq<string>)

  /** A row after the first join: the state's description, when its code was found. */
  datatype CodedRow = CodedRow(row: OutRow, info: Option<StateInfo>)

  /** A row after the second join: the map identifier, when the display name was found. */
  datatype GeoRow = GeoRow(row: OutRow, info: Option<StateInfo>, id: Option<int>)

  /** A row of the final table. */
  datatype FinalRow = FinalRow(row: OutRow, info: Option<StateInfo>, id: int)

  /** The integer cast meets a missing identifier. */
  datatype CastError = NonFiniteId

  /** Left join on the code: every row kept, in order, with its code's description if there is one. */
  function JoinCodes(rows: seq<OutRow>, codes: map<string, StateInfo>): (joined: seq<CodedRow>)
    ensures |joined| == |rows|
    ensures forall i :: 0 <= i < |rows| ==> joined[i].row == rows[i]
    ensures forall i :: 0 <= i < |rows| ==> (joined[i].info.Some? <==> rows[i].code in codes)
    ensures forall i :: 0 <= i < |rows| && rows[i].code in codes ==> joined[i].info.value == codes[rows[i].code]
  {
    if rows == [] then []
    else
      var info := if rows[0].code in codes then Some(codes[rows[0].code]) else None;
      [CodedRow(rows[0], info)] + JoinCodes(rows[1..], codes)
  }

  /** The identifier of a joined row: none when its description or its display name is missing. */
  function IdOf(info: Option<StateInfo>, geo: map<string, int>): Option<int> {
    match info
    case Some(i) => if i.name in geo then Some(geo[i.name]) else None
    case None => None
  }

  /** Left join on the display name: every row kept, in order, with the identifier of its name if there is one. */
  function JoinGeo(rows: seq<CodedRow>, geo: map<string, int>): (joined: seq<GeoRow>)
    ensures |joined| == |rows|
    ensures forall i :: 0 <= i < |rows| ==> joined[i].row == rows[i].row && joined[i].info == rows[i].info
    ensures forall i :: 0 <= i < |rows| ==>
      (joined[i].id.Some? <==> rows[i].info.Some? && rows[i].info.value.name in geo)
    ensures forall i :: 0 <= i < |rows| && joined[i].id.Some? ==> joined[i].id.value == geo[rows[i].info.value.name]
  {
    if rows == [] then []
    else [GeoRow(rows[0].row, rows[0].info, IdOf(rows[0].info, geo))] + JoinGeo(rows[1..], geo)
  }

  /** The integer cast of the identifier column: it fails as soon as one identifier is missing. */
  function CastIds(rows: seq<GeoRow>): (r: Result<seq<FinalRow>, CastError>)
    ensures r.Success? <==> forall i :: 0 <= i < |rows| ==> rows[i].id.Some?
    ensures r.Success? ==> |r.value| == |rows|
    ensures r.Success? ==> forall i :: 0 <= i < |rows| ==>
      r.value[i] == FinalRow(rows[i].row, rows[i].info, rows[i].id.value)
  {
    if rows == [] then Success([])
    else
      match rows[0].id
      case None => Failure(NonFiniteId)
      case Some(id) =>
        match CastIds(rows[1..])
        case Failure(e) =>
          assert exists i :: 1 <= i < |rows| && rows[i].id.None? by {
            var j :| 0 <= j < |rows[1..]| && rows[1..][j].id.None?;
            assert rows[j + 1].id.None?;
          }
          Failure(e)
        case Success(rest) => Success([FinalRow(rows[0].row, rows[0].info, id)] + rest)
  }

  /** Both joins and the cast, as the script runs them. */
  function Enrich(rows: seq<OutRow>, codes: map<string, StateInfo>, geo: map<string, int>): (r: Result<seq<FinalRow>, CastError>)
    ensures r.Success? <==> forall o :: o in rows ==> o.code in codes && codes[o.code].name in geo
    ensures r.Success? ==> |r.value| == |rows|
    ensures r.Success? ==> forall i :: 0 <= i < |rows| ==>
      r.value[i] == FinalRow(rows[i], Some(codes[rows[i].code]), geo[codes[rows[i].code].name])
  {
    CastIds(JoinGeo(JoinCodes(rows, codes), geo))
  }
}
