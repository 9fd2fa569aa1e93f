/**
 * collectRows: every `table tbody tr` row of every table in the first frame
 * that has any such row, each mapped positionally to a candidate record.
 */
module Extract {
  import opened Frames

  /** The record built from one table row; status and tipo are fixed. */
  datatype Candidate = Candidate(
    cedula: string, nombre: string, paterno: string, materno: string,
    carrera: string, universidad: string, entidad: string, anno: string,
    status: int, tipo: string)

  /** `t[i] || ''`: a missing cell reads as the empty string. */
  function Cell(t: seq<string>, i: nat): string {
    if i < |t| then t[i] else ""
  }

  /**
   * The positional mapping of one row's cells: each mapped column feeds its
   * field, a missing cell reads as "", status is 0 and tipo "C1".
   */
  function ToCandidate(t: seq<string>): (c: Candidate)
    ensures forall i: nat :: MappedPosition(i) ==> Column(c, i) == Cell(t, i)
    ensures c.status == 0 && c.tipo == "C1"
  {
    Candidate(
      cedula := Cell(t, 0), nombre := Cell(t, 1), paterno := Cell(t, 2), materno := Cell(t, 3),
      carrera := Cell(t, 6), universidad := Cell(t, 5), entidad := Cell(t, 7), anno := Cell(t, 8),
      status := 0, tipo := "C1")
  }

  /** The positions that feed a record. */
  predicate MappedPosition(i: nat) {
    i <= 3 || 5 <= i <= 8
  }

  /** Two rows that agree on every mapped position (missing cells read as "") give the same record. */
  lemma OnlyMappedCellsMatter(t: seq<string>, u: seq<string>)
    requires forall i: nat :: MappedPosition(i) ==> Cell(t, i) == Cell(u, i)
    ensures ToCandidate(t) == ToCandidate(u)
  {
    assert MappedPosition(0) && MappedPosition(1) && MappedPosition(2) && MappedPosition(3);
    assert MappedPosition(5) && MappedPosition(6) && MappedPosition(7) && MappedPosition(8);
  }

  /** The record field that column `i` of the result table feeds ("" for an unmapped column). */
  function Column(c: Candidate, i: nat): string {
    match i
    case 0 => c.cedula
    case 1 => c.nombre
    case 2 => c.paterno
    case 3 => c.materno
    case 5 => c.universidad
    case 6 => c.carrera
    case 7 => c.entidad
    case 8 => c.anno
    case _ => ""
  }

  /**
   * Each mapped column carries its cell, or "" when the row is too short;
   * status is always 0 and tipo always "C1".
   */
  lemma ColumnMapping(t: seq<string>, i: nat)
    requires MappedPosition(i)
    ensures Column(ToCandidate(t), i) == if i < |t| then t[i] else ""
    ensures ToCandidate(t).status == 0 && ToCandidate(t).tipo == "C1"
  {
  }

  /** The nine-cell row a record came from (cell 4 left empty). */
  function RowOf(c: Candidate): (t: seq<string>)
    ensures |t| == 9
  {
    [c.cedula, c.nombre, c.paterno, c.materno, "", c.universidad, c.carrera, c.entidad, c.anno]
  }

  /** Mapping is the inverse of RowOf on every record of this family. */
  lemma CandidateRoundTrip(c: Candidate)
    requires c.status == 0 && c.tipo == "C1"
    ensures ToCandidate(RowOf(c)) == c
  {
  }

  /** A row with its ignored cells cleared round-trips through RowOf. */
  lemma RowRoundTrip(t: seq<string>)
    requires |t| == 9 && t[4] == ""
    ensures RowOf(ToCandidate(t)) == t
  {
  }

  function MapRows(rows: seq<seq<string>>): (r: seq<Candidate>)
    ensures |r| == |rows|
    ensures forall k :: 0 <= k < |rows| ==> r[k] == ToCandidate(rows[k])
  {
    if rows == [] then [] else [ToCandidate(rows[0])] + MapRows(rows[1..])
  }

  /**
   * The records collectRows returns for a frame snapshot: those of the first
   * frame with a row, none when no frame has one.
   */
  function Extracted(frames: seq<FrameView>): (r: seq<Candidate>)
    ensures r == [] <==> !AnyFrame(frames, HasRows)
    ensures r != [] ==> exists i :: (0 <= i < |frames| && r == MapRows(frames[i].rows) &&
      forall j :: 0 <= j < i ==> frames[j].rows == [])
  {
    match FirstFrame(frames, HasRows)
    case Some(i) => MapRows(frames[i].rows)
    case None => []
  }

  /** collectRows */
  method CollectRows(frames: seq<FrameView>) returns (r: seq<Candidate>)
    ensures r == Extracted(frames)
    ensures r == [] <==> !AnyFrame(frames, HasRows)
    ensures r != [] ==> exists i :: (0 <= i < |frames| && r == MapRows(frames[i].rows) &&
      forall j :: 0 <= j < i ==> frames[j].rows == [])
  {
    var f := FindFrame(frames, HasRows);
    if f.Some? {
      return MapRows(frames[f.value].rows);
    }
    return [];
  }
}
