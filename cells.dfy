/**
 * Cell values, measure types and the storage record that backs a realised
 * column. The storage engine itself is not part of this model: a record is
 * the data a realised column reads and writes.
 */
module Cells {
  import opened Wrappers
  import opened Naming

  /** The integer used for a missing value in integer columns. */
  const MISSING_INT: int := -2147483648

  datatype MeasureType = MeasureNone | Nominal | NominalText | Ordinal | Continuous

  datatype ColumnType = TypeNone | DataColumn | Computed | Recoded

  /** A cell value; `Missing` stands for the floating-point NaN. */
  datatype Value = Missing | Int(i: int) | Text(s: string) | Number(x: real)

  datatype Level = Level(raw: int, caption: string)

  /** A storage column: what a realised column wrapper is backed by. */
  datatype Record = Record(
    name: string,
    importName: string,
    id: int,
    columnType: ColumnType,
    measureType: MeasureType,
    autoMeasure: bool,
    dps: int,
    formula: string,
    message: string,
    levels: seq<Level>,
    cells: seq<Value>)

  /** The value read past the end of a realised column of the given measure type. */
  function Sentinel(m: MeasureType): Value {
    match m
    case NominalText => Text("")
    case Continuous => Missing
    case _ => Int(MISSING_INT)
  }

  /**
   * Reading row `row` of a realised column: its cell below the row count;
   * past it, an empty string for nominal text, NaN for continuous data and
   * the missing integer otherwise.
   */
  function ReadCell(r: Record, row: nat): (v: Value)
    ensures row < |r.cells| ==> v == r.cells[row]
    ensures row >= |r.cells| && r.measureType == NominalText ==> v == Text("")
    ensures row >= |r.cells| && r.measureType == Continuous ==> v == Missing
    ensures row >= |r.cells| && r.measureType != NominalText && r.measureType != Continuous ==> v == Int(MISSING_INT)
  {
    if row < |r.cells| then r.cells[row] else Sentinel(r.measureType)
  }

  /** A column freshly appended to storage with `rows` rows, as the storage creates it. */
  function FreshRecord(name: string, importName: string, id: int, rows: nat): Record {
    Record(name, importName, id, TypeNone, MeasureNone, false, 0, "", "", [], seq(rows, _ => Int(MISSING_INT)))
  }

  /** A column realised to fill a gap: a fresh record with its auto-measure flag set. */
  function GapRecord(name: string, id: int, rows: nat): Record {
    FreshRecord(name, "", id, rows).(autoMeasure := true)
  }

  /** The names of the storage columns. */
  function TakenNames(ds: seq<Record>): set<string> {
    set i | 0 <= i < |ds| :: ds[i].name
  }

  /**
   * `after` extends `before` with gap records: the column at each new
   * position i gets the default name for i among the names before it and the
   * id its wrapper already had (`ids[i]`).
   */
  ghost predicate FilledGap(before: seq<Record>, ids: seq<int>, after: seq<Record>, rows: nat) {
    |before| <= |after| <= |ids| && after[..|before|] == before &&
    forall i :: |before| <= i < |after| ==>
      after[i] == GapRecord(DefaultName(i, TakenNames(after[..i])), ids[i], rows)
  }

  /** A gap record's name differs from the name of every column before it. */
  lemma GapNamesFresh(before: seq<Record>, ids: seq<int>, after: seq<Record>, rows: nat, i: nat)
    requires FilledGap(before, ids, after, rows)
    requires |before| <= i < |after|
    ensures forall j :: 0 <= j < i ==> after[j].name != after[i].name
  {
    DefaultNameFree(i, TakenNames(after[..i]));
    forall j | 0 <= j < i ensures after[j].name != after[i].name {
      assert after[..i][j] == after[j];
      assert after[j].name in TakenNames(after[..i]);
    }
  }

  /**
   * The id counter after scanning the storage columns in order: it starts at
   * 0 and moves to id + 1 whenever a column's id reaches it.
   */
  function IdCeiling(ds: seq<Record>): (r: int)
    ensures r >= 0
    ensures forall i :: 0 <= i < |ds| ==> ds[i].id < r
    ensures r == 0 || exists i :: 0 <= i < |ds| && ds[i].id == r - 1
    decreases |ds|
  {
    if |ds| == 0 then 0
    else
      var m := IdCeiling(ds[..|ds| - 1]);
      assert forall i :: 0 <= i < |ds| - 1 ==> ds[..|ds| - 1][i] == ds[i];
      if ds[|ds| - 1].id >= m then ds[|ds| - 1].id + 1 else m
  }

  /** A storage column after `change`: every field given replaces the stored one. */
  function ApplyChange(r: Record, name: Option<string>, columnType: Option<ColumnType>,
                       measureType: Option<MeasureType>, levels: Option<seq<Level>>, dps: Option<int>,
                       autoMeasure: Option<bool>, formula: Option<string>): Record
  {
    r.(name := name.GetOr(r.name),
       columnType := columnType.GetOr(r.columnType),
       measureType := measureType.GetOr(r.measureType),
       levels := levels.GetOr(r.levels),
       dps := dps.GetOr(r.dps),
       autoMeasure := autoMeasure.GetOr(r.autoMeasure),
       formula := formula.GetOr(r.formula))
  }

  /** A column realised to fill a gap reads, row by row, exactly as the virtual column did. */
  lemma GapRecordReadsMissing(name: string, id: int, rows: nat, row: nat)
    ensures ReadCell(GapRecord(name, id, rows), row) == Int(MISSING_INT)
  {
  }
}
