/**
 * The lazy-proxy side of a column wrapper: what each read accessor returns,
 * from the storage column behind the wrapper or, while the wrapper is
 * virtual, from fixed defaults. Reads never realise a column.
 */
module Proxy {
  import opened Wrappers
  import opened Cells

  /** Everything a column's read accessors report apart from its cells and id. */
  datatype Profile = Profile(
    name: string,
    importName: string,
    columnType: ColumnType,
    measureType: MeasureType,
    autoMeasure: bool,
    dps: int,
    formula: string,
    message: string,
    levels: seq<Level>,
    rowCount: nat)

  /** How a virtual column reads: a fully typed empty column with auto-measure on. */
  const VIRTUAL: Profile := Profile("", "", TypeNone, MeasureNone, true, 0, "", "", [], 0)

  /** The read accessors, given the storage column behind the wrapper, if any. */
  function ProfileOf(child: Option<Record>): Profile {
    match child
    case None => VIRTUAL
    case Some(r) => Profile(r.name, r.importName, r.columnType, r.measureType, r.autoMeasure, r.dps,
                            r.formula, r.message, r.levels, |r.cells|)
  }

  /** has_formula */
  predicate HasFormula(p: Profile) {
    p.formula != ""
  }

  /** level_count */
  function LevelCount(p: Profile): nat {
    |p.levels|
  }

  /** has_levels */
  predicate HasLevels(p: Profile) {
    LevelCount(p) > 0
  }

  /**
   * `column[row]`: a virtual column reads the missing-integer sentinel
   * everywhere; a realised one reads its cell, or past its extent the
   * sentinel of its measure type.
   */
  function CellOf(child: Option<Record>, row: nat): Value {
    match child
    case None => Int(MISSING_INT)
    case Some(r) => ReadCell(r, row)
  }

  /**
   * `column[row] = value` then `column[row]`: the row reads back the value
   * written, and every other row reads as before.
   */
  lemma ReadAfterWrite(r: Record, row: nat, value: Value, other: nat)
    requires row < |r.cells|
    ensures CellOf(Some(r.(cells := r.cells[row := value])), row) == value
    ensures other != row ==> CellOf(Some(r.(cells := r.cells[row := value])), other) == CellOf(Some(r), other)
    ensures ProfileOf(Some(r.(cells := r.cells[row := value]))) == ProfileOf(Some(r))
  {
  }

  /**
   * `append(value)`: the row count grows by one, the new last row reads the
   * value, and every earlier row reads as before.
   */
  lemma ReadAfterAppend(r: Record, value: Value, other: nat)
    ensures var r' := r.(cells := r.cells + [value]);
      ProfileOf(Some(r')).rowCount == ProfileOf(Some(r)).rowCount + 1 &&
      CellOf(Some(r'), |r.cells|) == value &&
      (other < |r.cells| ==> CellOf(Some(r'), other) == CellOf(Some(r), other))
  {
  }

  /**
   * `change(...)` then the read accessors: every field given reads back as
   * given, every field not given reads as before, and the cells are untouched.
   */
  lemma ReadAfterChange(r: Record, name: Option<string>, columnType: Option<ColumnType>,
                        measureType: Option<MeasureType>, levels: Option<seq<Level>>, dps: Option<int>,
                        autoMeasure: Option<bool>, formula: Option<string>)
    ensures var p, q := ProfileOf(Some(ApplyChange(r, name, columnType, measureType, levels, dps, autoMeasure, formula))),
                        ProfileOf(Some(r));
      p.name == name.GetOr(q.name) && p.columnType == columnType.GetOr(q.columnType) &&
      p.measureType == measureType.GetOr(q.measureType) && p.levels == levels.GetOr(q.levels) &&
      p.dps == dps.GetOr(q.dps) && p.autoMeasure == autoMeasure.GetOr(q.autoMeasure) &&
      p.formula == formula.GetOr(q.formula) &&
      p.importName == q.importName && p.message == q.message && p.rowCount == q.rowCount
    ensures ApplyChange(r, name, columnType, measureType, levels, dps, autoMeasure, formula).cells == r.cells
  {
  }

  /**
   * A column realised to fill a gap reads exactly as it did while virtual,
   * except for its new name and its row count: no formula, no levels, no
   * decimal places, auto-measure on, and the missing-integer sentinel in
   * every row.
   */
  lemma GapReadsAsVirtual(name: string, id: int, rows: nat, row: nat)
    ensures ProfileOf(Some(GapRecord(name, id, rows))) == VIRTUAL.(name := name, rowCount := rows)
    ensures CellOf(Some(GapRecord(name, id, rows)), row) == CellOf(None, row)
    ensures !HasFormula(ProfileOf(Some(GapRecord(name, id, rows)))) && !HasLevels(ProfileOf(Some(GapRecord(name, id, rows))))
  {
  }
}
