/**
 * The formula pipeline as the column sees it. Parsing, name substitution,
 * dependency extraction, checking and row lowering are external stages; what
 * the column consumes is their outcome, a `Pipeline` value, and the row
 * evaluator, a function from a lowered tree and a row to a value or a failure.
 */
module Formula {
  import opened Wrappers
  import opened Cells

  /** A row-lowered expression tree; its structure is private to the pipeline. */
  datatype RowTree = RowTree(code: string)

  /** The exceptions the stages can raise, as the column tells them apart. */
  datatype Failure =
    | Recursion                        // RecursionError
    | Syntax                           // SyntaxError
    | NameFailure(text: string)        // NameError
    | TypeFailure(text: string)        // TypeError
    | Unexpected(text: string, typeName: string)  // any other exception

  /**
   * What the external stages produce for the column's current formula.
   * `Aborted`: parsing, name substitution or dependency extraction raised.
   * `Extracted`: those succeeded, giving whether the parsed body is empty and
   * the column-level and row-level dependency names; `check` is the checker's
   * failure if it raised, `lowered` the row-lowering stage's result.
   */
  datatype Pipeline =
    | Aborted(failure: Failure)
    | Extracted(isEmpty: bool, colVars: set<string>, rowVars: set<string>,
                check: Option<Failure>, lowered: Result<RowTree, Failure>)

  /** The failure raised when a dependency name matches no column. */
  const KEY_ERROR: Failure := Unexpected("", "KeyError")

  const CIRCULAR_MESSAGE: string := "Circular reference detected"
  const SYNTAX_MESSAGE: string := "The formula is mis-specified"

  /** The message a failure leaves on the column. */
  function Message(f: Failure): string {
    match f
    case Recursion => CIRCULAR_MESSAGE
    case Syntax => SYNTAX_MESSAGE
    case NameFailure(text) => text
    case TypeFailure(text) => text
    case Unexpected(text, typeName) => "Unexpected error (" + text + ", " + typeName + ")"
  }

  /** The value a row evaluation stores: the evaluated value, or missing when it failed. */
  function RowValue(tree: Option<RowTree>, eval: (RowTree, nat) -> Option<Value>, row: nat): Value {
    match tree
    case None => Missing
    case Some(t) => eval(t, row).GetOr(Missing)
  }

  /**
   * The cells after recalculating rows [start, end): each row in range holds
   * its own row's value, every other row keeps its old value.
   */
  function Recalculated(cells: seq<Value>, tree: Option<RowTree>, eval: (RowTree, nat) -> Option<Value>,
                        start: nat, end: nat): (r: seq<Value>)
    ensures |r| == |cells|
  {
    seq(|cells|, row requires 0 <= row < |cells| =>
      if start <= row < end then RowValue(tree, eval, row) else cells[row])
  }

  /**
   * Rows are independent: a row's recalculated value depends only on the
   * evaluator's answer for that row; without a row tree it is missing, and a
   * failing row is missing.
   */
  lemma RecalculatedRows(cells: seq<Value>, tree: Option<RowTree>, eval: (RowTree, nat) -> Option<Value>,
                         start: nat, end: nat, row: nat)
    requires row < |cells|
    ensures row < start || row >= end ==> Recalculated(cells, tree, eval, start, end)[row] == cells[row]
    ensures start <= row < end && tree.None? ==> Recalculated(cells, tree, eval, start, end)[row] == Missing
    ensures start <= row < end && tree.Some? && eval(tree.value, row).None? ==>
      Recalculated(cells, tree, eval, start, end)[row] == Missing
    ensures start <= row < end && tree.Some? && eval(tree.value, row).Some? ==>
      Recalculated(cells, tree, eval, start, end)[row] == eval(tree.value, row).value
  {
  }

  /** An empty range leaves every cell as it was. */
  lemma RecalculatedEmpty(cells: seq<Value>, tree: Option<RowTree>, eval: (RowTree, nat) -> Option<Value>,
                          start: nat, end: nat)
    requires end <= start
    ensures Recalculated(cells, tree, eval, start, end) == cells
  {
    assert forall row :: 0 <= row < |cells| ==> Recalculated(cells, tree, eval, start, end)[row] == cells[row];
  }

  /** Writing one more row's value extends the recalculated range by that row. */
  lemma RecalculatedStep(cells: seq<Value>, tree: Option<RowTree>, eval: (RowTree, nat) -> Option<Value>,
                         start: nat, row: nat)
    requires start <= row < |cells|
    ensures Recalculated(cells, tree, eval, start, row)[row := RowValue(tree, eval, row)]
         == Recalculated(cells, tree, eval, start, row + 1)
  {
    var a := Recalculated(cells, tree, eval, start, row)[row := RowValue(tree, eval, row)];
    assert forall k :: 0 <= k < |cells| ==> a[k] == Recalculated(cells, tree, eval, start, row + 1)[k];
  }

  /** Recalculating the same range twice gives what recalculating once gives. */
  lemma RecalculatedIdempotent(cells: seq<Value>, tree: Option<RowTree>, eval: (RowTree, nat) -> Option<Value>,
                               start: nat, end: nat)
    ensures Recalculated(Recalculated(cells, tree, eval, start, end), tree, eval, start, end)
         == Recalculated(cells, tree, eval, start, end)
  {
  }
}
