# jamovi instance model in Dafny

This project models the server-side column model of jamovi. The model lives in
`server/jamovi/server/instancemodel.py` and has two classes.

**InstanceModel** keeps two things:
- an ordered list of column wrappers;
- an id counter, which hands out ids and never hands out the same one twice.

Its jobs are:
- to keep a pad of `N_VIRTUAL_COLS` virtual (unrealised) wrappers after the realised ones;
- to insert and delete columns and renumber every wrapper's `index`;
- to invent default spreadsheet names (`A` … `Z`, `AA`, …, with ` (k)` when the name is taken);
- to realise a virtual column lazily, together with every virtual column before it.

**Column** wraps a storage column that may not exist yet. It has two sides:
- Proxy side: a virtual column reads as fixed defaults, and every mutator realises it first.
- Formula side: `change` reparses the formula only when its text changes.

`_parse_formula` works in this order:
1. It withdraws the column's name from its old dependencies' subscriber sets.
2. It runs the external compilation stages.
3. It rejects a formula that names the column itself.
4. It installs the new column-level and row-level dependencies and subscribes to each one.
5. It records a status and message.
6. It always ends with `recalc`, which evaluates each row on its own.

Modules, one file each:

| file | module | contents |
|---|---|---|
| `wrappers.dfy` | `Wrappers` | `Option` and `Result` |
| `naming.dfy` | `Naming` | bijective base-26 letters, decimal suffixes, the default-name search |
| `cells.dfy` | `Cells` | cell values, measure types, the storage record behind a realised column, the id scan of `refresh` |
| `formula.dfy` | `Formula` | the compilation pipeline's outcome, failure messages, row recalculation |
| `columns.dfy` | `Columns` | the wrapper value and the dependency and subscriber graph; the result of reparsing, and the proof that reparsing keeps the two directions of the graph in step |
| `proxy.dfy` | `Proxy` | what the read accessors return for a virtual and for a realised column |
| `instance.dfy` | `Instance` | the class `InstanceModel`, its invariant, and the lemmas about insertion, deletion, padding, realisation and parsing |

**How the state is represented.** `InstanceModel` holds:
- `hasDataset`, whether storage has been attached (the source's `_dataset is not None`);
- `dataset`, the storage columns in order;
- `columns`, the wrappers as datatype values;
- `rowCount`;
- `nextId`.

The invariant `Valid()` says:
- storage is attached;
- the wrapper at each position carries that position as its index;
- exactly the first `|dataset|` wrappers are realised, and wrapper `i` is backed by `dataset[i]`;
- every id a wrapper reads as is below `nextId`;
- no virtual wrapper has had a formula parsed.

`DistinctIds()` says that no two wrappers read as the same id. Every operation that keeps `Valid()` also keeps `DistinctIds()`.

A `Column` method becomes an `InstanceModel` method that takes the column's position.

Dependencies are kept by column name, as in the source:
- a dependency name resolves to the first wrapper that reads as that name;
- a name that resolves nowhere raises `KeyError`.

**What stands in for the external code:**
- The compilation stages are one value of type `Formula.Pipeline`. It records either the exception raised before extraction, or the extracted dependency sets, the checker's failure if any, and the lowered row tree.
- The row evaluator is a parameter `eval: (RowTree, nat) -> Option<Value>`. `None` means that row's evaluation, or its conversion to a number, raised.
- Storage's `determine_dps` is a parameter `dpsOf`.
- NaN is the `Missing` value.

**Behaviour of the code worth noting:**
- `delete_columns` does not sever the deleted columns' dependency edges, so a survivor can be left depending on a name no column carries (`DeletedUnlinks`). It does not re-pad either.
- Padding, realisation and insertion keep the names unique and every dependency mirrored by a subscription (`PaddedLinked`, `RealisedLinked`, `InsertedLinked`).
- Renaming does not keep the graph mirrored. The name setter (lines 292-296) touches no edge, so a column's dependents and the columns it subscribed to still hold its old name (`RenamedUnlinks`).
- `change` with both a new name and a new formula renames first (line 460) and only then reparses. The unsubscribe loop at line 501 (and line 505 for rows) discards the NEW name, so the old name stays in every old dependency's subscriber set. The model reproduces this: `Change` stores the renamed record before `ParseFormula` reads the names.
- `insert_column` does not re-pad.
- A formula that names its own column is the only cycle rejected.
- Nothing propagates a recalculation to subscribers: the subscriber sets are recorded and never read.
- `recalc` without a row tree writes NaN whatever the measure type.
- An empty formula still goes through every stage, and its status is EMPTY.
- `refresh` restarts the counter from the ids in storage. An id last held by a column that has since been deleted can therefore be handed out again.
- A column whose formula was never parsed has no `_row_formula_tree` attribute, so `recalc` on it raises `AttributeError` before writing anything. The model's `Recalc` returns `false` there and changes nothing.
- `Unsubscribe` and `Subscribe` model a `KeyError` from `dataset[dep]` part way through a loop. It leaves the subscriber sets handled so far changed. The catch-all handler then marks the column ERROR with the message `Unexpected error (, KeyError)`.

## Model

| member | source | states |
|---|---|---|
| Naming.LettersRoundTrip | server/jamovi/server/instancemodel.py:187-195 | the letters built for a position are a non-empty string of A–Z that decodes back to that position |
| Naming.LettersOnto | server/jamovi/server/instancemodel.py:187-195 | every non-empty A–Z string is the letter name of exactly the position it decodes to, so the encoding is bijective |
| Naming.LettersInjective | server/jamovi/server/instancemodel.py:187-195 | distinct positions get distinct letter names |
| Naming.LettersExamples | server/jamovi/server/instancemodel.py:187-195 | 0 → A, 25 → Z, 26 → AA, 27 → AB, 701 → ZZ, 702 → AAA |
| Naming.NatStrRoundTrip | server/jamovi/server/instancemodel.py:206 | the decimal suffix is a digit string that reads back as its number |
| Naming.CandidateInjective | server/jamovi/server/instancemodel.py:197-207 | distinct suffix counters give distinct candidate names |
| Naming.FreeIndexLeast | server/jamovi/server/instancemodel.py:197-207 | the search stops at a free candidate, and every candidate before it is taken |
| Naming.FreeIndexUnique | server/jamovi/server/instancemodel.py:197-207 | the free candidate with every earlier one taken is unique |
| Naming.DefaultNameFree | server/jamovi/server/instancemodel.py:186-208 | the default name matches no storage column's name: it is the bare letters when those are free, otherwise the letters with the smallest free suffix ` (k)`, k ≥ 2 |
| Naming.DefaultNameExamples | server/jamovi/server/instancemodel.py:186-208 | position 0 among no names gives A; position 26 gives AA (2) when AA is taken, and AA (3) when AA (2) is taken too |
| Cells.ReadCell | server/jamovi/server/instancemodel.py:247-256 | reading a realised column below its row count gives that row's cell; past it, '' when the measure type is NOMINAL_TEXT, NaN when it is CONTINUOUS, and -2147483648 for any other measure type |
| Cells.GapNamesFresh | server/jamovi/server/instancemodel.py:212-214 | every column realised to fill a gap is named unlike every storage column before it |
| Cells.IdCeiling | server/jamovi/server/instancemodel.py:121-131 | the counter after the scan is above every storage id, and it is 0 or one more than some storage id |
| Cells.GapRecordReadsMissing | server/jamovi/server/instancemodel.py:247-257 | a consequence of the assumed fresh-column defaults of storage (see Left out): a column realised to fill a gap reads -2147483648 in every row, the same as `__getitem__` gave while it was virtual |
| Formula.RecalculatedRows | server/jamovi/server/instancemodel.py:478-490 | a row outside the range keeps its value; a row inside it is missing without a row tree or when its own evaluation fails, and otherwise holds its own evaluated value |
| Formula.RecalculatedEmpty | server/jamovi/server/instancemodel.py:479-490 | an empty range writes nothing |
| Formula.RecalculatedStep | server/jamovi/server/instancemodel.py:483-490 | writing the next row's value extends the recalculated range by exactly that row |
| Formula.RecalculatedIdempotent | server/jamovi/server/instancemodel.py:472-490 | recalculating a range twice gives what recalculating it once gives |
| Columns.IndexOf | server/jamovi/server/instancemodel.py:38-43 | the name lookup returns the first wrapper carrying the name |
| Columns.TargetsStep | server/jamovi/server/instancemodel.py:540-546 | one more resolved dependency adds exactly its own column to the columns rewired |
| Columns.SubsOnlyDifferTrans | server/jamovi/server/instancemodel.py:499-505 | two steps that each change only subscriber sets together change only subscriber sets |
| Columns.RewiredAt | server/jamovi/server/instancemodel.py:499-505 | rewiring one grain changes only that grain's subscriber sets, and only at the target columns |
| Columns.RewiredSubsOnly | server/jamovi/server/instancemodel.py:499-505 | a subscription loop changes nothing but subscriber sets |
| Columns.MarkedSubsOnly | server/jamovi/server/instancemodel.py:554-568 | setting the status keeps two wrapper lists apart in subscriber sets only |
| Columns.UnlinkedShape | server/jamovi/server/instancemodel.py:499-508 | withdrawal: each old dependency loses the column's name at its grain, and the column's own dependency sets are emptied |
| Columns.LinkingShape | server/jamovi/server/instancemodel.py:537-546 | installation: the column's dependency sets become the extracted ones, and each dependency gains the column's name at its grain |
| Columns.UnlinkedKeepsLinked | server/jamovi/server/instancemodel.py:499-508 | withdrawal keeps each dependency mirrored by a subscription, and the reverse, at both grains |
| Columns.LinkingKeepsLinked | server/jamovi/server/instancemodel.py:537-546 | installing dependencies that all resolve keeps dependencies and subscriptions mirrored at both grains |
| Columns.UnlinkGrain | server/jamovi/server/instancemodel.py:499-508 | any list shaped like a withdrawal at a grain is mirrored at that grain |
| Columns.LinkGrain | server/jamovi/server/instancemodel.py:537-546 | any list shaped like an installation at a grain is mirrored at that grain |
| Columns.ClearedSubsOnly | server/jamovi/server/instancemodel.py:499-511 | clearing changes only subscriber sets, apart from the column's own dependency sets and row tree |
| Columns.ClearedLinked | server/jamovi/server/instancemodel.py:499-511 | after clearing, the graph is still mirrored and the column has no dependencies |
| Columns.ReparsedKeepsLinked | server/jamovi/server/instancemodel.py:493-552 | when names are unique and every extracted name resolves, reparsing leaves no dangling or one-sided edge at either grain |
| Columns.SameEdgesLinked | server/jamovi/server/instancemodel.py:499-546 | whether the graph is mirrored depends only on the dependency and subscriber sets |
| Columns.RejectedLeavesNoDeps | server/jamovi/server/instancemodel.py:514-534 | a stage raising before extraction, a self-reference or a checker failure leaves no dependencies, no row tree, status ERROR, and the message of the cause |
| Columns.InstalledDeps | server/jamovi/server/instancemodel.py:537-552 | after the checks pass, the column depends on exactly the extracted names; it has a row tree exactly when lowering succeeded; its status is ERROR when lowering failed, else EMPTY or OK by the parsed body |
| Proxy.GapReadsAsVirtual | server/jamovi/server/instancemodel.py:259-420 | a consequence of the same assumed defaults: a column realised to fill a gap reads the virtual defaults in every accessor except its name and row count, and has no formula and no levels |
| Proxy.ReadAfterWrite | server/jamovi/server/instancemodel.py:242-257 | after `column[row] = value` inside the column, that row reads the value, every other row reads as before, and no other accessor changes |
| Proxy.ReadAfterAppend | server/jamovi/server/instancemodel.py:372-375 | after `append(value)` the row count is one higher, the new last row reads the value, and every earlier row reads as before |
| Proxy.ReadAfterChange | server/jamovi/server/instancemodel.py:460-467 | after storage's `change`, before any reparse, each field that was given reads back as given, each field not given reads as before, and import name, message, row count and cells are untouched (a reparse then rewrites the message and cells, as `ParseFormula` states) |
| Instance.PaddedWellFormed | server/jamovi/server/instancemodel.py:135-144 | padding keeps the invariant and distinct ids, leaves at least N_VIRTUAL_COLS virtual columns, and exactly that many when there were no more before |
| Instance.RealiseStep | server/jamovi/server/instancemodel.py:212-218 | realising the next virtual column keeps the invariant and every id read, and extends the filled gap |
| Instance.FlagStep | server/jamovi/server/instancemodel.py:217 | realising the next wrapper extends the realised prefix by one |
| Instance.RealiseStepIds | server/jamovi/server/instancemodel.py:215-217 | the new storage column takes the wrapper's id, so the ids read do not change |
| Instance.GapStep | server/jamovi/server/instancemodel.py:213-216 | a gap column with the next default name and its wrapper's id extends the filled gap |
| Instance.DeletedAt | server/jamovi/server/instancemodel.py:86-92 | after deletion, a position before `start` holds its old wrapper, and a later one holds the survivor from `end - start + 1` places to the right, renumbered; storage likewise |
| Instance.DeletedIds | server/jamovi/server/instancemodel.py:86-89 | deletion keeps the survivors' ids in order |
| Instance.CutIds | server/jamovi/server/instancemodel.py:89 | cutting a run out of distinct ids below the counter leaves distinct ids below the counter |
| Instance.DeletedShape | server/jamovi/server/instancemodel.py:86-92 | after deletion every index equals its position, and the realised wrappers are still exactly those over storage |
| Instance.DeletedWellFormed | server/jamovi/server/instancemodel.py:86-92 | deletion keeps the invariant, keeps the survivors' ids in order, and keeps ids distinct |
| Instance.InsertedAt | server/jamovi/server/instancemodel.py:70-84 | after insertion, positions before `index` hold their old wrappers, `index` holds the new realised column, and each later position holds the wrapper one place to its left; all are renumbered |
| Instance.InsertedIds | server/jamovi/server/instancemodel.py:72-79 | insertion reads the old ids with the counter's id spliced in at `index` |
| Instance.InsertedShape | server/jamovi/server/instancemodel.py:77-84 | after insertion every index equals its position, and the realised wrappers are still exactly those over storage |
| Instance.SplicedIds | server/jamovi/server/instancemodel.py:74-75 | splicing the counter's id into ids all below it keeps them distinct and below the raised counter |
| Instance.InsertedWellFormed | server/jamovi/server/instancemodel.py:70-84 | insertion keeps the invariant with the counter one higher, puts the new id in place, and keeps ids distinct |
| Instance.PaddedLinked | server/jamovi/server/instancemodel.py:135-144 | padding keeps names unique and every dependency mirrored by a subscription and the reverse, at both grains |
| Instance.FlaggedLinked | server/jamovi/server/instancemodel.py:210-218 | filling the gap with default-named columns keeps names unique and the graph mirrored at both grains, since the wrappers filled were virtual and had no edges |
| Instance.RealisedLinked | server/jamovi/server/instancemodel.py:210-219 | realising keeps names unique and the graph mirrored at both grains: each gap column's default name differs from every earlier name |
| Instance.InsertedNames | server/jamovi/server/instancemodel.py:70-84 | after insertion the names read are the old ones shifted right from `index` plus the new column's name, which no column carried, so names stay unique |
| Instance.InsertedLinked | server/jamovi/server/instancemodel.py:70-84 | insertion keeps names unique and the graph mirrored at both grains |
| Instance.DeletedUnlinks | server/jamovi/server/instancemodel.py:86-92 | deletion does not keep the graph mirrored: when a surviving column depends on a deleted storage column, the survivor is left depending on a name no column carries |
| Instance.RenamedUnlinks | server/jamovi/server/instancemodel.py:292-296 | renaming a storage column touches no edge, so when the column has a dependency or a subscriber the graph is no longer mirrored: the other end of that edge holds the old name, which no column carries |
| Instance.RefreshedWellFormed | server/jamovi/server/instancemodel.py:120-131 | one realised wrapper per storage column, with the counter past every storage id, satisfies the invariant; distinct storage ids give distinct ids |
| Instance.WrapStep | server/jamovi/server/instancemodel.py:124-131 | one more pass of refresh's loop adds one wrapper and moves the counter past one more storage id |
| Instance.IdsKept | server/jamovi/server/instancemodel.py:245 | writing a storage column without changing its id keeps every id read and the invariant |
| Instance.NamesKept | server/jamovi/server/instancemodel.py:516 | writing a storage column without changing its name keeps every name read |
| Instance.ShapeKept | server/jamovi/server/instancemodel.py:499-511 | changing only formula state and edges keeps the names and ids read, and the invariant |
| Instance.ReplacedAt | server/jamovi/server/instancemodel.py:555-568 | changing a realised wrapper's formula state keeps the names and ids read, and the invariant |
| Instance.RewiredShape | server/jamovi/server/instancemodel.py:499-505 | a subscription loop changes no wrapper's flag, id, index or status |
| Instance.RecalcRecord | server/jamovi/server/instancemodel.py:472-491 | recalculation changes only the cells and, when there is a row tree, the decimal places, which are determined from the new cells |
| Instance.RewireAll | server/jamovi/server/instancemodel.py:499-505 | a subscription loop over a set, in any order: it finishes exactly when every name resolves, and then every dependency is rewired; otherwise it stops at a `KeyError` with some names handled |
| Instance.ParsedKeepsLinked | server/jamovi/server/instancemodel.py:493-571 | with unique names and extracted names that all resolve, parsing raises no `KeyError`, the wrappers are exactly `Reparsed`, and the graph stays mirrored at both grains |
| Instance.ParsedSucceeds | server/jamovi/server/instancemodel.py:514-552 | a formula that passes every stage depends on exactly the extracted names, has status EMPTY or OK and an empty message, and every row holds its own evaluated value or missing; decimal places are taken from the new cells |
| Instance.ParsedRejects | server/jamovi/server/instancemodel.py:514-568 | a formula rejected before its dependencies are installed leaves no dependencies, no row tree, status ERROR, the message of the cause, every row missing and the decimal places kept |
| Instance.ParsedStale | server/jamovi/server/instancemodel.py:499-505 | a dependency renamed or deleted since it was installed raises `KeyError` while unsubscribing: the column keeps its old dependencies and row tree, is marked ERROR with `Unexpected error (, KeyError)`, and no other column's dependencies or status change |
| Instance.UnknownVarsShape | server/jamovi/server/instancemodel.py:537-546 | a `KeyError` while subscribing leaves, up to subscriber sets, the new dependencies installed, the row tree dropped and the column marked ERROR |
| Instance.InstanceModel.constructor | server/jamovi/server/instancemodel.py:24-31 | a new model has no storage attached (`_dataset` is None), no columns and no rows, and its counter is 0 |
| Instance.InstanceModel.SetDataset | server/jamovi/server/instancemodel.py:114-116 | the dataset setter attaches the given storage and row count and changes nothing else |
| Instance.InstanceModel.ColumnAt | server/jamovi/server/instancemodel.py:33-36 | integer lookup is Python list indexing: it succeeds exactly for -len ≤ i < len, and negative indexes count from the end |
| Instance.InstanceModel.ColumnByName | server/jamovi/server/instancemodel.py:37-43 | name lookup finds the first wrapper reading as the name; it fails exactly when no wrapper does |
| Instance.InstanceModel.ColumnById | server/jamovi/server/instancemodel.py:48-53 | id lookup finds the first wrapper reading as the id; it fails exactly when no wrapper does |
| Instance.InstanceModel.AppendColumn | server/jamovi/server/instancemodel.py:55-59 | storage gains a fresh column carrying the counter's id, and the counter goes up by exactly one |
| Instance.InstanceModel.AddVirtualColumns | server/jamovi/server/instancemodel.py:135-144 | virtual wrappers with consecutive fresh ids, each at its own position, are appended until N_VIRTUAL_COLS follow the realised ones; the invariant and distinct ids are kept |
| Instance.InstanceModel.GenColumnName | server/jamovi/server/instancemodel.py:186-208 | the name built is the default name for the position among the storage columns' names |
| Instance.InstanceModel.RealiseColumn | server/jamovi/server/instancemodel.py:210-219 | every column from the first virtual one up to `pos` is realised, with a default name, auto-measure on and the id its wrapper already had; the padding is restored; the invariant and distinct ids are kept |
| Instance.InstanceModel.WrapStorage | server/jamovi/server/instancemodel.py:118-131 | refresh's loop gives one fresh realised wrapper per storage column and leaves the counter past every storage id |
| Instance.InstanceModel.Refresh | server/jamovi/server/instancemodel.py:118-133 | refresh leaves exactly N_VIRTUAL_COLS virtual columns after storage, with the counter past every id read and the invariant holding; distinct storage ids give distinct ids |
| Instance.InstanceModel.InsertColumn | server/jamovi/server/instancemodel.py:70-84 | a realised column with the default name, auto-measure on and the counter's id goes in at `index`; the counter goes up by one; the others keep their order and are renumbered; the invariant and distinct ids are kept |
| Instance.InstanceModel.DeleteColumns | server/jamovi/server/instancemodel.py:86-92 | exactly positions start..end go, with their storage; the rest keep their order and ids and are renumbered from `start`; the invariant and distinct ids are kept |
| Instance.InstanceModel.Child | server/jamovi/server/instancemodel.py:259-261 | a column has a storage column exactly when it is realised, which is exactly when its position is below the storage length; that storage column is the one at its own position |
| Instance.InstanceModel.ProfileAt | server/jamovi/server/instancemodel.py:263-420 | the accessors of a virtual column read the fixed defaults (name '', formula '', no levels, row count 0); those of a realised column read its storage column's name, formula, levels and row count |
| Instance.InstanceModel.Get | server/jamovi/server/instancemodel.py:247-257 | `column[row]` on a virtual column gives -2147483648; on a realised one it gives the cell below the row count, and past it the measure type's value: '' for NOMINAL_TEXT, NaN for CONTINUOUS, -2147483648 otherwise |
| Instance.InstanceModel.Realise | server/jamovi/server/instancemodel.py:238-240 | realising an already realised column changes nothing; otherwise it realises as `RealiseColumn` does |
| Instance.InstanceModel.Store | server/jamovi/server/instancemodel.py:245 | writing a storage column that keeps its id keeps the invariant and every id read |
| Instance.InstanceModel.SetName | server/jamovi/server/instancemodel.py:292-296 | realises first, then renames only that storage column, and the name reads back; the invariant and distinct ids are kept |
| Instance.InstanceModel.SetColumnType | server/jamovi/server/instancemodel.py:310-314 | realises first, then sets the column type, which reads back |
| Instance.InstanceModel.SetMeasureType | server/jamovi/server/instancemodel.py:322-326 | realises first, then sets the measure type, which reads back |
| Instance.InstanceModel.SetAutoMeasure | server/jamovi/server/instancemodel.py:334-338 | realises first, then sets auto-measure, which reads back |
| Instance.InstanceModel.SetDps | server/jamovi/server/instancemodel.py:346-350 | realises first, then sets the decimal places, which read back |
| Instance.InstanceModel.SetCell | server/jamovi/server/instancemodel.py:242-245 | realises first, then writes exactly one cell, and `column[row]` reads the value back |
| Instance.InstanceModel.Append | server/jamovi/server/instancemodel.py:372-375 | realises first, then adds one cell at the end: the row count is one higher and the new last row reads the value |
| Instance.InstanceModel.InsertLevel | server/jamovi/server/instancemodel.py:377-380 | realises first, then adds the level: the column has levels and one more of them |
| Instance.InstanceModel.ClearLevels | server/jamovi/server/instancemodel.py:388-391 | realises first, then empties the level table: the column has no levels |
| Instance.InstanceModel.Cells | server/jamovi/server/instancemodel.py:433-436 | iterating realises first, then yields the storage column's cells |
| Instance.InstanceModel.Rewire | server/jamovi/server/instancemodel.py:499-505 | one subscription loop on the model keeps names, ids and the invariant; it succeeds exactly when every name resolves |
| Instance.InstanceModel.Recalc | server/jamovi/server/instancemodel.py:472-491 | rows [start, end) are recalculated (by default every row), and the decimal places are redetermined only when there is a row tree; a column never parsed is left unchanged; names, ids and the invariant are kept |
| Instance.InstanceModel.Unsubscribe | server/jamovi/server/instancemodel.py:498-511 | it succeeds exactly when every old dependency still resolves, and then the column is cleared; otherwise only subscriber sets change |
| Instance.InstanceModel.Subscribe | server/jamovi/server/instancemodel.py:536-546 | it succeeds exactly when every extracted name resolves, and then the dependencies are linked both ways; otherwise only the new dependency sets and some subscriber sets change |
| Instance.InstanceModel.Reinstall | server/jamovi/server/instancemodel.py:513-568 | the status is always set afterwards; without a `KeyError` the wrappers are `Reinstalled` with the cause's message, and with one the message is the `KeyError` one |
| Instance.InstanceModel.Resubscribe | server/jamovi/server/instancemodel.py:493-568 | the wrapper side of parsing leaves the wrappers as `ParsedWrappers` says and the message `ParseMessage` gives, and the status set |
| Instance.InstanceModel.ParseFormula | server/jamovi/server/instancemodel.py:493-571 | parsing leaves storage and wrappers as `Parsed` says: edges rewired, message stored, every row recalculated; names, ids and the invariant are kept |
| Instance.InstanceModel.Change | server/jamovi/server/instancemodel.py:443-470 | realises first and applies every field given; it reparses exactly when a formula is given that differs from the stored one, so the same text leaves the dependency state untouched; the invariant and distinct ids are kept |

## Left out

- The storage engine is not part of this model, and a storage column is a plain record. This leaves out:
  - how storage orders and looks up levels (`insert_level` appends, `has_level` and `get_value_for_label` are not modelled);
  - `clear_at`, `raw` and `changes`;
  - storage's own `change` beyond replacing the fields given;
  - `determine_dps`, which is a parameter;
  - `set_row_count`, `insert_rows`, `delete_rows`, `virtual_row_count`, `is_edited` and `is_blank`.
- The compilation stages (`Parser`, `Transmogrifier`, `Exfiltrator`, `Checker`, `Reticulator`, `Evaluator`) are not part of this model. Their outcome and the evaluator are parameters.
  - The evaluator reads the other columns through the model; here it is a fixed function.
  - The column-level tree `_column_formula_tree` is never read, so it is not kept.
- Floating point is left out: `float(value)` and NaN. A failed conversion is a failed row (`None`), and NaN is `Missing`.
- `Analyses`, `title` and `path` are plumbing with no behaviour.
- Without storage attached (`_dataset` is None, as the constructor leaves it), `refresh`, `append_column`, `insert_column`, `_gen_column_name` and `column_count` raise. The model does not return that exception. Instead each of these operations requires `hasDataset`, directly or through `Valid()`, and `has_dataset` is that field.
- Cells.FreshRecord: storage's `append_column` and `insert_column` are not part of this model. The model assumes a new storage column has no column type, no measure type, auto-measure off, 0 decimal places, an empty formula and message, no levels, and `row_count` cells that all read -2147483648.
- Cells.GapRecord: is `FreshRecord` with auto-measure on, so it rests on the same assumption.
- Cells.GapRecordReadsMissing: follows from the assumed defaults of `FreshRecord`, not from code in this model.
- Proxy.GapReadsAsVirtual: follows from the same assumed defaults.
- Instance.DeletedStorage: clamps the range to the storage columns, so only storage columns under deleted wrappers go. What storage's `delete_columns` does with a range that reaches into the virtual columns is not part of this model.
- Instance.InstanceModel.InsertColumn: requires `index` to lie within the storage columns. Python's `list.insert` also accepts an index inside the virtual columns or past the end, but what storage's `insert_column` does with such an index is not part of this model.
- Instance.InstanceModel.DeleteColumns: requires `start <= end < |columns|`. Python's slice deletion also accepts an `end` past the list, which it clamps, and `start > end`, which deletes nothing; what storage's `delete_columns` does with such a range is not part of this model.
- Instance.InstanceModel.DeleteColumns: leaves the deleted columns' names in the survivors' dependency and subscriber sets, as the source does. `Instance.DeletedUnlinks` shows the graph is then no longer mirrored.
- The client's `editorwidget.js` is a user-interface view and is not part of this model.
- Wrappers are values, not shared objects, so a caller holding a `Column` across a structural edit is not modelled. Each column operation takes the wrapper's current position.
- Exceptions are results: `None` from a lookup, `false` from `Recalc`, and the `Pipeline` and message values in parsing. Python's `IndexError` for an out-of-range position is a precondition.
- Instance.InstanceModel.GenColumnName: divides by 26 in exact integers. The source divides in floating point and truncates; the two agree for every index below 2**53.
- Instance.RewireAll: iterates the dependency set in an unspecified order, chosen nondeterministically. After a `KeyError`, the model states only that some resolving names were handled, not which ones.
- Instance.InstanceModel.Unsubscribe: after a `KeyError` it states only that nothing but subscriber sets changed, not which ones.
- Instance.InstanceModel.Subscribe: after a `KeyError` it states only that nothing but the new dependency sets and some subscriber sets changed.
- Instance.InstanceModel.SetCell: requires the row to lie within the storage column. What storage does with a write past its end is not part of this model.
- Instance.InstanceModel.Recalc: requires an explicit `end` to lie within the column's cells, for the same reason.
- Instance.InstanceModel.AppendColumn: makes no wrapper and does not keep `Valid()`, as in the source, where the caller refreshes afterwards.
- Negative row indexes on `column[row]` are not modelled (rows are `nat`).
