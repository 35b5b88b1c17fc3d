/**
 * The instance model: the ordered list of column wrappers, the id counter,
 * and the storage columns that back the realised wrappers. Wrappers at
 * positions [0, |dataset|) are realised and backed by the storage column at
 * the same position; the rest are virtual padding.
 */
module Instance {
  import opened Wrappers
  import opened Naming
  import opened Cells
  import opened Formula
  import opened Columns
  import opened Proxy

  /** How many virtual columns padding keeps after the realised ones. */
  const N_VIRTUAL_COLS: nat := 5

  /** How many virtual wrappers padding appends to `len` wrappers of which `count` are realised. */
  function PadCount(len: nat, count: nat): nat {
    var nVirtual := len - count;
    if nVirtual < N_VIRTUAL_COLS then N_VIRTUAL_COLS - nVirtual else 0
  }

  /** `ws` with the padding appended: fresh virtual wrappers, consecutive ids from `nextId`. */
  function Padded(ws: seq<Wrapper>, count: nat, nextId: int): (r: seq<Wrapper>)
    ensures |r| == |ws| + PadCount(|ws|, count)
  {
    ws + seq(PadCount(|ws|, count), j => NewWrapper(false, nextId + j, |ws| + j))
  }

  /** `ws` with every wrapper before `count` marked realised. */
  function Flagged(ws: seq<Wrapper>, count: nat): (r: seq<Wrapper>)
    ensures |r| == |ws|
  {
    seq(|ws|, i requires 0 <= i < |ws| => ws[i].(realised := ws[i].realised || i < count))
  }

  /** The name each wrapper reads as: its storage column's name, or "" while virtual. */
  function NamesOf(ds: seq<Record>, ws: seq<Wrapper>): (r: seq<string>)
    ensures |r| == |ws|
  {
    seq(|ws|, i requires 0 <= i < |ws| => if ws[i].realised && i < |ds| then ds[i].name else "")
  }

  /** The id each wrapper reads as: its storage column's id, or its own while virtual. */
  function IdsOf(ds: seq<Record>, ws: seq<Wrapper>): (r: seq<int>)
    ensures |r| == |ws|
  {
    seq(|ws|, i requires 0 <= i < |ws| => if ws[i].realised && i < |ds| then ds[i].id else ws[i].vid)
  }

  /** Two wrapper lists agree on everything but formula state and edges. */
  predicate SameShape(ws: seq<Wrapper>, vs: seq<Wrapper>) {
    |ws| == |vs| &&
    forall j :: 0 <= j < |ws| ==> vs[j].realised == ws[j].realised && vs[j].vid == ws[j].vid && vs[j].index == ws[j].index
  }

  /**
   * The model's invariant on plain values: each wrapper's index is its
   * position, exactly the first |ds| wrappers are realised, every id read
   * is below the counter, and no virtual wrapper has had a formula parsed
   * (parsing realises first).
   */
  ghost predicate WellFormed(ds: seq<Record>, ws: seq<Wrapper>, nextId: int) {
    |ds| <= |ws| &&
    (forall i :: 0 <= i < |ws| ==> ws[i].index == i) &&
    (forall i :: 0 <= i < |ws| ==> (ws[i].realised <==> i < |ds|)) &&
    (forall i :: 0 <= i < |ws| ==> IdsOf(ds, ws)[i] < nextId) &&
    (forall i :: |ds| <= i < |ws| ==> ws[i].status.None?)
  }

  ghost predicate Distinct(xs: seq<int>) {
    forall i, j :: 0 <= i < j < |xs| ==> xs[i] != xs[j]
  }

  /** Padding keeps the invariant and distinct ids, and leaves at least N_VIRTUAL_COLS virtual wrappers. */
  lemma PaddedWellFormed(ds: seq<Record>, ws: seq<Wrapper>, n: int)
    requires WellFormed(ds, ws, n)
    ensures var p := Padded(ws, |ds|, n);
      WellFormed(ds, p, n + PadCount(|ws|, |ds|)) &&
      |p| - |ds| >= N_VIRTUAL_COLS &&
      (|ws| - |ds| <= N_VIRTUAL_COLS ==> |p| - |ds| == N_VIRTUAL_COLS) &&
      (Distinct(IdsOf(ds, ws)) ==> Distinct(IdsOf(ds, p)))
  {
    var p := Padded(ws, |ds|, n);
    assert forall j :: 0 <= j < |ws| ==> p[j] == ws[j];
    assert forall j :: |ws| <= j < |p| ==> p[j] == NewWrapper(false, n + (j - |ws|), j);
    var a, b := IdsOf(ds, ws), IdsOf(ds, p);
    assert forall j :: 0 <= j < |ws| ==> b[j] == a[j];
    assert forall j :: |ws| <= j < |p| ==> b[j] == n + (j - |ws|);
  }

  /** One step of realisation: the first virtual wrapper gets a gap record. */
  lemma RealiseStep(ds0: seq<Record>, ws0: seq<Wrapper>, ids: seq<int>, ds: seq<Record>, ws: seq<Wrapper>,
                    nextId: int, rows: nat, name: string)
    requires |ds| < |ws| == |ws0| && ws == Flagged(ws0, |ds|)
    requires WellFormed(ds, ws, nextId) && IdsOf(ds, ws) == ids
    requires FilledGap(ds0, ids, ds, rows)
    requires name == DefaultName(|ds|, TakenNames(ds))
    ensures var i := |ds|;
      var ds' := ds + [GapRecord(name, ws[i].vid, rows)];
      var ws' := ws[i := ws[i].(realised := true)];
      ws' == Flagged(ws0, |ds'|) && WellFormed(ds', ws', nextId) && IdsOf(ds', ws') == ids &&
      FilledGap(ds0, ids, ds', rows)
  {
    var i := |ds|;
    var ds' := ds + [GapRecord(name, ws[i].vid, rows)];
    var ws' := ws[i := ws[i].(realised := true)];
    FlagStep(ws0, ws, i);
    RealiseStepIds(ds, ws, nextId, GapRecord(name, ws[i].vid, rows));
    GapStep(ds0, ids, ds, rows, name, ws[i].vid);
  }

  lemma FlagStep(ws0: seq<Wrapper>, ws: seq<Wrapper>, i: nat)
    requires i < |ws| == |ws0| && ws == Flagged(ws0, i)
    ensures ws[i := ws[i].(realised := true)] == Flagged(ws0, i + 1)
  {
  }

  lemma RealiseStepIds(ds: seq<Record>, ws: seq<Wrapper>, nextId: int, r: Record)
    requires |ds| < |ws| && WellFormed(ds, ws, nextId) && r.id == ws[|ds|].vid
    ensures var ds', ws' := ds + [r], ws[|ds| := ws[|ds|].(realised := true)];
      IdsOf(ds', ws') == IdsOf(ds, ws) && WellFormed(ds', ws', nextId)
  {
    var ds', ws' := ds + [r], ws[|ds| := ws[|ds|].(realised := true)];
    assert forall j :: 0 <= j < |ws| ==> IdsOf(ds', ws')[j] == IdsOf(ds, ws)[j];
  }

  lemma GapStep(ds0: seq<Record>, ids: seq<int>, ds: seq<Record>, rows: nat, name: string, id: int)
    requires FilledGap(ds0, ids, ds, rows) && |ds| < |ids| && id == ids[|ds|]
    requires name == DefaultName(|ds|, TakenNames(ds))
    ensures FilledGap(ds0, ids, ds + [GapRecord(name, id, rows)], rows)
  {
    var ds' := ds + [GapRecord(name, id, rows)];
    assert ds'[..|ds|] == ds;
    assert ds'[..|ds0|] == ds[..|ds0|];
    forall i | |ds0| <= i < |ds'|
      ensures ds'[i] == GapRecord(DefaultName(i, TakenNames(ds'[..i])), ids[i], rows)
    {
      if i < |ds| {
        assert ds'[..i] == ds[..i];
      }
    }
  }

  /** `ws` with the index of every wrapper at a position in [from, to) set to that position. */
  function Renumbered(ws: seq<Wrapper>, from: nat, to: nat): (r: seq<Wrapper>)
    ensures |r| == |ws|
  {
    seq(|ws|, j requires 0 <= j < |ws| => if from <= j < to then ws[j].(index := j) else ws[j])
  }

  /** The storage after deleting wrappers [start, end]: the storage columns among them go. */
  function DeletedStorage(ds: seq<Record>, start: nat, end: nat): (r: seq<Record>)
    requires start <= end
    ensures |r| <= |ds|
  {
    var lo := if start < |ds| then start else |ds|;
    var hi := if end + 1 < |ds| then end + 1 else |ds|;
    ds[..lo] + ds[hi..]
  }

  /** The wrappers after deleting [start, end], renumbered from `start`. */
  function DeletedWrappers(ws: seq<Wrapper>, start: nat, end: nat): (r: seq<Wrapper>)
    requires start <= end < |ws|
    ensures |r| == |ws| - (end + 1 - start)
  {
    var cut := ws[..start] + ws[end + 1..];
    Renumbered(cut, start, |cut|)
  }

  /**
   * What deletion leaves at each position: the wrappers before `start`
   * untouched, and after it the survivor from `end - start + 1` places
   * further right, renumbered; and the storage columns likewise.
   */
  lemma DeletedAt(ds: seq<Record>, ws: seq<Wrapper>, start: nat, end: nat, j: nat)
    requires start <= end < |ws| && j < |ws| - (end + 1 - start)
    ensures var k := if j < start then j else j + (end + 1 - start);
      DeletedWrappers(ws, start, end)[j] == (if j < start then ws[k] else ws[k].(index := j)) &&
      (j < |DeletedStorage(ds, start, end)| ==> k < |ds| && DeletedStorage(ds, start, end)[j] == ds[k])
  {
    var k := if j < start then j else j + (end + 1 - start);
    assert (ws[..start] + ws[end + 1..])[j] == ws[k];
  }

  /** Deletion reads the ids of the survivors, in order. */
  lemma DeletedIds(ds: seq<Record>, ws: seq<Wrapper>, n: int, start: nat, end: nat)
    requires WellFormed(ds, ws, n) && start <= end < |ws|
    ensures IdsOf(DeletedStorage(ds, start, end), DeletedWrappers(ws, start, end)) ==
            IdsOf(ds, ws)[..start] + IdsOf(ds, ws)[end + 1..]
  {
    var ds', ws' := DeletedStorage(ds, start, end), DeletedWrappers(ws, start, end);
    var a, b := IdsOf(ds, ws), IdsOf(ds', ws');
    var c := a[..start] + a[end + 1..];
    forall j | 0 <= j < |ws'|
      ensures b[j] == c[j]
    {
      DeletedAt(ds, ws, start, end, j);
    }
  }

  /** Cutting a run out of a list of ids keeps every id below a bound and keeps them distinct. */
  lemma CutIds(a: seq<int>, start: nat, end: nat, n: int)
    requires start <= end < |a| && forall i :: 0 <= i < |a| ==> a[i] < n
    ensures var c := a[..start] + a[end + 1..];
      (forall i :: 0 <= i < |c| ==> c[i] < n) && (Distinct(a) ==> Distinct(c))
  {
    var c := a[..start] + a[end + 1..];
    forall i | 0 <= i < |c|
      ensures c[i] == a[if i < start then i else i + (end + 1 - start)]
    {
    }
  }

  /** Deletion leaves every wrapper at its own position, realised exactly over the storage. */
  lemma DeletedShape(ds: seq<Record>, ws: seq<Wrapper>, n: int, start: nat, end: nat)
    requires WellFormed(ds, ws, n) && start <= end < |ws|
    ensures var ds', ws' := DeletedStorage(ds, start, end), DeletedWrappers(ws, start, end);
      |ds'| <= |ws'| &&
      forall j :: 0 <= j < |ws'| ==>
        ws'[j].index == j && (ws'[j].realised <==> j < |ds'|) && (j >= |ds'| ==> ws'[j].status.None?)
  {
    var ds', ws' := DeletedStorage(ds, start, end), DeletedWrappers(ws, start, end);
    forall j | 0 <= j < |ws'|
      ensures ws'[j].index == j && (ws'[j].realised <==> j < |ds'|) && (j >= |ds'| ==> ws'[j].status.None?)
    {
      DeletedAt(ds, ws, start, end, j);
    }
  }

  /** Deletion keeps the invariant and the ids of the survivors, in order. */
  lemma DeletedWellFormed(ds: seq<Record>, ws: seq<Wrapper>, n: int, start: nat, end: nat)
    requires WellFormed(ds, ws, n) && start <= end < |ws|
    ensures var ds', ws' := DeletedStorage(ds, start, end), DeletedWrappers(ws, start, end);
      WellFormed(ds', ws', n) &&
      IdsOf(ds', ws') == IdsOf(ds, ws)[..start] + IdsOf(ds, ws)[end + 1..] &&
      (Distinct(IdsOf(ds, ws)) ==> Distinct(IdsOf(ds', ws')))
  {
    DeletedIds(ds, ws, n, start, end);
    DeletedShape(ds, ws, n, start, end);
    CutIds(IdsOf(ds, ws), start, end, n);
  }

  /** The wrappers after inserting a fresh realised wrapper at `index`, all renumbered. */
  function InsertedWrappers(ws: seq<Wrapper>, index: nat): (r: seq<Wrapper>)
    requires index <= |ws|
    ensures |r| == |ws| + 1
  {
    var grown := ws[..index] + [NewWrapper(true, -1, -1)] + ws[index..];
    Renumbered(grown, 0, |grown|)
  }

  /**
   * What insertion leaves at each position: the wrappers before `index`
   * untouched apart from their index, a fresh realised wrapper at `index`,
   * and after it each old wrapper one place further right, renumbered.
   */
  lemma InsertedAt(ds: seq<Record>, ws: seq<Wrapper>, index: nat, r: Record, j: nat)
    requires index <= |ds| && index <= |ws| && j <= |ws|
    ensures var ws' := InsertedWrappers(ws, index);
      var ds' := ds[..index] + [r] + ds[index..];
      (j < index ==> ws'[j] == ws[j].(index := j) && (j < |ds| ==> ds'[j] == ds[j])) &&
      (j == index ==> ws'[j] == NewWrapper(true, -1, j) && ds'[j] == r) &&
      (j > index ==> ws'[j] == ws[j - 1].(index := j) && (j < |ds'| ==> ds'[j] == ds[j - 1]))
  {
    var grown := ws[..index] + [NewWrapper(true, -1, -1)] + ws[index..];
    if j < index {
      assert grown[j] == ws[j];
    } else if j > index {
      assert grown[j] == ws[j - 1];
    }
  }

  /** Insertion reads the old ids with the counter's id spliced in at `index`. */
  lemma InsertedIds(ds: seq<Record>, ws: seq<Wrapper>, n: int, index: nat, r: Record)
    requires WellFormed(ds, ws, n) && index <= |ds| && r.id == n
    ensures IdsOf(ds[..index] + [r] + ds[index..], InsertedWrappers(ws, index)) ==
            IdsOf(ds, ws)[..index] + [n] + IdsOf(ds, ws)[index..]
  {
    var ds', ws' := ds[..index] + [r] + ds[index..], InsertedWrappers(ws, index);
    var a, b := IdsOf(ds, ws), IdsOf(ds', ws');
    var c := a[..index] + [n] + a[index..];
    forall j | 0 <= j < |ws'|
      ensures b[j] == c[j]
    {
      InsertedAt(ds, ws, index, r, j);
    }
  }

  /** Insertion leaves every wrapper at its own position, realised exactly over the storage. */
  lemma InsertedShape(ds: seq<Record>, ws: seq<Wrapper>, n: int, index: nat, r: Record)
    requires WellFormed(ds, ws, n) && index <= |ds|
    ensures var ds', ws' := ds[..index] + [r] + ds[index..], InsertedWrappers(ws, index);
      forall j :: 0 <= j < |ws'| ==>
        ws'[j].index == j && (ws'[j].realised <==> j < |ds'|) && (j >= |ds'| ==> ws'[j].status.None?)
  {
    var ds', ws' := ds[..index] + [r] + ds[index..], InsertedWrappers(ws, index);
    forall j | 0 <= j < |ws'|
      ensures ws'[j].index == j && (ws'[j].realised <==> j < |ds'|) && (j >= |ds'| ==> ws'[j].status.None?)
    {
      InsertedAt(ds, ws, index, r, j);
    }
  }

  /** Splicing the bound itself into ids all below it keeps them distinct, and below the next bound. */
  lemma SplicedIds(a: seq<int>, index: nat, n: int)
    requires index <= |a| && forall i :: 0 <= i < |a| ==> a[i] < n
    ensures var c := a[..index] + [n] + a[index..];
      (forall i :: 0 <= i < |c| ==> c[i] < n + 1) && (Distinct(a) ==> Distinct(c))
  {
    var c := a[..index] + [n] + a[index..];
    forall i | 0 <= i < |c|
      ensures c[i] == if i < index then a[i] else if i == index then n else a[i - 1]
    {
    }
  }

  /**
   * Inserting a realised wrapper and its storage column `r`, carrying the
   * counter's id, keeps the invariant with the counter one higher and puts
   * the new id in place.
   */
  lemma InsertedWellFormed(ds: seq<Record>, ws: seq<Wrapper>, n: int, index: nat, r: Record)
    requires WellFormed(ds, ws, n) && index <= |ds| && r.id == n
    ensures var ds', ws' := ds[..index] + [r] + ds[index..], InsertedWrappers(ws, index);
      WellFormed(ds', ws', n + 1) &&
      IdsOf(ds', ws') == IdsOf(ds, ws)[..index] + [n] + IdsOf(ds, ws)[index..] &&
      (Distinct(IdsOf(ds, ws)) ==> Distinct(IdsOf(ds', ws')))
  {
    InsertedIds(ds, ws, n, index, r);
    InsertedShape(ds, ws, n, index, r);
    SplicedIds(IdsOf(ds, ws), index, n);
  }

  // ---- dependency edges across the structural operations ----

  /** Padding keeps the names unique and the edges mirrored: the new wrappers read "" and have no edges. */
  lemma PaddedLinked(ds: seq<Record>, ws: seq<Wrapper>, count: nat, n: int)
    requires UniqueNames(NamesOf(ds, ws)) && LinkedBoth(ws, NamesOf(ds, ws))
    ensures var p := Padded(ws, count, n);
      UniqueNames(NamesOf(ds, p)) && LinkedBoth(p, NamesOf(ds, p))
  {
    var p := Padded(ws, count, n);
    var names, names' := NamesOf(ds, ws), NamesOf(ds, p);
    assert forall j :: 0 <= j < |ws| ==> p[j] == ws[j] && names'[j] == names[j];
    assert forall j :: |ws| <= j < |p| ==> p[j] == NewWrapper(false, n + (j - |ws|), j) && names'[j] == "";
    LinkedKept(ws, names, p, names', ColumnGrain);
    LinkedKept(ws, names, p, names', RowGrain);
  }

  /**
   * The names read after filling the gap up to `pos` and flagging those
   * wrappers realised: the old names below the old storage, each gap
   * column's default name, then "" for the wrappers still virtual; and no
   * two columns share a name.
   */
  lemma FilledNames(ds0: seq<Record>, ws0: seq<Wrapper>, n0: int, rows: nat, pos: nat, ds: seq<Record>)
    requires WellFormed(ds0, ws0, n0) && |ds0| <= pos < |ws0| && |ds| == pos + 1
    requires FilledGap(ds0, IdsOf(ds0, ws0), ds, rows) && UniqueNames(NamesOf(ds0, ws0))
    ensures var names0, names1 := NamesOf(ds0, ws0), NamesOf(ds, Flagged(ws0, pos + 1));
      UniqueNames(names1) && forall j :: 0 <= j < |ws0| && names0[j] != "" ==> names1[j] == names0[j]
  {
    var names0, names1 := NamesOf(ds0, ws0), NamesOf(ds, Flagged(ws0, pos + 1));
    assert forall j :: 0 <= j < |ds0| ==> ds[j] == ds[..|ds0|][j];
    assert forall j :: 0 <= j < |ws0| ==> names0[j] == if j < |ds0| then ds0[j].name else "";
    assert forall j :: 0 <= j < |ws0| ==> names1[j] == if j < |ds| then ds[j].name else "";
    forall i, j | 0 <= i < j < |ds|
      ensures ds[i].name != ds[j].name || j < |ds0|
    {
      if j >= |ds0| {
        GapNamesFresh(ds0, IdsOf(ds0, ws0), ds, rows, j);
      }
    }
  }

  /**
   * Filling the gap up to `pos` and flagging those wrappers realised keeps
   * the names unique and the edges mirrored: the flagged wrappers were
   * virtual, so they had no edges.
   */
  lemma FlaggedLinked(ds0: seq<Record>, ws0: seq<Wrapper>, n0: int, rows: nat, pos: nat, ds: seq<Record>)
    requires WellFormed(ds0, ws0, n0) && |ds0| <= pos < |ws0| && |ds| == pos + 1
    requires FilledGap(ds0, IdsOf(ds0, ws0), ds, rows)
    requires UniqueNames(NamesOf(ds0, ws0)) && LinkedBoth(ws0, NamesOf(ds0, ws0))
    ensures var fl := Flagged(ws0, pos + 1);
      UniqueNames(NamesOf(ds, fl)) && LinkedBoth(fl, NamesOf(ds, fl))
  {
    var fl := Flagged(ws0, pos + 1);
    var names0, names1 := NamesOf(ds0, ws0), NamesOf(ds, fl);
    FilledNames(ds0, ws0, n0, rows, pos, ds);
    assert forall j :: 0 <= j < |ws0| ==> fl[j] == ws0[j].(realised := fl[j].realised);
    LinkedKept(ws0, names0, fl, names1, ColumnGrain);
    LinkedKept(ws0, names0, fl, names1, RowGrain);
  }

  /**
   * Realising keeps the names unique and the edges mirrored: each gap
   * column's name differs from every earlier one, the wrappers it fills were
   * virtual and so had no edges, and padding adds none.
   */
  lemma RealisedLinked(ds0: seq<Record>, ws0: seq<Wrapper>, n0: int, rows: nat, pos: nat,
                       ds: seq<Record>, ws: seq<Wrapper>, n: int)
    requires WellFormed(ds0, ws0, n0) && pos < |ws0| && RealisedFrom(ds0, ws0, n0, rows, pos, ds, ws, n)
    requires UniqueNames(NamesOf(ds0, ws0)) && LinkedBoth(ws0, NamesOf(ds0, ws0))
    ensures UniqueNames(NamesOf(ds, ws)) && LinkedBoth(ws, NamesOf(ds, ws))
  {
    if pos >= |ds0| {
      GapLinked(ds0, ws0, n0, rows, pos, ds);
    }
  }

  /** The gap case of `RealisedLinked`: the gap filled, the wrappers flagged, then padded. */
  lemma GapLinked(ds0: seq<Record>, ws0: seq<Wrapper>, n0: int, rows: nat, pos: nat, ds: seq<Record>)
    requires WellFormed(ds0, ws0, n0) && |ds0| <= pos < |ws0| && |ds| == pos + 1
    requires FilledGap(ds0, IdsOf(ds0, ws0), ds, rows)
    requires UniqueNames(NamesOf(ds0, ws0)) && LinkedBoth(ws0, NamesOf(ds0, ws0))
    ensures var ws := Padded(Flagged(ws0, pos + 1), pos + 1, n0);
      UniqueNames(NamesOf(ds, ws)) && LinkedBoth(ws, NamesOf(ds, ws))
  {
    FlaggedLinked(ds0, ws0, n0, rows, pos, ds);
    PaddedLinked(ds, Flagged(ws0, pos + 1), pos + 1, n0);
  }

  /** A name that no named column carries, spliced into unique names, keeps them unique. */
  lemma SplicedNames(names: seq<string>, index: nat, x: string)
    requires UniqueNames(names) && index <= |names|
    requires forall k :: 0 <= k < |names| && names[k] != "" ==> names[k] != x
    ensures UniqueNames(names[..index] + [x] + names[index..])
  {
    var s := names[..index] + [x] + names[index..];
    forall j | 0 <= j < |s|
      ensures s[j] == if j < index then names[j] else if j == index then x else names[j - 1]
    {
    }
  }

  /**
   * What insertion leaves at each position, read as wrappers and names: the
   * old ones, shifted one place right from `index`, and the new wrapper,
   * whose name no column carries, so the names stay unique.
   */
  lemma InsertedNames(ds: seq<Record>, ws: seq<Wrapper>, n: int, index: nat, r: Record)
    requires WellFormed(ds, ws, n) && index <= |ds| && r.name !in TakenNames(ds)
    requires UniqueNames(NamesOf(ds, ws))
    ensures var ds', ws' := ds[..index] + [r] + ds[index..], InsertedWrappers(ws, index);
      var names, names' := NamesOf(ds, ws), NamesOf(ds', ws');
      UniqueNames(names') && ws'[index] == NewWrapper(true, -1, index) &&
      forall j :: 0 <= j < |ws'| && j != index ==>
        var k := if j < index then j else j - 1;
        ws'[j] == ws[k].(index := j) && names'[j] == names[k]
  {
    var ds', ws' := ds[..index] + [r] + ds[index..], InsertedWrappers(ws, index);
    var names, names' := NamesOf(ds, ws), NamesOf(ds', ws');
    InsertedShape(ds, ws, n, index, r);
    assert forall k :: 0 <= k < |ws| ==> names[k] == if k < |ds| then ds[k].name else "";
    forall j | 0 <= j < |ws'|
      ensures j < index ==> ws'[j] == ws[j].(index := j) && names'[j] == names[j]
      ensures j == index ==> ws'[j] == NewWrapper(true, -1, j) && names'[j] == r.name
      ensures j > index ==> ws'[j] == ws[j - 1].(index := j) && names'[j] == names[j - 1]
    {
      InsertedAt(ds, ws, index, r, j);
    }
    forall k | 0 <= k < |ws| && names[k] != "" ensures names[k] != r.name {
      if k < |ds| {
        assert ds[k].name in TakenNames(ds);
      }
    }
    SplicedNames(names, index, r.name);
    assert names' == names[..index] + [r.name] + names[index..];
  }

  /**
   * Inserting a wrapper with no edges over a storage column whose name no
   * column carries keeps the names unique and the edges mirrored: the
   * wrappers after it keep their names and edges one place further right.
   */
  lemma InsertedLinked(ds: seq<Record>, ws: seq<Wrapper>, n: int, index: nat, r: Record)
    requires WellFormed(ds, ws, n) && index <= |ds| && r.name !in TakenNames(ds)
    requires UniqueNames(NamesOf(ds, ws)) && LinkedBoth(ws, NamesOf(ds, ws))
    ensures var ds', ws' := ds[..index] + [r] + ds[index..], InsertedWrappers(ws, index);
      UniqueNames(NamesOf(ds', ws')) && LinkedBoth(ws', NamesOf(ds', ws'))
  {
    var ds', ws' := ds[..index] + [r] + ds[index..], InsertedWrappers(ws, index);
    var names, names' := NamesOf(ds, ws), NamesOf(ds', ws');
    InsertedNames(ds, ws, n, index, r);
    LinkedShifted(ws, names, ws', names', ColumnGrain, index);
    LinkedShifted(ws, names, ws', names', RowGrain, index);
  }

  /**
   * Deletion does not keep the edges mirrored: when a surviving wrapper `j`
   * depends on a storage column `k` among those deleted, the survivor is left
   * depending on a name no column carries any more.
   */
  lemma DeletedUnlinks(ds: seq<Record>, ws: seq<Wrapper>, n: int, start: nat, end: nat, g: Grain, j: nat, k: nat)
    requires WellFormed(ds, ws, n) && start <= end < |ws|
    requires UniqueNames(NamesOf(ds, ws)) && Linked(ws, NamesOf(ds, ws), g)
    requires (j < start || end < j < |ws|) && start <= k <= end && k < |ds|
    requires NamesOf(ds, ws)[k] in Deps(ws[j], g)
    ensures var ds', ws' := DeletedStorage(ds, start, end), DeletedWrappers(ws, start, end);
      !Linked(ws', NamesOf(ds', ws'), g)
  {
    var ds', ws' := DeletedStorage(ds, start, end), DeletedWrappers(ws, start, end);
    var names, names' := NamesOf(ds, ws), NamesOf(ds', ws');
    var d := names[k];
    DeletedShape(ds, ws, n, start, end);
    var jj := if j < start then j else j - (end + 1 - start);
    DeletedAt(ds, ws, start, end, jj);
    assert d in Deps(ws'[jj], g);
    forall i | 0 <= i < |ws'| ensures names'[i] != d {
      DeletedAt(ds, ws, start, end, i);
      var ki := if i < start then i else i + (end + 1 - start);
      if i < |ds'| {
        assert names'[i] == ds[ki].name == names[ki];
      }
    }
    assert d != "" && d !in names';
  }

  /**
   * Renaming a storage column touches no edge, so it unmirrors the graph
   * whenever the renamed column has a dependency or a subscriber: the other
   * end of that edge still holds the old name, which no column carries.
   */
  lemma RenamedUnlinks(ds: seq<Record>, ws: seq<Wrapper>, n: int, pos: nat, name: string, g: Grain)
    requires WellFormed(ds, ws, n) && pos < |ds|
    requires UniqueNames(NamesOf(ds, ws)) && Linked(ws, NamesOf(ds, ws), g)
    requires name != ds[pos].name && (Deps(ws[pos], g) != {} || Subs(ws[pos], g) != {})
    ensures !Linked(ws, NamesOf(ds[pos := ds[pos].(name := name)], ws), g)
  {
    var names := NamesOf(ds, ws);
    assert NamesOf(ds[pos := ds[pos].(name := name)], ws) == names[pos := name];
    NamesRenamedUnlinks(ws, names, g, pos, name);
  }

  /** The wrappers refresh builds, one realised wrapper per storage column, satisfy the invariant. */
  lemma RefreshedWellFormed(ds: seq<Record>, ws: seq<Wrapper>)
    requires |ws| == |ds| && forall i :: 0 <= i < |ds| ==> ws[i] == NewWrapper(true, -1, i)
    ensures WellFormed(ds, ws, IdCeiling(ds))
    ensures (forall i, j :: 0 <= i < j < |ds| ==> ds[i].id != ds[j].id) ==> Distinct(IdsOf(ds, ws))
  {
    assert forall j :: 0 <= j < |ws| ==> IdsOf(ds, ws)[j] == ds[j].id;
  }

  /** `n` fresh realised wrappers, each with its own index and no pinned id. */
  function FreshRealised(n: nat): (r: seq<Wrapper>)
    ensures |r| == n && forall i :: 0 <= i < n ==> r[i] == NewWrapper(true, -1, i)
  {
    seq(n, i => NewWrapper(true, -1, i))
  }

  /** Storage columns that keep their ids keep the ids read and the invariant. */
  lemma IdsKept(ds: seq<Record>, ds': seq<Record>, ws: seq<Wrapper>, n: int)
    requires |ds'| == |ds| && forall i :: 0 <= i < |ds| ==> ds'[i].id == ds[i].id
    ensures IdsOf(ds', ws) == IdsOf(ds, ws)
    ensures WellFormed(ds, ws, n) ==> WellFormed(ds', ws, n)
  {
    assert forall i :: 0 <= i < |ws| ==> IdsOf(ds', ws)[i] == IdsOf(ds, ws)[i];
  }

  /** Storage columns that keep their names keep the names read. */
  lemma NamesKept(ds: seq<Record>, ds': seq<Record>, ws: seq<Wrapper>)
    requires |ds'| == |ds| && forall i :: 0 <= i < |ds| ==> ds'[i].name == ds[i].name
    ensures NamesOf(ds', ws) == NamesOf(ds, ws)
  {
    assert forall i :: 0 <= i < |ws| ==> NamesOf(ds', ws)[i] == NamesOf(ds, ws)[i];
  }

  /**
   * Wrappers that keep their flags, ids and indexes keep the names and ids
   * read, and the invariant as long as no virtual wrapper gains a status.
   */
  lemma ShapeKept(ds: seq<Record>, ws: seq<Wrapper>, vs: seq<Wrapper>, n: int)
    requires SameShape(ws, vs)
    ensures NamesOf(ds, vs) == NamesOf(ds, ws) && IdsOf(ds, vs) == IdsOf(ds, ws)
    ensures WellFormed(ds, ws, n) && (forall i :: |ds| <= i < |vs| ==> vs[i].status == ws[i].status) ==>
            WellFormed(ds, vs, n)
  {
    assert forall i :: 0 <= i < |ws| ==> NamesOf(ds, vs)[i] == NamesOf(ds, ws)[i];
    assert forall i :: 0 <= i < |ws| ==> IdsOf(ds, vs)[i] == IdsOf(ds, ws)[i];
  }

  /**
   * Replacing the realised wrapper at `pos` by one with the same flag, id
   * and index keeps the names and ids read and the invariant.
   */
  lemma ReplacedAt(ds: seq<Record>, ws: seq<Wrapper>, n: int, pos: nat, w: Wrapper)
    requires WellFormed(ds, ws, n) && pos < |ds|
    requires w.realised == ws[pos].realised && w.vid == ws[pos].vid && w.index == ws[pos].index
    ensures WellFormed(ds, ws[pos := w], n)
    ensures NamesOf(ds, ws[pos := w]) == NamesOf(ds, ws) && IdsOf(ds, ws[pos := w]) == IdsOf(ds, ws)
  {
    ShapeKept(ds, ws, ws[pos := w], n);
  }

  /** Rewiring subscriber sets changes nothing else about any wrapper. */
  lemma RewiredShape(ws: seq<Wrapper>, targets: set<nat>, g: Grain, name: string, add: bool)
    ensures var r := Rewired(ws, targets, g, name, add);
      SameShape(ws, r) && forall i :: 0 <= i < |ws| ==> r[i].status == ws[i].status
  {
    var r := Rewired(ws, targets, g, name, add);
    forall i | 0 <= i < |ws|
      ensures r[i].realised == ws[i].realised && r[i].vid == ws[i].vid && r[i].index == ws[i].index
      ensures r[i].status == ws[i].status
    {
      RewiredAt(ws, targets, g, name, add, i, g);
    }
  }

  /**
   * What realising position `pos` of `ds0, ws0, n0` leaves in `ds, ws, n`:
   * nothing changes when it is already realised; otherwise the gap up to
   * `pos` is filled and the padding restored.
   */
  ghost predicate RealisedFrom(ds0: seq<Record>, ws0: seq<Wrapper>, n0: int, rows: nat, pos: nat,
                               ds: seq<Record>, ws: seq<Wrapper>, n: int)
  {
    pos < |ds| &&
    if pos < |ds0| then ds == ds0 && ws == ws0 && n == n0
    else
      |ds| == pos + 1 && FilledGap(ds0, IdsOf(ds0, ws0), ds, rows) &&
      ws == Padded(Flagged(ws0, pos + 1), pos + 1, n0) && n == n0 + PadCount(|ws0|, pos + 1)
  }

  /** A storage column after recalculating rows [start, end) with row tree `tree`. */
  function RecalcRecord(r: Record, tree: Option<RowTree>, eval: (RowTree, nat) -> Option<Value>,
                        dpsOf: seq<Value> -> int, start: nat, end: nat): (r': Record)
    ensures r' == r.(cells := r'.cells, dps := r'.dps)
    ensures r'.cells == Recalculated(r.cells, tree, eval, start, end)
    ensures tree.None? ==> r'.dps == r.dps
    ensures tree.Some? ==> r'.dps == dpsOf(r'.cells)
  {
    var cells := Recalculated(r.cells, tree, eval, start, end);
    r.(cells := cells, dps := if tree.None? then r.dps else dpsOf(cells))
  }

  /** Withdrawing the old subscriptions raises KeyError: an old dependency name no longer resolves. */
  predicate StaleDeps(names: seq<string>, w: Wrapper) {
    !(Resolves(names, w.colDeps) && Resolves(names, w.rowDeps))
  }

  /** Subscribing raises KeyError: an extracted name resolves to no column. */
  predicate UnknownVars(names: seq<string>, name: string, p: Pipeline) {
    Installs(name, p) && !(Resolves(names, p.colVars) && Resolves(names, p.rowVars))
  }

  /** The formula message _parse_formula leaves. */
  function ParseMessage(names: seq<string>, name: string, w: Wrapper, p: Pipeline): string {
    if StaleDeps(names, w) || UnknownVars(names, name, p) then Message(KEY_ERROR)
    else ReparseMessage(name, p)
  }

  /**
   * The wrappers _parse_formula leaves, from `ws0` with names `names`, for
   * the column at `pos` with pipeline outcome `p`. A stale old dependency
   * aborts with nothing but some subscriber sets changed and the column
   * marked ERROR; an extracted name that resolves nowhere aborts after the
   * new dependencies are installed and the row tree dropped; otherwise the
   * result is exactly `Reparsed`.
   */
  ghost predicate ParsedWrappers(ws0: seq<Wrapper>, names: seq<string>, pos: nat, p: Pipeline, ws: seq<Wrapper>)
    requires |ws0| == |names| && pos < |ws0|
  {
    var w := ws0[pos];
    if StaleDeps(names, w) then
      SubsOnlyDiffer(Marked(ws0, pos, Error), ws)
    else if UnknownVars(names, names[pos], p) then
      SubsOnlyDiffer(Marked(ws0[pos := w.(colDeps := p.colVars, rowDeps := p.rowVars, rowTree := None)], pos, Error), ws)
    else
      ws == Reparsed(ws0, names, pos, p)
  }

  /**
   * What _parse_formula leaves, starting from storage `ds0` and wrappers
   * `ws0`, for the column at `pos` with pipeline outcome `p`: the wrappers
   * as `ParsedWrappers` says, the message set, and then every row
   * recalculated with the row tree the column ends up with.
   */
  ghost predicate Parsed(ds0: seq<Record>, ws0: seq<Wrapper>, pos: nat, p: Pipeline,
                         eval: (RowTree, nat) -> Option<Value>, dpsOf: seq<Value> -> int,
                         ds: seq<Record>, ws: seq<Wrapper>)
  {
    pos < |ds0| && |ds0| <= |ws0| && |ds| == |ds0| && |ws| == |ws0| && ws0[pos].realised &&
    var names := NamesOf(ds0, ws0);
    (forall j :: 0 <= j < |ds| && j != pos ==> ds[j] == ds0[j]) &&
    ds[pos] == RecalcRecord(ds0[pos].(message := ParseMessage(names, ds0[pos].name, ws0[pos], p)), ws[pos].rowTree,
                            eval, dpsOf, 0, |ds0[pos].cells|) &&
    ParsedWrappers(ws0, names, pos, p, ws)
  }

  /**
   * Parsing keeps dependencies and subscriptions mirrored at both grains
   * when they were, names are unique, the column's own name is non-empty,
   * and every name the pipeline extracts is a non-empty column name: then
   * no KeyError can arise and the wrappers are exactly `Reparsed`.
   */
  lemma {:induction false} ParsedKeepsLinked(ds0: seq<Record>, ws0: seq<Wrapper>, pos: nat, p: Pipeline,
                                             eval: (RowTree, nat) -> Option<Value>, dpsOf: seq<Value> -> int,
                                             ds: seq<Record>, ws: seq<Wrapper>)
    requires Parsed(ds0, ws0, pos, p, eval, dpsOf, ds, ws)
    requires UniqueNames(NamesOf(ds0, ws0)) && LinkedBoth(ws0, NamesOf(ds0, ws0))
    requires NamesOf(ds0, ws0)[pos] != ""
    requires Installs(NamesOf(ds0, ws0)[pos], p) ==>
      (forall d :: d in p.colVars ==> d in NamesOf(ds0, ws0) && d != "") &&
      (forall d :: d in p.rowVars ==> d in NamesOf(ds0, ws0) && d != "")
    ensures !StaleDeps(NamesOf(ds0, ws0), ws0[pos]) && !UnknownVars(NamesOf(ds0, ws0), NamesOf(ds0, ws0)[pos], p)
    ensures ws == Reparsed(ws0, NamesOf(ds0, ws0), pos, p)
    ensures LinkedBoth(ws, NamesOf(ds0, ws0))
  {
    var names := NamesOf(ds0, ws0);
    assert names[pos] == ds0[pos].name;
    forall d | d in ws0[pos].colDeps ensures d in names {
      assert d in Deps(ws0[pos], ColumnGrain);
    }
    forall d | d in ws0[pos].rowDeps ensures d in names {
      assert d in Deps(ws0[pos], RowGrain);
    }
    ReparsedKeepsLinked(ws0, names, pos, p);
  }

  /**
   * A formula that parses, passes the checks and lowers to a row tree:
   * the column depends on exactly the extracted names, its status is
   * EMPTY or OK by whether the body is empty, its message is cleared, and
   * every row holds the tree's value for that row, or missing where the
   * row fails; decimal places are determined from the new cells.
   */
  lemma ParsedSucceeds(ds0: seq<Record>, ws0: seq<Wrapper>, pos: nat, p: Pipeline,
                       eval: (RowTree, nat) -> Option<Value>, dpsOf: seq<Value> -> int,
                       ds: seq<Record>, ws: seq<Wrapper>)
    requires Parsed(ds0, ws0, pos, p, eval, dpsOf, ds, ws)
    requires !StaleDeps(NamesOf(ds0, ws0), ws0[pos]) && Installs(ds0[pos].name, p)
    requires Resolves(NamesOf(ds0, ws0), p.colVars) && Resolves(NamesOf(ds0, ws0), p.rowVars)
    requires p.lowered.Success?
    ensures ws[pos].colDeps == p.colVars && ws[pos].rowDeps == p.rowVars
    ensures ws[pos].status == Some(if p.isEmpty then Empty else Ok) && ws[pos].rowTree == Some(p.lowered.value)
    ensures ds[pos].message == ""
    ensures |ds[pos].cells| == |ds0[pos].cells| &&
            forall row :: 0 <= row < |ds[pos].cells| ==>
              ds[pos].cells[row] == eval(p.lowered.value, row).GetOr(Missing)
    ensures ds[pos].dps == dpsOf(ds[pos].cells)
  {
    var names := NamesOf(ds0, ws0);
    assert names[pos] == ds0[pos].name;
    InstalledDeps(ws0, names, pos, p);
  }

  /**
   * A formula rejected before its dependencies are installed, because a
   * stage raised before extraction, the formula names the column itself,
   * or the checker failed: the column ends with no dependencies, no row
   * tree and status ERROR, every row is written as missing, the decimal
   * places stay, and the message names the cause.
   */
  lemma ParsedRejects(ds0: seq<Record>, ws0: seq<Wrapper>, pos: nat, p: Pipeline,
                      eval: (RowTree, nat) -> Option<Value>, dpsOf: seq<Value> -> int,
                      ds: seq<Record>, ws: seq<Wrapper>)
    requires Parsed(ds0, ws0, pos, p, eval, dpsOf, ds, ws)
    requires !StaleDeps(NamesOf(ds0, ws0), ws0[pos]) && !Installs(ds0[pos].name, p)
    ensures ws[pos].colDeps == {} && ws[pos].rowDeps == {} && ws[pos].rowTree.None? && ws[pos].status == Some(Error)
    ensures ds[pos].message ==
              if p.Aborted? then Message(p.failure)
              else if SelfReferent(ds0[pos].name, p) then CIRCULAR_MESSAGE
              else Message(p.check.value)
    ensures |ds[pos].cells| == |ds0[pos].cells| && forall row :: 0 <= row < |ds[pos].cells| ==> ds[pos].cells[row] == Missing
    ensures ds[pos].dps == ds0[pos].dps
  {
    var names := NamesOf(ds0, ws0);
    assert names[pos] == ds0[pos].name;
    RejectedLeavesNoDeps(ws0, names, pos, p);
  }

  /**
   * A dependency renamed or deleted since it was installed: withdrawing
   * the old subscriptions raises KeyError, so the column keeps its
   * dependency sets and row tree, is marked ERROR with the KeyError
   * message, and its rows are recalculated with the old tree.
   */
  lemma ParsedStale(ds0: seq<Record>, ws0: seq<Wrapper>, pos: nat, p: Pipeline,
                    eval: (RowTree, nat) -> Option<Value>, dpsOf: seq<Value> -> int,
                    ds: seq<Record>, ws: seq<Wrapper>)
    requires Parsed(ds0, ws0, pos, p, eval, dpsOf, ds, ws)
    requires StaleDeps(NamesOf(ds0, ws0), ws0[pos])
    ensures ws[pos].colDeps == ws0[pos].colDeps && ws[pos].rowDeps == ws0[pos].rowDeps
    ensures ws[pos].rowTree == ws0[pos].rowTree && ws[pos].status == Some(Error)
    ensures ds[pos].message == "Unexpected error (, KeyError)"
    ensures forall j :: 0 <= j < |ws| && j != pos ==>
              ws[j].colDeps == ws0[j].colDeps && ws[j].rowDeps == ws0[j].rowDeps && ws[j].status == ws0[j].status
  {
    var m := Marked(ws0, pos, Error);
    assert ws[pos] == m[pos].(colSubs := ws[pos].colSubs, rowSubs := ws[pos].rowSubs);
    forall j | 0 <= j < |ws| && j != pos
      ensures ws[j].colDeps == ws0[j].colDeps && ws[j].rowDeps == ws0[j].rowDeps && ws[j].status == ws0[j].status
    {
      assert ws[j] == m[j].(colSubs := ws[j].colSubs, rowSubs := ws[j].rowSubs);
    }
  }

  /**
   * A KeyError while subscribing leaves, up to subscriber sets, the
   * original wrappers with the new dependencies installed, the row tree
   * dropped and the column marked ERROR.
   */
  lemma UnknownVarsShape(ws0: seq<Wrapper>, names: seq<string>, pos: nat, cv: set<string>, rv: set<string>,
                         ws: seq<Wrapper>)
    requires |ws0| == |names| && pos < |ws0|
    requires var c := Cleared(ws0, names, pos);
      SubsOnlyDiffer(Marked(c[pos := c[pos].(colDeps := cv, rowDeps := rv)], pos, Error), ws)
    ensures SubsOnlyDiffer(Marked(ws0[pos := ws0[pos].(colDeps := cv, rowDeps := rv, rowTree := None)], pos, Error), ws)
  {
    var c := Cleared(ws0, names, pos);
    var z := ws0[pos := ws0[pos].(colDeps := {}, rowDeps := {}, rowTree := None)];
    ClearedSubsOnly(ws0, names, pos);
    var a := Marked(ws0[pos := ws0[pos].(colDeps := cv, rowDeps := rv, rowTree := None)], pos, Error);
    var b := Marked(c[pos := c[pos].(colDeps := cv, rowDeps := rv)], pos, Error);
    forall j | 0 <= j < |a| ensures b[j] == a[j].(colSubs := b[j].colSubs, rowSubs := b[j].rowSubs) {
      assert c[j] == z[j].(colSubs := c[j].colSubs, rowSubs := c[j].rowSubs);
    }
    SubsOnlyDifferTrans(a, b, ws);
  }

  /**
   * A subscription loop of _parse_formula: for each name in `deps`, in
   * whatever order the set yields them, the wrapper it resolves to in
   * `names` loses (or gains) `name` in its `g`-level subscriber set. A name
   * that resolves nowhere raises KeyError and ends the loop (`ok` false);
   * the names handled before it (`done`) stay handled.
   */
  method RewireAll(ws: seq<Wrapper>, names: seq<string>, deps: set<string>, name: string, g: Grain, add: bool)
    returns (ws': seq<Wrapper>, ok: bool, ghost done: set<string>)
    requires |names| == |ws|
    ensures ok <==> Resolves(names, deps)
    ensures done <= deps && (ok ==> done == deps)
    ensures ws' == Rewired(ws, Targets(names, done), g, name, add)
  {
    ws' := ws;
    var todo := deps;
    done := {};
    ok := true;
    while todo != {}
      invariant todo + done == deps && todo !! done
      invariant Resolves(names, done)
      invariant !ok ==> !Resolves(names, deps)
      invariant ws' == Rewired(ws, Targets(names, done), g, name, add)
      decreases |todo|
    {
      var d :| d in todo;
      if d !in names {
        ok := false;
        break;
      }
      var j := IndexOf(names, d);
      RewiredStep(ws, Targets(names, done), j, g, name, add);
      TargetsStep(names, done, d);
      ws' := ws'[j := WithSubs(ws'[j], g, if add then Subs(ws'[j], g) + {name} else Subs(ws'[j], g) - {name})];
      todo := todo - {d};
      done := done + {d};
    }
  }

  /** One more step of refresh's loop: one more wrapper, and the counter moved past one more id. */
  lemma WrapStep(ds: seq<Record>, i: nat)
    requires i < |ds|
    ensures FreshRealised(i) + [NewWrapper(true, -1, i)] == FreshRealised(i + 1)
    ensures IdCeiling(ds[..i + 1]) ==
            if ds[i].id >= IdCeiling(ds[..i]) then ds[i].id + 1 else IdCeiling(ds[..i])
  {
    assert ds[..i + 1][..i] == ds[..i];
  }

  class InstanceModel {
    /**
     * has_dataset: whether a dataset has been set. Until then `dataset` is
     * only a placeholder, and every operation that reaches the storage
     * raises in the source, so each of them requires it.
     */
    var hasDataset: bool
    /** The storage columns, in order. */
    var dataset: seq<Record>
    /** The storage's row count; fresh storage columns get this many rows. */
    var rowCount: nat
    /** The column wrappers, in display order. */
    var columns: seq<Wrapper>
    var nextId: int

    ghost predicate Valid()
      reads this
    {
      hasDataset && WellFormed(dataset, columns, nextId)
    }

    /** No two wrappers read as the same id. */
    ghost predicate DistinctIds()
      reads this
    {
      Distinct(Ids())
    }

    function Ids(): seq<int>
      reads this
    {
      IdsOf(dataset, columns)
    }

    function Names(): seq<string>
      reads this
    {
      NamesOf(dataset, columns)
    }

    /** column_count: the number of realised columns. */
    function ColumnCount(): nat
      reads this
      requires hasDataset
    {
      |dataset|
    }

    /** virtual_column_count: the number of wrappers, realised or not. */
    function VirtualColumnCount(): nat
      reads this
    {
      |columns|
    }

    /** A new model: no dataset yet, no wrappers, and the counter at 0. */
    constructor ()
      ensures !hasDataset && columns == [] && nextId == 0
      ensures dataset == [] && rowCount == 0
    {
      hasDataset := false;
      dataset := [];
      rowCount := 0;
      columns := [];
      nextId := 0;
    }

    /** The dataset setter: storage is replaced; the wrappers are stale until Refresh. */
    method SetDataset(records: seq<Record>, rows: nat)
      modifies this
      ensures hasDataset && dataset == records && rowCount == rows
      ensures columns == old(columns) && nextId == old(nextId)
    {
      hasDataset := true;
      dataset := records;
      rowCount := rows;
    }

    /**
     * `model[i]` with an integer: Python list indexing, negative counting
     * from the end; None where Python raises IndexError.
     */
    function ColumnAt(i: int): (r: Option<nat>)
      reads this
      ensures r.Some? <==> -|columns| <= i < |columns|
      ensures r.Some? ==> r.value < |columns| && (r.value == i || r.value == |columns| + i)
      ensures r.Some? && Valid() ==> columns[r.value].index == (if i >= 0 then i else |columns| + i)
    {
      if 0 <= i < |columns| then Some(i)
      else if -|columns| <= i < 0 then Some(|columns| + i)
      else None
    }

    /** `model[name]`: the first wrapper reading as `name`; None where Python raises KeyError. */
    function ColumnByName(name: string): (r: Option<nat>)
      reads this
      ensures r.Some? ==> r.value < |columns| && Names()[r.value] == name
      ensures r.Some? ==> forall j :: 0 <= j < r.value ==> Names()[j] != name
      ensures r.None? ==> forall j :: 0 <= j < |columns| ==> Names()[j] != name
    {
      if name in Names() then Some(IndexOf(Names(), name)) else None
    }

    /** get_column_by_id: the first wrapper reading as `id`; None where the source raises KeyError. */
    function ColumnById(id: int): (r: Option<nat>)
      reads this
      ensures r.Some? ==> r.value < |columns| && Ids()[r.value] == id
      ensures r.Some? ==> forall j :: 0 <= j < r.value ==> Ids()[j] != id
      ensures r.None? ==> forall j :: 0 <= j < |columns| ==> Ids()[j] != id
    {
      if id in Ids() then Some(IndexOf(Ids(), id)) else None
    }

    /**
     * append_column: storage gains a fresh column with the next id. No
     * wrapper is made; the caller refreshes afterwards.
     */
    method AppendColumn(name: string, importName: string) returns (id: int)
      requires hasDataset
      modifies this
      ensures hasDataset
      ensures id == old(nextId) && nextId == old(nextId) + 1
      ensures dataset == old(dataset) + [FreshRecord(name, importName, id, rowCount)]
      ensures columns == old(columns) && rowCount == old(rowCount)
    {
      id := nextId;
      dataset := dataset + [FreshRecord(name, importName, id, rowCount)];
      nextId := nextId + 1;
    }

    /**
     * _add_virtual_columns: appends virtual wrappers, each with the next id
     * and its own position as index, until N_VIRTUAL_COLS follow the
     * realised columns.
     */
    method AddVirtualColumns()
      requires hasDataset
      modifies this
      ensures hasDataset
      ensures dataset == old(dataset) && rowCount == old(rowCount)
      ensures columns == Padded(old(columns), |dataset|, old(nextId))
      ensures nextId == old(nextId) + PadCount(|old(columns)|, |dataset|)
      ensures old(Valid()) ==> Valid() && |columns| - |dataset| >= N_VIRTUAL_COLS
      ensures old(Valid()) && old(|columns|) - |dataset| <= N_VIRTUAL_COLS ==> |columns| - |dataset| == N_VIRTUAL_COLS
      ensures old(Valid() && DistinctIds()) ==> DistinctIds()
    {
      var nVirtual := |columns| - |dataset|;
      var i := nVirtual;
      ghost var k := 0;
      while i < N_VIRTUAL_COLS
        invariant i == nVirtual + k && 0 <= k <= PadCount(|old(columns)|, |dataset|)
        invariant columns == old(columns) + seq(k, j => NewWrapper(false, old(nextId) + j, |old(columns)| + j))
        invariant nextId == old(nextId) + k
        invariant dataset == old(dataset) && rowCount == old(rowCount) && hasDataset
      {
        var index := |columns|;
        columns := columns + [NewWrapper(false, nextId, index)];
        nextId := nextId + 1;
        i := i + 1;
        k := k + 1;
      }
      if old(Valid()) {
        PaddedWellFormed(old(dataset), old(columns), old(nextId));
      }
    }

    /**
     * _gen_column_name: the bijective base-26 letters for `index`, made
     * unique among the storage columns' names by the smallest free suffix.
     */
    method GenColumnName(index: nat) returns (name: string)
      requires hasDataset
      ensures name == DefaultName(index, TakenNames(dataset))
    {
      // the letters, last first
      var idx: int := index;
      var base := "";
      while true
        invariant 0 <= idx && Letters(index) == Letters(idx) + base
        decreases idx
      {
        var i := idx % 26;
        base := [(i + 65) as char] + base;
        idx := (idx - i) / 26 - 1;
        if idx < 0 {
          break;
        }
      }
      // the first candidate no storage column carries
      ghost var taken := TakenNames(dataset);
      FreeIndexLeast(base, taken, 1);
      var k := 1;
      var tryName := base;
      while true
        invariant 1 <= k <= FreeIndex(base, taken, 1) && tryName == Candidate(base, k)
        invariant forall j :: 1 <= j < k ==> Candidate(base, j) in taken
        decreases FreeIndex(base, taken, 1) - k
      {
        var found := false;
        var c := 0;
        while c < |dataset| && !found
          invariant 0 <= c <= |dataset|
          invariant found ==> tryName in taken
          invariant !found ==> forall m :: 0 <= m < c ==> dataset[m].name != tryName
        {
          if dataset[c].name == tryName {
            found := true;
          }
          c := c + 1;
        }
        if !found {
          name := tryName;
          FreeIndexUnique(base, taken, 1, k);
          break;
        }
        k := k + 1;
        tryName := base + " (" + NatStr(k) + ")";
      }
    }

    /**
     * _realise_column: every virtual wrapper from the first unrealised
     * position up to `pos` gets a storage column with a default name, its own
     * id and auto-measure set; then padding is restored.
     */
    method RealiseColumn(pos: nat)
      requires Valid() && pos < |columns|
      modifies this
      ensures Valid() && rowCount == old(rowCount)
      ensures |dataset| == if pos < old(|dataset|) then old(|dataset|) else pos + 1
      ensures FilledGap(old(dataset), old(Ids()), dataset, rowCount)
      ensures columns == Padded(Flagged(old(columns), |dataset|), |dataset|, old(nextId))
      ensures nextId == old(nextId) + PadCount(|old(columns)|, |dataset|)
      ensures Ids()[..old(|columns|)] == old(Ids())
      ensures old(DistinctIds()) ==> DistinctIds()
    {
      ghost var ids := Ids();
      var i := |dataset|;
      while i < pos + 1
        invariant old(|dataset|) <= i == |dataset| <= |columns| == old(|columns|)
        invariant i <= pos + 1 || i == old(|dataset|)
        invariant FilledGap(old(dataset), ids, dataset, rowCount)
        invariant columns == Flagged(old(columns), |dataset|)
        invariant nextId == old(nextId) && rowCount == old(rowCount)
        invariant Ids() == ids
        invariant Valid()
      {
        var name := GenColumnName(i);
        RealiseStep(old(dataset), old(columns), ids, dataset, columns, nextId, rowCount, name);
        var wrapper := columns[i];
        var child := FreshRecord(name, "", wrapper.vid, rowCount).(autoMeasure := true);
        dataset := dataset + [child];
        columns := columns[i := wrapper.(realised := true)];
        i := i + 1;
      }
      AddVirtualColumns();
    }

    /**
     * The first half of refresh: one fresh realised wrapper per storage
     * column, and the id counter moved past every storage id.
     */
    method WrapStorage()
      requires hasDataset
      modifies this
      ensures hasDataset
      ensures dataset == old(dataset) && rowCount == old(rowCount)
      ensures columns == FreshRealised(|dataset|) && nextId == IdCeiling(dataset)
    {
      var ws: seq<Wrapper> := [];
      var n := 0;
      var index := 0;
      while index < |dataset|
        modifies {}
        invariant index <= |dataset|
        invariant ws == FreshRealised(index)
        invariant n == IdCeiling(dataset[..index])
      {
        WrapStep(dataset, index);
        var column := NewWrapper(true, -1, index);
        ws := ws + [column];
        if dataset[index].id >= n {
          n := dataset[index].id + 1;
        }
        index := index + 1;
      }
      assert dataset[..index] == dataset;
      columns, nextId := ws, n;
    }

    /** refresh: rebuild the wrappers over the storage, then pad. */
    method Refresh()
      requires hasDataset
      modifies this
      ensures Valid()
      ensures dataset == old(dataset) && rowCount == old(rowCount)
      ensures columns == Padded(FreshRealised(|dataset|), |dataset|, IdCeiling(dataset))
      ensures |columns| == |dataset| + N_VIRTUAL_COLS
      ensures nextId == IdCeiling(dataset) + N_VIRTUAL_COLS
      ensures (forall i, j :: 0 <= i < j < |dataset| ==> dataset[i].id != dataset[j].id) ==> DistinctIds()
    {
      WrapStorage();
      RefreshedWellFormed(dataset, columns);
      AddVirtualColumns();
    }

    /**
     * insert_column: a new realised column with a default name, auto-measure
     * and the next id goes in at `index`; the wrappers after it move one
     * place right and every index is renumbered. No padding is added.
     */
    method InsertColumn(index: nat)
      requires Valid() && index <= |dataset|
      modifies this
      ensures dataset == old(dataset)[..index] +
        [GapRecord(DefaultName(index, TakenNames(old(dataset))), old(nextId), rowCount)] + old(dataset)[index..]
      ensures columns == InsertedWrappers(old(columns), index)
      ensures rowCount == old(rowCount) && nextId == old(nextId) + 1
      ensures Valid() && Ids() == old(Ids())[..index] + [old(nextId)] + old(Ids())[index..]
      ensures old(DistinctIds()) ==> DistinctIds()
    {
      var name := GenColumnName(index);
      var ins := FreshRecord(name, "", nextId, rowCount).(autoMeasure := true);
      InsertedWellFormed(dataset, columns, nextId, index, ins);
      dataset := dataset[..index] + [ins] + dataset[index..];
      nextId := nextId + 1;
      columns := columns[..index] + [NewWrapper(true, -1, -1)] + columns[index..];
      ghost var grown := columns;
      var i := 0;
      while i < |columns|
        invariant 0 <= i <= |columns| == |grown|
        invariant dataset == old(dataset)[..index] + [ins] + old(dataset)[index..]
        invariant nextId == old(nextId) + 1 && rowCount == old(rowCount) && hasDataset
        invariant columns == Renumbered(grown, 0, i)
      {
        columns := columns[i := columns[i].(index := i)];
        i := i + 1;
      }
    }

    /**
     * delete_columns: the wrappers at positions start..end inclusive go, and
     * the storage columns among them; the rest keep their order and edges and
     * are renumbered from `start`. No padding is added.
     */
    method DeleteColumns(start: nat, end: nat)
      requires Valid() && start <= end < |columns|
      modifies this
      ensures dataset == DeletedStorage(old(dataset), start, end)
      ensures columns == DeletedWrappers(old(columns), start, end)
      ensures rowCount == old(rowCount) && nextId == old(nextId)
      ensures Valid() && Ids() == old(Ids())[..start] + old(Ids())[end + 1..]
      ensures old(DistinctIds()) ==> DistinctIds()
    {
      DeletedWellFormed(dataset, columns, nextId, start, end);
      var lo := if start < |dataset| then start else |dataset|;
      var hi := if end + 1 < |dataset| then end + 1 else |dataset|;
      dataset := dataset[..lo] + dataset[hi..];
      columns := columns[..start] + columns[end + 1..];
      ghost var cut := columns;
      var i := start;
      while i < |columns|
        invariant start <= i <= |columns| == |cut|
        invariant dataset == DeletedStorage(old(dataset), start, end)
        invariant nextId == old(nextId) && rowCount == old(rowCount) && hasDataset
        invariant columns == Renumbered(cut, start, i)
      {
        columns := columns[i := columns[i].(index := i)];
        i := i + 1;
      }
    }

    // ---- the Column wrapper's lazy-proxy side ----

    /** The storage column behind the wrapper at `pos`, if it is realised. */
    function Child(pos: nat): (c: Option<Record>)
      reads this
      requires Valid() && pos < |columns|
      ensures c.Some? <==> columns[pos].realised
      ensures c.Some? <==> pos < |dataset|
      ensures c.Some? ==> c.value == dataset[pos]
    {
      if columns[pos].realised then Some(dataset[pos]) else None
    }

    /** The read accessors of the column at `pos`; a virtual column reads the defaults. */
    function ProfileAt(pos: nat): (p: Profile)
      reads this
      requires Valid() && pos < |columns|
      ensures pos >= |dataset| ==> p == VIRTUAL
      ensures pos < |dataset| ==>
                var r := dataset[pos];
                p.name == r.name && p.importName == r.importName && p.columnType == r.columnType &&
                p.measureType == r.measureType && p.autoMeasure == r.autoMeasure && p.dps == r.dps &&
                p.formula == r.formula && p.message == r.message && p.levels == r.levels && p.rowCount == |r.cells|
    {
      ProfileOf(Child(pos))
    }

    /** `column[row]`: a virtual column reads the missing-integer sentinel in every row. */
    function Get(pos: nat, row: nat): (v: Value)
      reads this
      requires Valid() && pos < |columns|
      ensures pos >= |dataset| ==> v == Int(MISSING_INT)
      ensures pos < |dataset| ==> v == ReadCell(dataset[pos], row)
    {
      CellOf(Child(pos), row)
    }

    /** realise / _create_child: realises the column at `pos` unless it already is. */
    method Realise(pos: nat)
      requires Valid() && pos < |columns|
      modifies this
      ensures RealisedFrom(old(dataset), old(columns), old(nextId), rowCount, pos, dataset, columns, nextId)
      ensures Valid() && rowCount == old(rowCount)
      ensures old(DistinctIds()) ==> DistinctIds()
    {
      if !columns[pos].realised {
        RealiseColumn(pos);
      }
    }

    /** Stores `r` as the storage column at `pos`; it keeps the id, so the invariant holds. */
    method Store(pos: nat, r: Record)
      requires Valid() && pos < |dataset| && r.id == dataset[pos].id
      modifies this
      ensures dataset == old(dataset)[pos := r]
      ensures columns == old(columns) && nextId == old(nextId) && rowCount == old(rowCount)
      ensures Valid() && Ids() == old(Ids())
    {
      IdsKept(dataset, dataset[pos := r], columns, nextId);
      dataset := dataset[pos := r];
    }

    /** The name setter: realises first, then renames the storage column. */
    method SetName(pos: nat, name: string) returns (ghost realised: seq<Record>)
      requires Valid() && pos < |columns|
      modifies this
      ensures RealisedFrom(old(dataset), old(columns), old(nextId), rowCount, pos, realised, columns, nextId)
      ensures dataset == realised[pos := realised[pos].(name := name)]
      ensures Valid() && rowCount == old(rowCount) && (old(DistinctIds()) ==> DistinctIds())
      ensures ProfileAt(pos).name == name
    {
      Realise(pos);
      realised := dataset;
      Store(pos, dataset[pos].(name := name));
    }

    /** The column_type setter. */
    method SetColumnType(pos: nat, columnType: ColumnType) returns (ghost realised: seq<Record>)
      requires Valid() && pos < |columns|
      modifies this
      ensures RealisedFrom(old(dataset), old(columns), old(nextId), rowCount, pos, realised, columns, nextId)
      ensures dataset == realised[pos := realised[pos].(columnType := columnType)]
      ensures Valid() && rowCount == old(rowCount) && (old(DistinctIds()) ==> DistinctIds())
      ensures ProfileAt(pos).columnType == columnType
    {
      Realise(pos);
      realised := dataset;
      Store(pos, dataset[pos].(columnType := columnType));
    }

    /** The measure_type setter. */
    method SetMeasureType(pos: nat, measureType: MeasureType) returns (ghost realised: seq<Record>)
      requires Valid() && pos < |columns|
      modifies this
      ensures RealisedFrom(old(dataset), old(columns), old(nextId), rowCount, pos, realised, columns, nextId)
      ensures dataset == realised[pos := realised[pos].(measureType := measureType)]
      ensures Valid() && rowCount == old(rowCount) && (old(DistinctIds()) ==> DistinctIds())
      ensures ProfileAt(pos).measureType == measureType
    {
      Realise(pos);
      realised := dataset;
      Store(pos, dataset[pos].(measureType := measureType));
    }

    /** The auto_measure setter. */
    method SetAutoMeasure(pos: nat, auto: bool) returns (ghost realised: seq<Record>)
      requires Valid() && pos < |columns|
      modifies this
      ensures RealisedFrom(old(dataset), old(columns), old(nextId), rowCount, pos, realised, columns, nextId)
      ensures dataset == realised[pos := realised[pos].(autoMeasure := auto)]
      ensures Valid() && rowCount == old(rowCount) && (old(DistinctIds()) ==> DistinctIds())
      ensures ProfileAt(pos).autoMeasure == auto
    {
      Realise(pos);
      realised := dataset;
      Store(pos, dataset[pos].(autoMeasure := auto));
    }

    /** The dps setter. */
    method SetDps(pos: nat, dps: int) returns (ghost realised: seq<Record>)
      requires Valid() && pos < |columns|
      modifies this
      ensures RealisedFrom(old(dataset), old(columns), old(nextId), rowCount, pos, realised, columns, nextId)
      ensures dataset == realised[pos := realised[pos].(dps := dps)]
      ensures Valid() && rowCount == old(rowCount) && (old(DistinctIds()) ==> DistinctIds())
      ensures ProfileAt(pos).dps == dps
    {
      Realise(pos);
      realised := dataset;
      Store(pos, dataset[pos].(dps := dps));
    }

    /**
     * `column[row] = value`: realises first, then writes the cell. The row
     * must lie within the storage column (a fresh one has `rowCount` rows).
     */
    method SetCell(pos: nat, row: nat, value: Value) returns (ghost realised: seq<Record>)
      requires Valid() && pos < |columns|
      requires row < if pos < |dataset| then |dataset[pos].cells| else rowCount
      modifies this
      ensures RealisedFrom(old(dataset), old(columns), old(nextId), rowCount, pos, realised, columns, nextId)
      ensures row < |realised[pos].cells|
      ensures dataset == realised[pos := realised[pos].(cells := realised[pos].cells[row := value])]
      ensures Valid() && rowCount == old(rowCount) && (old(DistinctIds()) ==> DistinctIds())
      ensures Get(pos, row) == value
    {
      Realise(pos);
      realised := dataset;
      if pos >= old(|dataset|) {
        assert dataset[pos] == GapRecord(DefaultName(pos, TakenNames(dataset[..pos])), old(Ids())[pos], rowCount);
      }
      Store(pos, dataset[pos].(cells := dataset[pos].cells[row := value]));
    }

    /** append: realises first, then adds a cell at the end of the storage column. */
    method Append(pos: nat, value: Value) returns (ghost realised: seq<Record>)
      requires Valid() && pos < |columns|
      modifies this
      ensures RealisedFrom(old(dataset), old(columns), old(nextId), rowCount, pos, realised, columns, nextId)
      ensures dataset == realised[pos := realised[pos].(cells := realised[pos].cells + [value])]
      ensures Valid() && rowCount == old(rowCount) && (old(DistinctIds()) ==> DistinctIds())
      ensures ProfileAt(pos).rowCount == |realised[pos].cells| + 1 && Get(pos, |realised[pos].cells|) == value
    {
      Realise(pos);
      realised := dataset;
      Store(pos, dataset[pos].(cells := dataset[pos].cells + [value]));
    }

    /** insert_level: realises first, then adds the level to the storage column's level table. */
    method InsertLevel(pos: nat, raw: int, caption: string) returns (ghost realised: seq<Record>)
      requires Valid() && pos < |columns|
      modifies this
      ensures RealisedFrom(old(dataset), old(columns), old(nextId), rowCount, pos, realised, columns, nextId)
      ensures dataset == realised[pos := realised[pos].(levels := realised[pos].levels + [Level(raw, caption)])]
      ensures Valid() && rowCount == old(rowCount) && (old(DistinctIds()) ==> DistinctIds())
      ensures HasLevels(ProfileAt(pos)) && LevelCount(ProfileAt(pos)) == |realised[pos].levels| + 1
    {
      Realise(pos);
      realised := dataset;
      Store(pos, dataset[pos].(levels := dataset[pos].levels + [Level(raw, caption)]));
    }

    /** clear_levels: realises first, then empties the level table. */
    method ClearLevels(pos: nat) returns (ghost realised: seq<Record>)
      requires Valid() && pos < |columns|
      modifies this
      ensures RealisedFrom(old(dataset), old(columns), old(nextId), rowCount, pos, realised, columns, nextId)
      ensures dataset == realised[pos := realised[pos].(levels := [])]
      ensures Valid() && rowCount == old(rowCount) && (old(DistinctIds()) ==> DistinctIds())
      ensures !HasLevels(ProfileAt(pos)) && LevelCount(ProfileAt(pos)) == 0
    {
      Realise(pos);
      realised := dataset;
      Store(pos, dataset[pos].(levels := []));
    }

    /** Iterating a column: realises first, then yields the storage column's cells. */
    method Cells(pos: nat) returns (cells: seq<Value>)
      requires Valid() && pos < |columns|
      modifies this
      ensures RealisedFrom(old(dataset), old(columns), old(nextId), rowCount, pos, dataset, columns, nextId)
      ensures cells == dataset[pos].cells
      ensures Valid() && rowCount == old(rowCount) && (old(DistinctIds()) ==> DistinctIds())
    {
      Realise(pos);
      cells := dataset[pos].cells;
    }

    // ---- the Column wrapper's formula side ----

    /**
     * One subscription loop of _parse_formula on the model's wrappers; see
     * `RewireAll`.
     */
    method Rewire(deps: set<string>, name: string, g: Grain, add: bool) returns (ok: bool, ghost done: set<string>)
      requires Valid()
      modifies this
      ensures dataset == old(dataset) && nextId == old(nextId) && rowCount == old(rowCount)
      ensures ok <==> Resolves(old(Names()), deps)
      ensures done <= deps && (ok ==> done == deps)
      ensures columns == Rewired(old(columns), Targets(old(Names()), done), g, name, add)
      ensures Valid() && Names() == old(Names()) && Ids() == old(Ids())
    {
      var ws;
      ws, ok, done := RewireAll(columns, Names(), deps, name, g, add);
      RewiredShape(columns, Targets(Names(), done), g, name, add);
      ShapeKept(dataset, columns, ws, nextId);
      columns := ws;
    }

    /**
     * recalc: rows [start, end), by default every row, are written with
     * their value under the column's row tree, or missing where there is no
     * tree or the row's evaluation fails; decimal places are determined
     * again only when there is a tree. A column whose formula was never
     * parsed has no row tree at all: the source raises AttributeError before
     * writing anything, and `ok` is false.
     */
    method Recalc(pos: nat, start: Option<nat>, end: Option<nat>, eval: (RowTree, nat) -> Option<Value>,
                  dpsOf: seq<Value> -> int) returns (ok: bool)
      requires Valid() && pos < |columns|
      requires columns[pos].status.Some? && end.Some? ==> pos < |dataset| && end.value <= |dataset[pos].cells|
      modifies this
      ensures columns == old(columns) && nextId == old(nextId) && rowCount == old(rowCount)
      ensures ok <==> columns[pos].status.Some?
      ensures !ok ==> dataset == old(dataset)
      ensures ok ==>
                pos < |dataset| &&
                dataset == old(dataset)[pos := RecalcRecord(old(dataset[pos]), columns[pos].rowTree, eval, dpsOf,
                                                            start.GetOr(0), end.GetOr(|old(dataset[pos].cells)|))]
      ensures Valid() && Ids() == old(Ids()) && Names() == old(Names())
    {
      if columns[pos].status.None? {
        return false;
      }
      ok := true;
      assert pos < |dataset|;
      var tree := columns[pos].rowTree;
      var first := start.GetOr(0);
      var last := end.GetOr(|dataset[pos].cells|);
      var r := dataset[pos];
      var cells := r.cells;
      var row := first;
      RecalculatedEmpty(r.cells, tree, eval, first, first);
      while row < last
        modifies {}
        invariant first <= row && (row <= last || row == first) && last <= |r.cells|
        invariant cells == Recalculated(r.cells, tree, eval, first, row)
      {
        var value := RowValue(tree, eval, row);
        RecalculatedStep(r.cells, tree, eval, first, row);
        cells := cells[row := value];
        row := row + 1;
      }
      if last < first {
        RecalculatedEmpty(r.cells, tree, eval, first, last);
      }
      r := r.(cells := cells);
      if tree.Some? {
        r := r.(dps := dpsOf(cells));
      }
      dataset := dataset[pos := r];
      IdsKept(old(dataset), dataset, columns, nextId);
      NamesKept(old(dataset), dataset, columns);
    }

    /**
     * The first half of _parse_formula: the column's name is withdrawn from
     * the subscriber sets of its column-level, then its row-level
     * dependencies, and its dependency sets and row tree are cleared. A
     * dependency that resolves nowhere raises KeyError part way (`ok` false).
     */
    method Unsubscribe(pos: nat) returns (ok: bool)
      requires Valid() && pos < |dataset|
      modifies this
      ensures dataset == old(dataset) && nextId == old(nextId) && rowCount == old(rowCount)
      ensures ok <==> !StaleDeps(old(Names()), old(columns[pos]))
      ensures ok ==> columns == Cleared(old(columns), old(Names()), pos)
      ensures !ok ==> SubsOnlyDiffer(old(columns), columns)
      ensures Valid() && Ids() == old(Ids()) && Names() == old(Names())
    {
      ghost var ws0, names := columns, Names();
      var name := dataset[pos].name;
      var w := columns[pos];
      ghost var done;
      ok, done := Rewire(w.colDeps, name, ColumnGrain, false);
      RewiredSubsOnly(ws0, Targets(names, done), ColumnGrain, name, false);
      if !ok {
        return;
      }
      ghost var ws1 := columns;
      ok, done := Rewire(w.rowDeps, name, RowGrain, false);
      RewiredSubsOnly(ws1, Targets(names, done), RowGrain, name, false);
      if !ok {
        SubsOnlyDifferTrans(ws0, ws1, columns);
        return;
      }
      RewiredShape(columns, {}, RowGrain, name, false);
      columns := columns[pos := columns[pos].(colDeps := {}, rowDeps := {}, rowTree := None)];
      ShapeKept(dataset, ws1, columns, nextId);
    }

    /**
     * Installing the extracted dependencies: the column's dependency sets
     * become `cv` and `rv`, then its name is added to the subscriber sets of
     * each column-level, then each row-level dependency. A name that
     * resolves nowhere raises KeyError part way (`ok` false).
     */
    method Subscribe(pos: nat, cv: set<string>, rv: set<string>) returns (ok: bool)
      requires Valid() && pos < |dataset|
      modifies this
      ensures dataset == old(dataset) && nextId == old(nextId) && rowCount == old(rowCount)
      ensures ok <==> Resolves(old(Names()), cv) && Resolves(old(Names()), rv)
      ensures ok ==> columns == Linking(old(columns), old(Names()), pos, cv, rv)
      ensures !ok ==> SubsOnlyDiffer(old(columns)[pos := old(columns[pos]).(colDeps := cv, rowDeps := rv)], columns)
      ensures Valid() && Ids() == old(Ids()) && Names() == old(Names())
    {
      ghost var names := Names();
      var name := dataset[pos].name;
      ShapeKept(dataset, columns, columns[pos := columns[pos].(colDeps := cv, rowDeps := rv)], nextId);
      columns := columns[pos := columns[pos].(colDeps := cv, rowDeps := rv)];
      ghost var ws0 := columns;
      ghost var done;
      ok, done := Rewire(cv, name, ColumnGrain, true);
      RewiredSubsOnly(ws0, Targets(names, done), ColumnGrain, name, true);
      if !ok {
        return;
      }
      ghost var ws1 := columns;
      ok, done := Rewire(rv, name, RowGrain, true);
      RewiredSubsOnly(ws1, Targets(names, done), RowGrain, name, true);
      if !ok {
        SubsOnlyDifferTrans(ws0, ws1, columns);
      }
    }

    /**
     * The second half of _parse_formula on wrappers already cleared: the
     * self-reference check and the checker, then subscribing, then the
     * lowered tree; the status and message follow the first failure.
     */
    method Reinstall(pos: nat, p: Pipeline) returns (message: string)
      requires Valid() && pos < |dataset|
      modifies this
      ensures dataset == old(dataset) && nextId == old(nextId) && rowCount == old(rowCount)
      ensures UnknownVars(old(Names()), dataset[pos].name, p) ==>
                SubsOnlyDiffer(Marked(old(columns)[pos := old(columns[pos]).(colDeps := p.colVars, rowDeps := p.rowVars)],
                                      pos, Error), columns)
      ensures !UnknownVars(old(Names()), dataset[pos].name, p) ==>
                columns == Reinstalled(old(columns), old(Names()), pos, p) &&
                message == ReparseMessage(dataset[pos].name, p)
      ensures UnknownVars(old(Names()), dataset[pos].name, p) ==> message == Message(KEY_ERROR)
      ensures columns[pos].status.Some?
      ensures Valid() && Ids() == old(Ids()) && Names() == old(Names())
    {
      var name := dataset[pos].name;
      assert name == Names()[pos];
      if !Installs(name, p) {
        ReplacedAt(dataset, columns, nextId, pos, columns[pos].(status := Some(Error)));
        columns := Marked(columns, pos, Error);
        message := match p
          case Aborted(f) => Message(f)
          case Extracted(_, _, _, check, _) =>
            if SelfReferent(name, p) then Message(Recursion) else Message(check.value);
        return;
      }
      ghost var c := columns;
      var ok := Subscribe(pos, p.colVars, p.rowVars);
      if !ok {
        MarkedSubsOnly(c[pos := c[pos].(colDeps := p.colVars, rowDeps := p.rowVars)], columns, pos, Error);
        ReplacedAt(dataset, columns, nextId, pos, columns[pos].(status := Some(Error)));
        columns := Marked(columns, pos, Error);
        message := Message(KEY_ERROR);
        return;
      }
      var w := columns[pos];
      match p.lowered
      case Failure(e) =>
        ReplacedAt(dataset, columns, nextId, pos, w.(status := Some(Error)));
        columns := Marked(columns, pos, Error);
        message := Message(e);
      case Success(t) =>
        var w' := w.(status := Some(if p.isEmpty then Empty else Ok), rowTree := Some(t));
        ReplacedAt(dataset, columns, nextId, pos, w');
        columns := columns[pos := w'];
        message := "";
    }

    /**
     * The wrapper side of _parse_formula: unsubscribe; a KeyError there
     * marks the column ERROR; otherwise `Reinstall`.
     */
    method Resubscribe(pos: nat, p: Pipeline) returns (message: string)
      requires Valid() && pos < |dataset|
      modifies this
      ensures dataset == old(dataset) && nextId == old(nextId) && rowCount == old(rowCount)
      ensures ParsedWrappers(old(columns), old(Names()), pos, p, columns)
      ensures message == ParseMessage(old(Names()), dataset[pos].name, old(columns[pos]), p)
      ensures columns[pos].status.Some?
      ensures Valid() && Ids() == old(Ids()) && Names() == old(Names())
    {
      ghost var ws0 := columns;
      var ok := Unsubscribe(pos);
      if !ok {
        MarkedSubsOnly(ws0, columns, pos, Error);
        ReplacedAt(dataset, columns, nextId, pos, columns[pos].(status := Some(Error)));
        columns := Marked(columns, pos, Error);
        message := Message(KEY_ERROR);
        return;
      }
      ghost var names := Names();
      message := Reinstall(pos, p);
      if UnknownVars(names, dataset[pos].name, p) {
        UnknownVarsShape(ws0, names, pos, p.colVars, p.rowVars, columns);
      }
    }

    /**
     * _parse_formula for the realised column at `pos`, with `p` the outcome
     * of the external stages on its formula: the wrappers are rewired as
     * `Resubscribe` says, the message stored, and every row recalculated.
     */
    method ParseFormula(pos: nat, p: Pipeline, eval: (RowTree, nat) -> Option<Value>, dpsOf: seq<Value> -> int)
      requires Valid() && pos < |dataset|
      modifies this
      ensures Parsed(old(dataset), old(columns), pos, p, eval, dpsOf, dataset, columns)
      ensures nextId == old(nextId) && rowCount == old(rowCount)
      ensures Valid() && Ids() == old(Ids()) && Names() == old(Names())
    {
      var message := Resubscribe(pos, p);
      Store(pos, dataset[pos].(message := message));
      NamesKept(old(dataset), dataset, columns);
      var ok := Recalc(pos, None, None, eval, dpsOf);
    }

    /**
     * change: realises first; every field given replaces the stored one;
     * the formula is reparsed, with pipeline outcome `p`, only when a
     * formula is given and differs from the stored text, so the same text
     * leaves the dependency state untouched.
     */
    method Change(pos: nat, name: Option<string>, columnType: Option<ColumnType>, measureType: Option<MeasureType>,
                  levels: Option<seq<Level>>, dps: Option<int>, autoMeasure: Option<bool>, formula: Option<string>,
                  p: Pipeline, eval: (RowTree, nat) -> Option<Value>, dpsOf: seq<Value> -> int)
      returns (reparsed: bool, ghost realised: seq<Record>, ghost wrapped: seq<Wrapper>)
      requires Valid() && pos < |columns|
      modifies this
      ensures RealisedFrom(old(dataset), old(columns), old(nextId), rowCount, pos, realised, wrapped, nextId)
      ensures reparsed <==> formula.Some? && formula.value != realised[pos].formula
      ensures var changed := realised[pos := ApplyChange(realised[pos], name, columnType, measureType, levels, dps,
                                                         autoMeasure, formula)];
              if reparsed then Parsed(changed, wrapped, pos, p, eval, dpsOf, dataset, columns)
              else dataset == changed && columns == wrapped
      ensures Valid() && rowCount == old(rowCount) && (old(DistinctIds()) ==> DistinctIds())
    {
      Realise(pos);
      realised, wrapped := dataset, columns;
      reparsed := formula.Some? && formula.value != dataset[pos].formula;
      Store(pos, ApplyChange(dataset[pos], name, columnType, measureType, levels, dps, autoMeasure, formula));
      if reparsed {
        ParseFormula(pos, p, eval, dpsOf);
      }
    }
  }
}
