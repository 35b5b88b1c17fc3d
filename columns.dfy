/**
 * Column wrappers and the dependency graph between them. A wrapper carries
 * its position, its id while it is virtual, and four sets of column names:
 * the columns its formula depends on at column level and at row level, and
 * the columns subscribed to it at each level. Dependencies are keyed by
 * name: a name resolves to the first wrapper that carries it.
 */
module Columns {
  import opened Wrappers
  import opened Formula

  datatype FormulaStatus = Empty | Ok | Error

  datatype Grain = ColumnGrain | RowGrain

  /**
   * A column wrapper. `realised` says whether storage backs it; `vid` is the
   * id it carries while virtual; `status` is unset until its formula is first
   * parsed; `rowTree` is the row-lowered tree recalculation evaluates.
   */
  datatype Wrapper = Wrapper(
    realised: bool,
    vid: int,
    index: int,
    colDeps: set<string>,
    rowDeps: set<string>,
    colSubs: set<string>,
    rowSubs: set<string>,
    status: Option<FormulaStatus>,
    rowTree: Option<RowTree>)

  /** A new wrapper, unrealised unless storage is given, with no edges. */
  function NewWrapper(realised: bool, id: int, index: int): Wrapper {
    Wrapper(realised, id, index, {}, {}, {}, {}, None, None)
  }

  function Deps(w: Wrapper, g: Grain): set<string> {
    if g == ColumnGrain then w.colDeps else w.rowDeps
  }

  function Subs(w: Wrapper, g: Grain): set<string> {
    if g == ColumnGrain then w.colSubs else w.rowSubs
  }

  function WithSubs(w: Wrapper, g: Grain, s: set<string>): Wrapper {
    if g == ColumnGrain then w.(colSubs := s) else w.(rowSubs := s)
  }

  /** The position of the first occurrence of `d` (the first wrapper named `d`, for names). */
  function IndexOf<T(==)>(xs: seq<T>, d: T): (k: nat)
    requires d in xs
    ensures k < |xs| && xs[k] == d
    ensures forall j :: 0 <= j < k ==> xs[j] != d
  {
    if xs[0] == d then 0 else 1 + IndexOf(xs[1..], d)
  }

  /** The positions the names in `deps` resolve to (names that resolve nowhere are dropped). */
  function Targets(names: seq<string>, deps: set<string>): set<nat> {
    set d | d in deps && d in names :: IndexOf(names, d)
  }

  /** Every name in `deps` is carried by some wrapper, so looking it up raises no KeyError. */
  predicate Resolves(names: seq<string>, deps: set<string>) {
    forall d :: d in deps ==> d in names
  }

  /** The resolved targets of one more name are the earlier targets plus its position. */
  lemma TargetsStep(names: seq<string>, deps: set<string>, d: string)
    requires d in names
    ensures Targets(names, deps + {d}) == Targets(names, deps) + {IndexOf(names, d)}
  {
  }

  /** `vs` is `ws` with at most the subscriber sets changed. */
  predicate SubsOnlyDiffer(ws: seq<Wrapper>, vs: seq<Wrapper>) {
    |ws| == |vs| &&
    forall j :: 0 <= j < |ws| ==> vs[j] == ws[j].(colSubs := vs[j].colSubs, rowSubs := vs[j].rowSubs)
  }

  lemma SubsOnlyDifferTrans(a: seq<Wrapper>, b: seq<Wrapper>, c: seq<Wrapper>)
    requires SubsOnlyDiffer(a, b) && SubsOnlyDiffer(b, c)
    ensures SubsOnlyDiffer(a, c)
  {
    forall j | 0 <= j < |a| ensures c[j] == a[j].(colSubs := c[j].colSubs, rowSubs := c[j].rowSubs) {
      assert b[j] == a[j].(colSubs := b[j].colSubs, rowSubs := b[j].rowSubs);
    }
  }

  /** Removes (or adds) `name` in the `g`-level subscriber set of every wrapper at a target position. */
  function Rewired(ws: seq<Wrapper>, targets: set<nat>, g: Grain, name: string, add: bool): (r: seq<Wrapper>)
    ensures |r| == |ws|
  {
    seq(|ws|, j requires 0 <= j < |ws| =>
      if j in targets then WithSubs(ws[j], g, if add then Subs(ws[j], g) + {name} else Subs(ws[j], g) - {name})
      else ws[j])
  }

  /**
   * The first half of reparsing the wrapper at `pos`: its name is withdrawn
   * from the subscriber sets of its column-level and then its row-level
   * dependencies, and both its dependency sets are emptied.
   */
  function Unlinked(ws: seq<Wrapper>, names: seq<string>, pos: nat): (r: seq<Wrapper>)
    requires |ws| == |names| && pos < |ws|
    ensures |r| == |ws|
  {
    var a := Rewired(ws, Targets(names, ws[pos].colDeps), ColumnGrain, names[pos], false);
    var b := Rewired(a, Targets(names, ws[pos].rowDeps), RowGrain, names[pos], false);
    b[pos := b[pos].(colDeps := {}, rowDeps := {})]
  }

  /**
   * Installing new dependencies for the wrapper at `pos`: its dependency sets
   * become `cv` and `rv`, and its name is added to the matching subscriber
   * set of every column-level and then every row-level dependency.
   */
  function Linking(ws: seq<Wrapper>, names: seq<string>, pos: nat, cv: set<string>, rv: set<string>): (r: seq<Wrapper>)
    requires |ws| == |names| && pos < |ws|
    ensures |r| == |ws|
  {
    var a := ws[pos := ws[pos].(colDeps := cv, rowDeps := rv)];
    var b := Rewired(a, Targets(names, cv), ColumnGrain, names[pos], true);
    Rewired(b, Targets(names, rv), RowGrain, names[pos], true)
  }

  /** Every non-empty name is carried by at most one wrapper. */
  ghost predicate UniqueNames(names: seq<string>) {
    forall i, j :: 0 <= i < |names| && 0 <= j < |names| && names[i] == names[j] && names[i] != "" ==> i == j
  }

  /**
   * Dependencies and subscriptions at grain `g` mirror each other: A depends
   * on B exactly when B lists A among its subscribers, and every name on
   * either side resolves.
   */
  ghost predicate Linked(ws: seq<Wrapper>, names: seq<string>, g: Grain)
    requires |ws| == |names|
  {
    (forall a, d :: 0 <= a < |ws| && d in Deps(ws[a], g) ==>
       d != "" && d in names && names[a] in Subs(ws[IndexOf(names, d)], g)) &&
    (forall b, s :: 0 <= b < |ws| && s in Subs(ws[b], g) ==>
       s != "" && s in names && names[b] in Deps(ws[IndexOf(names, s)], g))
  }

  ghost predicate LinkedBoth(ws: seq<Wrapper>, names: seq<string>)
    requires |ws| == |names|
  {
    Linked(ws, names, ColumnGrain) && Linked(ws, names, RowGrain)
  }

  /** Under mirrored edges, a wrapper that reads no name has no edges at that grain. */
  lemma UnnamedNoEdges(ws: seq<Wrapper>, names: seq<string>, g: Grain, a: nat)
    requires |ws| == |names| && a < |ws| && Linked(ws, names, g)
    ensures names[a] == "" ==> Deps(ws[a], g) == {} && Subs(ws[a], g) == {}
  {
    if d :| d in Deps(ws[a], g) {
      assert names[a] in Subs(ws[IndexOf(names, d)], g);
    }
    if t :| t in Subs(ws[a], g) {
      assert names[a] in Deps(ws[IndexOf(names, t)], g);
    }
  }

  /**
   * Mirrored edges survive moving the wrappers: when every named wrapper `a`
   * reappears at `f(a)` under the same name with the same edges, every
   * wrapper that has edges afterwards is such an image (of `h(j)`), and the
   * new names are unique, the moved wrappers mirror each other too.
   */
  lemma LinkedMoved(ws: seq<Wrapper>, names: seq<string>, ws': seq<Wrapper>, names': seq<string>,
                    g: Grain, f: nat -> nat, h: nat -> nat)
    requires |ws| == |names| && |ws'| == |names'|
    requires Linked(ws, names, g) && UniqueNames(names')
    requires forall a: nat :: a < |ws| && names[a] != "" ==>
      f(a) < |ws'| && names'[f(a)] == names[a] && Deps(ws'[f(a)], g) == Deps(ws[a], g) &&
      Subs(ws'[f(a)], g) == Subs(ws[a], g)
    requires forall j: nat :: j < |ws'| && (Deps(ws'[j], g) != {} || Subs(ws'[j], g) != {}) ==>
      h(j) < |ws| && names[h(j)] != "" && f(h(j)) == j
    ensures Linked(ws', names', g)
  {
    forall j, d | 0 <= j < |ws'| && d in Deps(ws'[j], g)
      ensures d != "" && d in names' && names'[j] in Subs(ws'[IndexOf(names', d)], g)
    {
      var a := h(j);
      var k := IndexOf(names, d);
      IndexOfOwn(names', f(k));
    }
    forall j, s | 0 <= j < |ws'| && s in Subs(ws'[j], g)
      ensures s != "" && s in names' && names'[j] in Deps(ws'[IndexOf(names', s)], g)
    {
      var a := h(j);
      var k := IndexOf(names, s);
      IndexOfOwn(names', f(k));
    }
  }

  /**
   * Wrappers that keep their positions and edges, named ones keeping their
   * names, followed by wrappers with no edges, mirror each other as before.
   */
  lemma LinkedKept(ws: seq<Wrapper>, names: seq<string>, ws': seq<Wrapper>, names': seq<string>, g: Grain)
    requires |ws| == |names| && |ws| <= |ws'| == |names'|
    requires Linked(ws, names, g) && UniqueNames(names')
    requires forall j :: 0 <= j < |ws| ==> Deps(ws'[j], g) == Deps(ws[j], g) && Subs(ws'[j], g) == Subs(ws[j], g)
    requires forall j :: 0 <= j < |ws| && names[j] != "" ==> names'[j] == names[j]
    requires forall j :: |ws| <= j < |ws'| ==> Deps(ws'[j], g) == {} && Subs(ws'[j], g) == {}
    ensures Linked(ws', names', g)
  {
    forall j | 0 <= j < |ws| && names[j] == "" ensures Deps(ws[j], g) == {} && Subs(ws[j], g) == {} {
      UnnamedNoEdges(ws, names, g, j);
    }
    LinkedMoved(ws, names, ws', names', g, (a: nat) => a, (j: nat) => j);
  }

  /**
   * Wrappers shifted one place right from `index`, keeping their edges and,
   * named ones, their names, with a wrapper with no edges put in at `index`,
   * mirror each other as before.
   */
  lemma LinkedShifted(ws: seq<Wrapper>, names: seq<string>, ws': seq<Wrapper>, names': seq<string>, g: Grain,
                      index: nat)
    requires |ws| == |names| && index <= |ws| && |ws'| == |names'| == |ws| + 1
    requires Linked(ws, names, g) && UniqueNames(names')
    requires forall j :: 0 <= j < |ws'| && j != index ==>
      var k := if j < index then j else j - 1;
      Deps(ws'[j], g) == Deps(ws[k], g) && Subs(ws'[j], g) == Subs(ws[k], g) && (names[k] != "" ==> names'[j] == names[k])
    requires Deps(ws'[index], g) == {} && Subs(ws'[index], g) == {}
    ensures Linked(ws', names', g)
  {
    forall k | 0 <= k < |ws| && names[k] == "" ensures Deps(ws[k], g) == {} && Subs(ws[k], g) == {} {
      UnnamedNoEdges(ws, names, g, k);
    }
    var f := (a: nat) => if a < index then a else a + 1;
    var h := (j: nat) => if j <= index then j else j - 1;
    forall a: nat | a < |ws| && names[a] != ""
      ensures f(a) < |ws'| && names'[f(a)] == names[a] && Deps(ws'[f(a)], g) == Deps(ws[a], g) &&
              Subs(ws'[f(a)], g) == Subs(ws[a], g)
    {
      assert f(a) != index && (if f(a) < index then f(a) else f(a) - 1) == a;
    }
    forall j: nat | j < |ws'| && (Deps(ws'[j], g) != {} || Subs(ws'[j], g) != {})
      ensures h(j) < |ws| && names[h(j)] != "" && f(h(j)) == j
    {
      assert j != index && h(j) == if j < index then j else j - 1;
    }
    LinkedMoved(ws, names, ws', names', g, f, h);
  }

  /**
   * Renaming the wrapper at `pos` without touching any edge unmirrors the
   * graph whenever that wrapper has an edge: whoever depends on it, or
   * whoever it subscribed to, is left holding the old name, which no wrapper
   * carries any more.
   */
  lemma NamesRenamedUnlinks(ws: seq<Wrapper>, names: seq<string>, g: Grain, pos: nat, x: string)
    requires |ws| == |names| && pos < |ws| && UniqueNames(names) && Linked(ws, names, g)
    requires x != names[pos] && (Deps(ws[pos], g) != {} || Subs(ws[pos], g) != {})
    ensures !Linked(ws, names[pos := x], g)
  {
    var names' := names[pos := x];
    var was := names[pos];
    UnnamedNoEdges(ws, names, g, pos);
    forall j | 0 <= j < |names'| ensures names'[j] != was {
      if j != pos {
        assert names'[j] == names[j];
      }
    }
    if s :| s in Subs(ws[pos], g) {
      var b := IndexOf(names, s);
      assert was in Deps(ws[b], g) && was !in names';
    } else {
      var d :| d in Deps(ws[pos], g);
      var k := IndexOf(names, d);
      assert was in Subs(ws[k], g) && was !in names';
    }
  }

  lemma IndexOfOwn(names: seq<string>, i: nat)
    requires UniqueNames(names) && i < |names| && names[i] != ""
    ensures IndexOf(names, names[i]) == i
  {
  }

  lemma InTargets(names: seq<string>, deps: set<string>, j: nat)
    requires UniqueNames(names) && j < |names| && names[j] != ""
    ensures j in Targets(names, deps) <==> names[j] in deps
  {
    if names[j] in deps {
      IndexOfOwn(names, j);
      assert IndexOf(names, names[j]) in Targets(names, deps);
    }
  }

  lemma RewiredAt(ws: seq<Wrapper>, targets: set<nat>, g: Grain, name: string, add: bool, j: nat, h: Grain)
    requires j < |ws|
    ensures Deps(Rewired(ws, targets, g, name, add)[j], h) == Deps(ws[j], h)
    ensures h != g ==> Subs(Rewired(ws, targets, g, name, add)[j], h) == Subs(ws[j], h)
    ensures h == g ==> Subs(Rewired(ws, targets, g, name, add)[j], h) ==
                       if j !in targets then Subs(ws[j], h)
                       else if add then Subs(ws[j], h) + {name} else Subs(ws[j], h) - {name}
  {
  }

  /** What Unlinked does at one grain: the targets lose the name, the wrapper at `pos` loses its dependencies. */
  lemma UnlinkedShape(ws: seq<Wrapper>, names: seq<string>, pos: nat, g: Grain, j: nat)
    requires |ws| == |names| && pos < |ws| && j < |ws|
    ensures Deps(Unlinked(ws, names, pos)[j], g) == if j == pos then {} else Deps(ws[j], g)
    ensures Subs(Unlinked(ws, names, pos)[j], g) ==
      if j in Targets(names, Deps(ws[pos], g)) then Subs(ws[j], g) - {names[pos]} else Subs(ws[j], g)
  {
    var a := Rewired(ws, Targets(names, ws[pos].colDeps), ColumnGrain, names[pos], false);
    var b := Rewired(a, Targets(names, ws[pos].rowDeps), RowGrain, names[pos], false);
    RewiredAt(ws, Targets(names, ws[pos].colDeps), ColumnGrain, names[pos], false, j, g);
    RewiredAt(a, Targets(names, ws[pos].rowDeps), RowGrain, names[pos], false, j, g);
  }

  /** What Linking does at one grain: the targets gain the name, the wrapper at `pos` gets its new dependencies. */
  lemma LinkingShape(ws: seq<Wrapper>, names: seq<string>, pos: nat, cv: set<string>, rv: set<string>, g: Grain, j: nat)
    requires |ws| == |names| && pos < |ws| && j < |ws|
    ensures Deps(Linking(ws, names, pos, cv, rv)[j], g) ==
      if j == pos then (if g == ColumnGrain then cv else rv) else Deps(ws[j], g)
    ensures Subs(Linking(ws, names, pos, cv, rv)[j], g) ==
      if j in Targets(names, if g == ColumnGrain then cv else rv) then Subs(ws[j], g) + {names[pos]} else Subs(ws[j], g)
  {
    var a := ws[pos := ws[pos].(colDeps := cv, rowDeps := rv)];
    var b := Rewired(a, Targets(names, cv), ColumnGrain, names[pos], true);
    RewiredAt(a, Targets(names, cv), ColumnGrain, names[pos], true, j, g);
    RewiredAt(b, Targets(names, rv), RowGrain, names[pos], true, j, g);
  }

  /** Withdrawing a wrapper's subscriptions and emptying its dependencies keeps both grains linked. */
  lemma UnlinkedKeepsLinked(ws: seq<Wrapper>, names: seq<string>, pos: nat)
    requires |ws| == |names| && pos < |ws|
    requires UniqueNames(names) && LinkedBoth(ws, names)
    ensures LinkedBoth(Unlinked(ws, names, pos), names)
  {
    var u := Unlinked(ws, names, pos);
    forall g, j | 0 <= j < |ws|
      ensures Deps(u[j], g) == if j == pos then {} else Deps(ws[j], g)
      ensures Subs(u[j], g) == if j in Targets(names, Deps(ws[pos], g)) then Subs(ws[j], g) - {names[pos]} else Subs(ws[j], g)
    {
      UnlinkedShape(ws, names, pos, g, j);
    }
    UnlinkGrain(ws, u, names, pos, ColumnGrain);
    UnlinkGrain(ws, u, names, pos, RowGrain);
  }

  /** Any `u` shaped like Unlinked at grain `g` is linked at `g`. */
  lemma UnlinkGrain(ws: seq<Wrapper>, u: seq<Wrapper>, names: seq<string>, pos: nat, g: Grain)
    requires |ws| == |names| == |u| && pos < |ws|
    requires UniqueNames(names) && Linked(ws, names, g)
    requires forall j :: 0 <= j < |ws| ==> Deps(u[j], g) == if j == pos then {} else Deps(ws[j], g)
    requires forall j :: 0 <= j < |ws| ==>
      Subs(u[j], g) == if j in Targets(names, Deps(ws[pos], g)) then Subs(ws[j], g) - {names[pos]} else Subs(ws[j], g)
    ensures Linked(u, names, g)
  {
    var name := names[pos];
    forall a, d | 0 <= a < |u| && d in Deps(u[a], g)
      ensures d != "" && d in names && names[a] in Subs(u[IndexOf(names, d)], g)
    {
      assert a != pos && d in Deps(ws[a], g);
      var b := IndexOf(names, d);
      assert names[a] in Subs(ws[b], g);
      IndexOfOwn(names, a);
      assert names[a] != name;
    }
    forall b, s | 0 <= b < |u| && s in Subs(u[b], g)
      ensures s != "" && s in names && names[b] in Deps(u[IndexOf(names, s)], g)
    {
      assert s in Subs(ws[b], g);
      var a := IndexOf(names, s);
      assert names[b] in Deps(ws[a], g);
      if a == pos {
        IndexOfOwn(names, b);
        InTargets(names, Deps(ws[pos], g), b);
        assert false;
      }
    }
  }

  /**
   * Installing dependencies that all resolve, on a wrapper whose dependency
   * sets are empty and whose name is non-empty, keeps both grains linked.
   */
  lemma LinkingKeepsLinked(ws: seq<Wrapper>, names: seq<string>, pos: nat, cv: set<string>, rv: set<string>)
    requires |ws| == |names| && pos < |ws|
    requires UniqueNames(names) && LinkedBoth(ws, names)
    requires ws[pos].colDeps == {} && ws[pos].rowDeps == {} && names[pos] != ""
    requires forall d :: d in cv ==> d in names && d != ""
    requires forall d :: d in rv ==> d in names && d != ""
    ensures LinkedBoth(Linking(ws, names, pos, cv, rv), names)
  {
    var u := Linking(ws, names, pos, cv, rv);
    forall g, j | 0 <= j < |ws|
      ensures Deps(u[j], g) == if j == pos then (if g == ColumnGrain then cv else rv) else Deps(ws[j], g)
      ensures Subs(u[j], g) ==
        if j in Targets(names, if g == ColumnGrain then cv else rv) then Subs(ws[j], g) + {names[pos]} else Subs(ws[j], g)
    {
      LinkingShape(ws, names, pos, cv, rv, g, j);
    }
    LinkGrain(ws, u, names, pos, cv, ColumnGrain);
    LinkGrain(ws, u, names, pos, rv, RowGrain);
  }

  /** Any `u` shaped like Linking at grain `g` with new dependencies `nd` is linked at `g`. */
  lemma LinkGrain(ws: seq<Wrapper>, u: seq<Wrapper>, names: seq<string>, pos: nat, nd: set<string>, g: Grain)
    requires |ws| == |names| == |u| && pos < |ws|
    requires UniqueNames(names) && Linked(ws, names, g)
    requires Deps(ws[pos], g) == {} && names[pos] != ""
    requires forall d :: d in nd ==> d in names && d != ""
    requires forall j :: 0 <= j < |ws| ==> Deps(u[j], g) == if j == pos then nd else Deps(ws[j], g)
    requires forall j :: 0 <= j < |ws| ==>
      Subs(u[j], g) == if j in Targets(names, nd) then Subs(ws[j], g) + {names[pos]} else Subs(ws[j], g)
    ensures Linked(u, names, g)
  {
    var t := Targets(names, nd);
    forall a, d | 0 <= a < |u| && d in Deps(u[a], g)
      ensures d != "" && d in names && names[a] in Subs(u[IndexOf(names, d)], g)
    {
      if a == pos {
        assert IndexOf(names, d) in t;
      }
    }
    forall b, s | 0 <= b < |u| && s in Subs(u[b], g)
      ensures s != "" && s in names && names[b] in Deps(u[IndexOf(names, s)], g)
    {
      if s in Subs(ws[b], g) {
        var a := IndexOf(names, s);
        assert names[b] in Deps(ws[a], g);
        assert a != pos;
      } else {
        assert s == names[pos] && b in t;
        IndexOfOwn(names, pos);
        var d :| d in nd && d in names && IndexOf(names, d) == b;
        assert names[b] == d;
      }
    }
  }

  /** One more resolved name: its target is rewired on top of the earlier ones. */
  lemma RewiredStep(ws: seq<Wrapper>, targets: set<nat>, k: nat, g: Grain, name: string, add: bool)
    requires k < |ws|
    ensures var r := Rewired(ws, targets, g, name, add);
      Rewired(ws, targets + {k}, g, name, add) ==
      r[k := WithSubs(r[k], g, if add then Subs(r[k], g) + {name} else Subs(r[k], g) - {name})]
  {
    var r := Rewired(ws, targets, g, name, add);
    var s := Rewired(ws, targets + {k}, g, name, add);
    var t := r[k := WithSubs(r[k], g, if add then Subs(r[k], g) + {name} else Subs(r[k], g) - {name})];
    forall j | 0 <= j < |ws| ensures s[j] == t[j] {
      if j == k {
        RewiredAt(ws, targets, g, name, add, j, g);
      }
    }
  }

  /** Sets the formula status of the wrapper at `pos`. */
  function Marked(ws: seq<Wrapper>, pos: nat, st: FormulaStatus): (r: seq<Wrapper>)
    requires pos < |ws|
    ensures |r| == |ws|
  {
    ws[pos := ws[pos].(status := Some(st))]
  }

  /** Rewiring changes only subscriber sets. */
  lemma RewiredSubsOnly(ws: seq<Wrapper>, targets: set<nat>, g: Grain, name: string, add: bool)
    ensures SubsOnlyDiffer(ws, Rewired(ws, targets, g, name, add))
  {
  }

  /** Marking the same wrapper on both sides keeps two wrapper lists subscriber-only apart. */
  lemma MarkedSubsOnly(ws: seq<Wrapper>, vs: seq<Wrapper>, pos: nat, st: FormulaStatus)
    requires SubsOnlyDiffer(ws, vs) && pos < |ws|
    ensures SubsOnlyDiffer(Marked(ws, pos, st), Marked(vs, pos, st))
  {
    assert vs[pos] == ws[pos].(colSubs := vs[pos].colSubs, rowSubs := vs[pos].rowSubs);
  }

  /** The extracted dependencies name the column itself. */
  predicate SelfReferent(name: string, p: Pipeline) {
    p.Extracted? && (name in p.colVars || name in p.rowVars)
  }

  /** The pipeline gets as far as installing dependencies: extraction succeeded, no self-reference, the checker passed. */
  predicate Installs(name: string, p: Pipeline) {
    p.Extracted? && !SelfReferent(name, p) && p.check.None?
  }

  /** The first step of reparsing: old edges withdrawn and the row tree dropped. */
  function Cleared(ws: seq<Wrapper>, names: seq<string>, pos: nat): (r: seq<Wrapper>)
    requires |ws| == |names| && pos < |ws|
    ensures |r| == |ws|
  {
    var u := Unlinked(ws, names, pos);
    u[pos := u[pos].(rowTree := None)]
  }

  /** Clearing changes only subscriber sets, apart from what it clears at `pos`. */
  lemma ClearedSubsOnly(ws: seq<Wrapper>, names: seq<string>, pos: nat)
    requires |ws| == |names| && pos < |ws|
    ensures SubsOnlyDiffer(ws[pos := ws[pos].(colDeps := {}, rowDeps := {}, rowTree := None)], Cleared(ws, names, pos))
  {
    var a := Rewired(ws, Targets(names, ws[pos].colDeps), ColumnGrain, names[pos], false);
    var b := Rewired(a, Targets(names, ws[pos].rowDeps), RowGrain, names[pos], false);
    RewiredSubsOnly(ws, Targets(names, ws[pos].colDeps), ColumnGrain, names[pos], false);
    RewiredSubsOnly(a, Targets(names, ws[pos].rowDeps), RowGrain, names[pos], false);
    SubsOnlyDifferTrans(ws, a, b);
    var c := Cleared(ws, names, pos);
    var z := ws[pos := ws[pos].(colDeps := {}, rowDeps := {}, rowTree := None)];
    forall j | 0 <= j < |z| ensures c[j] == z[j].(colSubs := c[j].colSubs, rowSubs := c[j].rowSubs) {
      assert b[j] == ws[j].(colSubs := b[j].colSubs, rowSubs := b[j].rowSubs);
    }
  }

  /** Clearing keeps both grains linked and leaves the column with no dependencies. */
  lemma ClearedLinked(ws: seq<Wrapper>, names: seq<string>, pos: nat)
    requires |ws| == |names| && pos < |ws|
    requires UniqueNames(names) && LinkedBoth(ws, names)
    ensures var c := Cleared(ws, names, pos);
      LinkedBoth(c, names) && c[pos].colDeps == {} && c[pos].rowDeps == {}
  {
    var u := Unlinked(ws, names, pos);
    UnlinkedKeepsLinked(ws, names, pos);
    UnlinkedShape(ws, names, pos, ColumnGrain, pos);
    UnlinkedShape(ws, names, pos, RowGrain, pos);
    SameEdgesLinked(u, Cleared(ws, names, pos), names);
  }

  /**
   * The wrappers after reparsing the wrapper at `pos` with pipeline outcome
   * `p`, when every dependency name, old and new, resolves: old edges are
   * withdrawn and the row tree dropped; new edges are installed only once
   * the self-reference check and the checker pass; the status is ERROR on any
   * failure, else EMPTY or OK by whether the parsed body is empty.
   */
  function Reparsed(ws: seq<Wrapper>, names: seq<string>, pos: nat, p: Pipeline): (r: seq<Wrapper>)
    requires |ws| == |names| && pos < |ws|
    ensures |r| == |ws|
  {
    Reinstalled(Cleared(ws, names, pos), names, pos, p)
  }

  /** The second half of reparsing, on the cleared wrappers `c`. */
  function Reinstalled(c: seq<Wrapper>, names: seq<string>, pos: nat, p: Pipeline): (r: seq<Wrapper>)
    requires |c| == |names| && pos < |c|
    ensures |r| == |c|
  {
    if !Installs(names[pos], p) then Marked(c, pos, Error)
    else
      var l := Linking(c, names, pos, p.colVars, p.rowVars);
      match p.lowered
      case Failure(_) => Marked(l, pos, Error)
      case Success(t) => l[pos := l[pos].(status := Some(if p.isEmpty then Empty else Ok), rowTree := Some(t))]
  }

  /** The formula message reparsing leaves when every dependency name resolves. */
  function ReparseMessage(name: string, p: Pipeline): string {
    match p
    case Aborted(f) => Message(f)
    case Extracted(_, cv, rv, check, lowered) =>
      if name in cv || name in rv then Message(Recursion)
      else if check.Some? then Message(check.value)
      else if lowered.Failure? then Message(lowered.error)
      else ""
  }

  /**
   * Reparsing keeps both grains linked when names are unique, the column's
   * name is non-empty and every name the pipeline extracts resolves.
   */
  lemma ReparsedKeepsLinked(ws: seq<Wrapper>, names: seq<string>, pos: nat, p: Pipeline)
    requires |ws| == |names| && pos < |ws|
    requires UniqueNames(names) && LinkedBoth(ws, names) && names[pos] != ""
    requires Installs(names[pos], p) ==>
      (forall d :: d in p.colVars ==> d in names && d != "") && (forall d :: d in p.rowVars ==> d in names && d != "")
    ensures LinkedBoth(Reparsed(ws, names, pos, p), names)
  {
    var c := Cleared(ws, names, pos);
    ClearedLinked(ws, names, pos);
    var r := Reparsed(ws, names, pos, p);
    if !Installs(names[pos], p) {
      SameEdgesLinked(c, r, names);
    } else {
      var l := Linking(c, names, pos, p.colVars, p.rowVars);
      LinkingKeepsLinked(c, names, pos, p.colVars, p.rowVars);
      SameEdgesLinked(l, r, names);
    }
  }

  /** Linkage depends only on the dependency and subscriber sets. */
  lemma SameEdgesLinked(ws: seq<Wrapper>, vs: seq<Wrapper>, names: seq<string>)
    requires |ws| == |vs| == |names| && LinkedBoth(ws, names)
    requires forall j, g :: 0 <= j < |ws| ==> Deps(vs[j], g) == Deps(ws[j], g) && Subs(vs[j], g) == Subs(ws[j], g)
    ensures LinkedBoth(vs, names)
  {
  }

  /**
   * A stage that raises before extraction, a direct self-reference, or a
   * checker failure leaves the column with no dependencies, no row tree and
   * status ERROR; the message names the cause.
   */
  lemma RejectedLeavesNoDeps(ws: seq<Wrapper>, names: seq<string>, pos: nat, p: Pipeline)
    requires |ws| == |names| && pos < |ws|
    requires !Installs(names[pos], p)
    ensures var w := Reparsed(ws, names, pos, p)[pos];
      w.colDeps == {} && w.rowDeps == {} && w.rowTree.None? && w.status == Some(Error)
    ensures p.Aborted? ==> ReparseMessage(names[pos], p) == Message(p.failure)
    ensures SelfReferent(names[pos], p) ==> ReparseMessage(names[pos], p) == "Circular reference detected"
    ensures p.Extracted? && !SelfReferent(names[pos], p) ==> ReparseMessage(names[pos], p) == Message(p.check.value)
  {
    UnlinkedShape(ws, names, pos, ColumnGrain, pos);
    UnlinkedShape(ws, names, pos, RowGrain, pos);
  }

  /** After a successful reparse the column's dependencies are exactly what the pipeline extracted. */
  lemma InstalledDeps(ws: seq<Wrapper>, names: seq<string>, pos: nat, p: Pipeline)
    requires |ws| == |names| && pos < |ws|
    requires Installs(names[pos], p)
    ensures var w := Reparsed(ws, names, pos, p)[pos];
      w.colDeps == p.colVars && w.rowDeps == p.rowVars &&
      (p.lowered.Success? <==> w.rowTree.Some?) &&
      w.status == Some(if p.lowered.Failure? then Error else if p.isEmpty then Empty else Ok)
  {
    var c := Cleared(ws, names, pos);
    LinkingShape(c, names, pos, p.colVars, p.rowVars, ColumnGrain, pos);
    LinkingShape(c, names, pos, p.colVars, p.rowVars, RowGrain, pos);
    var a := c[pos := c[pos].(colDeps := p.colVars, rowDeps := p.rowVars)];
    var b := Rewired(a, Targets(names, p.colVars), ColumnGrain, names[pos], true);
    RewiredAt(a, Targets(names, p.colVars), ColumnGrain, names[pos], true, pos, RowGrain);
  }
}
