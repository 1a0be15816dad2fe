/**
 Building a proof's node tree (internal/engine/compose.go, buildProofNode) and the second
 evaluator, reduceTree (internal/engine/incremental.go).
 */
module Composition {
  import opened Core
  import opened ProofSpec
  import opened ProofRuns

  /** A store at one instant: `GetCurrent` by path, `GetAtom` by hash. */
  datatype Store = Store(frontier: Frontier, index: map<Hash, Atom>)

  /** The paths `buildProofNode` descends to: children that resolve and are live. */
  function ChildPaths(s: Store, atoms: seq<Hash>): seq<string> {
    if atoms == [] then [] else
      (if atoms[0] in s.index && s.index[atoms[0]].path in s.frontier then [s.index[atoms[0]].path] else [])
      + ChildPaths(s, atoms[1..])
  }

  function Kids(s: Store, path: string): seq<string>
    requires path in s.frontier
  {
    if s.frontier[path].expr.ECompose? then ChildPaths(s, s.frontier[path].expr.atoms) else []
  }

  lemma {:induction false} ChildPathsLive(s: Store, atoms: seq<Hash>)
    ensures forall c <- ChildPaths(s, atoms) :: c in s.frontier
  {
    if atoms != [] { ChildPathsLive(s, atoms[1..]); }
  }

  /** `buildProofNode` with a bound on its recursion depth; None while it is still running. */
  function Build(s: Store, path: string, fuel: nat): Option<Tree>
    requires path in s.frontier
    decreases fuel, 0
  {
    if fuel == 0 then None else
      ChildPathsLive(s, if s.frontier[path].expr.ECompose? then s.frontier[path].expr.atoms else []);
      var kids := BuildAll(s, Kids(s, path), fuel - 1);
      if kids.None? then None else Some(Tree(path, kids.value))
  }

  function BuildAll(s: Store, paths: seq<string>, fuel: nat): Option<seq<Tree>>
    requires forall c <- paths :: c in s.frontier
    decreases fuel, |paths| + 1
  {
    if paths == [] then Some([]) else
      var t := Build(s, paths[0], fuel);
      var ts := BuildAll(s, paths[1..], fuel);
      if t.None? || ts.None? then None else Some([t.value] + ts.value)
  }

  lemma {:induction false} BuildAllIndex(s: Store, paths: seq<string>, fuel: nat)
    requires forall c <- paths :: c in s.frontier
    ensures BuildAll(s, paths, fuel).Some? <==> forall i :: 0 <= i < |paths| ==> Build(s, paths[i], fuel).Some?
    ensures BuildAll(s, paths, fuel).Some? ==>
              && |BuildAll(s, paths, fuel).value| == |paths|
              && forall i :: 0 <= i < |paths| ==> Build(s, paths[i], fuel) == Some(BuildAll(s, paths, fuel).value[i])
    decreases |paths|
  {
    hide Build;
    if paths != [] {
      var rest := paths[1..];
      BuildAllIndex(s, rest, fuel);
      assert forall i :: 1 <= i < |paths| ==> paths[i] == rest[i - 1];
      assert forall i :: 0 <= i < |rest| ==> rest[i] == paths[i + 1];
    }
  }

  lemma KidsLive(s: Store, path: string)
    requires path in s.frontier
    ensures forall c <- Kids(s, path) :: c in s.frontier
  {
    if s.frontier[path].expr.ECompose? { ChildPathsLive(s, s.frontier[path].expr.atoms); }
  }

  /** One level of building. */
  lemma BuildUnfold(s: Store, path: string, fuel: nat)
    requires path in s.frontier && fuel > 0
    ensures forall c <- Kids(s, path) :: c in s.frontier
    ensures Build(s, path, fuel).Some? <==>
              forall i :: 0 <= i < |Kids(s, path)| ==> Build(s, Kids(s, path)[i], fuel - 1).Some?
    ensures Build(s, path, fuel).Some? ==>
              var t := Build(s, path, fuel).value;
              && t.path == path && |t.kids| == |Kids(s, path)|
              && forall i :: 0 <= i < |t.kids| ==> Build(s, Kids(s, path)[i], fuel - 1) == Some(t.kids[i])
  {
    hide Kids, BuildAll;
    KidsLive(s, path);
    BuildAllIndex(s, Kids(s, path), fuel - 1);
  }

  lemma {:induction false} BuildMoreFuel(s: Store, path: string, n: nat, m: nat)
    requires path in s.frontier && n <= m && Build(s, path, n).Some?
    ensures Build(s, path, m) == Build(s, path, n)
    decreases n
  {
    hide Build, Kids;
    if n == 0 {
      NoFuel(s, path);
    } else {
      BuildUnfold(s, path, n);
      BuildUnfold(s, path, m);
      var ks := Kids(s, path);
      forall i | 0 <= i < |ks|
        ensures Build(s, ks[i], m - 1) == Build(s, ks[i], n - 1)
      {
        BuildMoreFuel(s, ks[i], n - 1, m - 1);
      }
      assert Build(s, path, n).value.kids == Build(s, path, m).value.kids;
    }
  }

  lemma NoFuel(s: Store, path: string)
    requires path in s.frontier
    ensures Build(s, path, 0).None?
  {
  }

  ghost predicate Terminates(s: Store, path: string)
    requires path in s.frontier
  {
    exists fuel :: Build(s, path, fuel).Some?
  }

  /** A set of paths closed under composition on which some rank goes down from parent to child. */
  predicate Descends(s: Store, rank: map<string, nat>) {
    forall p <- rank.Keys :: p in s.frontier && forall c <- Kids(s, p) :: c in rank && rank[c] < rank[p]
  }

  lemma {:induction false} RankedTerminates(s: Store, rank: map<string, nat>, path: string)
    requires Descends(s, rank) && path in rank
    ensures Build(s, path, rank[path] + 1).Some?
    decreases rank[path]
  {
    hide Build, Kids;
    BuildUnfold(s, path, rank[path] + 1);
    var ks := Kids(s, path);
    forall i | 0 <= i < |ks|
      ensures Build(s, ks[i], rank[path]).Some?
    {
      assert ks[i] in rank && rank[ks[i]] < rank[path];
      RankedTerminates(s, rank, ks[i]);
      BuildMoreFuel(s, ks[i], rank[ks[i]] + 1, rank[path]);
    }
  }

  ghost function LeastFuel(s: Store, path: string, fuel: nat): (r: nat)
    requires path in s.frontier && Build(s, path, fuel).Some?
    ensures Build(s, path, r).Some? && forall m: nat :: m < r ==> Build(s, path, m).None?
    decreases fuel
  {
    if exists m: nat :: m < fuel && Build(s, path, m).Some? then
      var m: nat :| m < fuel && Build(s, path, m).Some?;
      LeastFuel(s, path, m)
    else fuel
  }

  ghost function Depth(s: Store, path: string): (r: nat)
    requires path in s.frontier && Terminates(s, path)
    ensures Build(s, path, r).Some? && forall m: nat :: m < r ==> Build(s, path, m).None?
  {
    var fuel :| Build(s, path, fuel).Some?;
    LeastFuel(s, path, fuel)
  }

  /** The depth of building is itself a rank. */
  ghost function Depths(s: Store): map<string, nat> {
    map p | p in s.frontier && Terminates(s, p) :: Depth(s, p)
  }

  lemma DepthsDescend(s: Store)
    ensures Descends(s, Depths(s))
  {
    hide Build, Kids, Terminates;
    var rank := Depths(s);
    forall p | p in rank ensures p in s.frontier && forall c <- Kids(s, p) :: c in rank && rank[c] < rank[p] {
      forall c | c in Kids(s, p) ensures c in rank && rank[c] < rank[p] { KidIsShallower(s, p, c); }
    }
  }

  lemma KidIsShallower(s: Store, p: string, c: string)
    requires p in s.frontier && Terminates(s, p) && c in Kids(s, p)
    ensures c in s.frontier && Terminates(s, c) && Depth(s, c) < Depth(s, p)
  {
    hide Build, Kids;
    var d := Depth(s, p);
    if d == 0 { NoFuel(s, p); }
    BuildUnfold(s, p, d);
    var i :| 0 <= i < |Kids(s, p)| && Kids(s, p)[i] == c;
    assert Build(s, c, d - 1).Some?;
  }

  /** Cold composition terminates exactly when the composition below the path is acyclic. */
  lemma TerminatesIffAcyclic(s: Store, path: string)
    requires path in s.frontier
    ensures Terminates(s, path) <==> exists rank :: Descends(s, rank) && path in rank
  {
    hide Build, Kids;
    if Terminates(s, path) {
      DepthsDescend(s);
      assert path in Depths(s);
    }
    if exists rank :: Descends(s, rank) && path in rank {
      var rank :| Descends(s, rank) && path in rank;
      RankedTerminates(s, rank, path);
    }
  }

  /** A way down: each path is live and composes the next one. */
  predicate Walk(s: Store, w: seq<string>) {
    && (forall i :: 0 <= i < |w| ==> w[i] in s.frontier)
    && forall i :: 0 < i < |w| ==> w[i] in Kids(s, w[i - 1])
  }

  predicate Repeats(w: seq<string>) {
    exists i, j :: 0 <= i < j < |w| && w[i] == w[j]
  }

  /** Some path reachable from `path` reaches itself. */
  ghost predicate Cyclic(s: Store, path: string) {
    exists w :: w != [] && w[0] == path && Walk(s, w) && Repeats(w)
  }

  lemma {:induction false} RankFalls(s: Store, rank: map<string, nat>, w: seq<string>, i: nat, j: nat)
    requires Descends(s, rank) && Walk(s, w) && i <= j < |w| && w[i] in rank
    ensures w[j] in rank && rank[w[j]] <= rank[w[i]] - (j - i)
    decreases j - i
  {
    hide Kids;
    if i < j {
      RankFalls(s, rank, w, i, j - 1);
      assert w[j] in Kids(s, w[j - 1]);
    }
  }

  /** While building at depth `n` has not ended there is a way down of `n` steps. */
  lemma {:induction false} LongWalk(s: Store, path: string, n: nat) returns (w: seq<string>)
    requires path in s.frontier && Build(s, path, n).None?
    ensures |w| == n + 1 && w[0] == path && Walk(s, w)
    decreases n
  {
    hide Build, Kids;
    w := [path];
    if n > 0 {
      BuildUnfold(s, path, n);
      var ks := Kids(s, path);
      var i :| 0 <= i < |ks| && Build(s, ks[i], n - 1).None?;
      var v := LongWalk(s, ks[i], n - 1);
      w := [path] + v;
    }
  }

  lemma {:induction false} Pigeonhole(w: seq<string>, all: set<string>)
    requires (forall i :: 0 <= i < |w| ==> w[i] in all) && !Repeats(w)
    ensures |w| <= |all|
  {
    if w != [] {
      var rest := w[1..];
      forall i, j | 0 <= i < j < |rest| ensures rest[i] != rest[j] { assert w[i + 1] != w[j + 1]; }
      forall i | 0 <= i < |rest| ensures rest[i] in all - {w[0]} { assert w[0] != w[i + 1]; }
      Pigeonhole(rest, all - {w[0]});
    }
  }

  /** Cold composition terminates exactly when no path reachable from the root reaches itself, and then within one level per path. */
  lemma TerminatesIffNoCycle(s: Store, path: string)
    requires path in s.frontier
    ensures Terminates(s, path) <==> !Cyclic(s, path)
    ensures Terminates(s, path) <==> Build(s, path, |s.frontier|).Some?
  {
    hide Build, Kids, Walk, Repeats, Descends;
    if Terminates(s, path) && Cyclic(s, path) {
      var w :| w != [] && w[0] == path && Walk(s, w) && Repeats(w);
      DepthsDescend(s);
      NoRepeats(s, Depths(s), w);
    }
    if Build(s, path, |s.frontier|).None? {
      var w := LongWalk(s, path, |s.frontier|);
      WalkRepeats(s, w);
    }
  }

  lemma NoRepeats(s: Store, rank: map<string, nat>, w: seq<string>)
    requires Descends(s, rank) && Walk(s, w) && w != [] && w[0] in rank
    ensures !Repeats(w)
  {
    hide Kids, Walk, Descends;
    forall i, j | 0 <= i < j < |w| ensures w[i] != w[j] {
      RankFalls(s, rank, w, 0, i);
      RankFalls(s, rank, w, i, j);
    }
  }

  lemma WalkRepeats(s: Store, w: seq<string>)
    requires Walk(s, w) && |w| == |s.frontier| + 1
    ensures Repeats(w)
  {
    hide Kids;
    if !Repeats(w) { Pigeonhole(w, s.frontier.Keys); }
  }

  /** Where every child is older than its parent, the logical clocks are such a rank. */
  lemma OlderChildrenTerminate(s: Store, path: string)
    requires path in s.frontier
    requires forall p <- s.frontier.Keys :: forall c <- Kids(s, p) ::
               c in s.frontier && s.frontier[c].clock < s.frontier[p].clock
    ensures Build(s, path, s.frontier[path].clock + 1).Some?
  {
    hide Build, Kids;
    var rank := map p | p in s.frontier :: s.frontier[p].clock;
    RankedTerminates(s, rank, path);
  }

  /** Two compositions that name each other: on a store that keeps overwritten atoms, building never ends. */
  lemma {:induction false} MutualCompositionDiverges(s: Store, a: string, b: string, ha: Hash, hb: Hash, fuel: nat)
    requires a in s.frontier && b in s.frontier
    requires s.frontier[a].expr == ECompose([hb]) && s.frontier[b].expr == ECompose([ha])
    requires ha in s.index && hb in s.index && s.index[ha].path == a && s.index[hb].path == b
    ensures Build(s, a, fuel).None?
    decreases fuel
  {
    hide Build;
    if fuel == 0 {
      NoFuel(s, a);
    } else {
      BuildUnfold(s, a, fuel);
      assert [hb][1..] == [];
      assert ChildPaths(s, []) == [];
      assert Kids(s, a) == [b] && Kids(s, a)[0] == b;
      MutualCompositionDiverges(s, b, a, hb, ha, fuel - 1);
    }
  }

  // ---------------------------------------------------------------- reduceTree

  /** The value of an expression against the store, without any memo; None while still running. */
  function TreeValue(s: Store, e: Expr, ap: Applier, fuel: nat): Option<Outcome>
    decreases fuel, 0
  {
    if fuel == 0 then None else
    match e
    case EConst(v) => Some(Ok(v))
    case EFieldAccess(field, source) =>
      var r := TreeValue(s, source, ap, fuel - 1);
      if r.None? || r.value.Err? then r else Some(Ok(ExtractField(field, r.value.value)))
    case ECompose(atoms) => TreeRecord(s, atoms, map[], ap, fuel - 1)
    case EApply(fn, arg) =>
      var f := TreeValue(s, fn, ap, fuel - 1);
      if f.None? || f.value.Err? then f else
        var a := TreeValue(s, arg, ap, fuel - 1);
        if a.None? || a.value.Err? then a else Some(Ok(ap(f.value.value, a.value.value)))
    case EOpaque(_) => Some(Err(Unsupported))
  }

  /** The atom a composed hash is read as: the current one of its path, else the atom itself. */
  function Resolve(s: Store, h: Hash): Option<Atom> {
    if h !in s.index then None
    else if s.index[h].path != "" && s.index[h].path in s.frontier then Some(s.frontier[s.index[h].path])
    else Some(s.index[h])
  }

  function TreeRecord(s: Store, atoms: seq<Hash>, rec: map<string, Value>, ap: Applier, fuel: nat): Option<Outcome>
    decreases fuel, |atoms| + 1
  {
    if atoms == [] then Some(Ok(VRecord(rec))) else
      var a := Resolve(s, atoms[0]);
      if a.None? then Some(Err(MissingChildren)) else
        var r := TreeValue(s, a.value.expr, ap, fuel);
        if r.None? || r.value.Err? then r else TreeRecord(s, atoms[1..], rec[a.value.path := r.value.value], ap, fuel)
  }

  // ---------------------------------------------------------------- agreement

  predicate Plain(e: Expr) {
    e.ECompose? || (e.EConst? && e.v.VString?)
  }

  /** A store that has evicted nothing: every composed hash resolves to a live path. */
  predicate Complete(s: Store) {
    && (forall p <- s.frontier.Keys :: p != "" && s.frontier[p].path == p && Plain(s.frontier[p].expr))
    && (forall h <- s.index.Keys :: s.index[h].path in s.frontier)
    && (forall p <- s.frontier.Keys :: forall h <- HashesOf(s.frontier[p].expr) :: h in s.index)
  }

  function HashesOf(e: Expr): seq<Hash> {
    if e.ECompose? then e.atoms else []
  }

  lemma {:induction false} CompleteKids(s: Store, atoms: seq<Hash>)
    requires Complete(s) && forall h <- atoms :: h in s.index
    ensures |ChildPaths(s, atoms)| == |atoms|
    ensures forall i :: 0 <= i < |atoms| ==> ChildPaths(s, atoms)[i] == s.index[atoms[i]].path
  {
    hide Complete;
    if atoms != [] {
      assert s.index[atoms[0]].path in s.frontier by { CompleteLive(s, atoms[0]); }
      CompleteKids(s, atoms[1..]);
    }
  }

  lemma CompleteLive(s: Store, h: Hash)
    requires Complete(s) && h in s.index
    ensures s.index[h].path in s.frontier
    ensures Resolve(s, h) == Some(s.frontier[s.index[h].path]) && s.frontier[s.index[h].path].path == s.index[h].path
  {
  }

  /** Evaluating expressions against the store agrees with evaluating the built tree. */
  lemma {:induction false} TreeValueIsEval(s: Store, path: string, ap: Applier, fuel: nat)
    requires Complete(s) && path in s.frontier && Build(s, path, fuel).Some?
    ensures TreeValue(s, s.frontier[path].expr, ap, fuel) == Some(Eval(Build(s, path, fuel).value, Exprs(s.frontier), ap))
    decreases fuel, 0
  {
    hide Build;
    if fuel == 0 {
      NoFuel(s, path);
    } else {
      BuildUnfold(s, path, fuel);
      var t := Build(s, path, fuel).value;
      var e := s.frontier[path].expr;
      if e.ECompose? {
        assert forall h <- e.atoms :: h in s.index by { assert HashesOf(e) == e.atoms; }
        CompleteKids(s, e.atoms);
        assert e.atoms[0..] == e.atoms;
        TreeRecordIsEval(s, path, t, 0, map[], ap, fuel);
      }
    }
  }

  lemma {:induction false} TreeRecordIsEval(s: Store, path: string, t: Tree, i: nat, rec: map<string, Value>, ap: Applier, fuel: nat)
    requires Complete(s) && path in s.frontier && fuel > 0 && Build(s, path, fuel) == Some(t)
    requires s.frontier[path].expr.ECompose?
    requires var atoms := s.frontier[path].expr.atoms;
             && i <= |atoms| == |t.kids| && (forall h <- atoms :: h in s.index)
             && Kids(s, path) == ChildPaths(s, atoms)
             && |ChildPaths(s, atoms)| == |atoms|
             && forall j :: 0 <= j < |atoms| ==> ChildPaths(s, atoms)[j] == s.index[atoms[j]].path
    ensures TreeRecord(s, s.frontier[path].expr.atoms[i..], rec, ap, fuel - 1) == Some(EvalKids(t, i, rec, Exprs(s.frontier), ap))
    decreases fuel - 1, |t.kids| - i + 1
  {
    hide Build, Complete, TreeValue, Eval;
    var atoms := s.frontier[path].expr.atoms;
    if i < |atoms| {
      BuildUnfold(s, path, fuel);
      var c := s.index[atoms[i]].path;
      CompleteLive(s, atoms[i]);
      assert Kids(s, path)[i] == c;
      assert t.kids[i].path == c by { BuildRoot(s, c, fuel - 1); }
      TreeValueIsEval(s, c, ap, fuel - 1);
      assert atoms[i..][0] == atoms[i] && atoms[i..][1..] == atoms[i + 1..];
      var r := Eval(t.kids[i], Exprs(s.frontier), ap);
      if r.Ok? {
        TreeRecordIsEval(s, path, t, i + 1, rec[c := r.value], ap, fuel);
      }
    }
  }

  lemma BuildRoot(s: Store, path: string, fuel: nat)
    requires path in s.frontier && Build(s, path, fuel).Some?
    ensures Build(s, path, fuel).value.path == path
  {
  }

  /** Leaves are overwritten by constants, compositions are kept, and no atom is forgotten. */
  predicate LeafWrites(s: Store, s': Store) {
    && (forall h <- s.index.Keys :: h in s'.index && s'.index[h] == s.index[h])
    && (forall p <- s.frontier.Keys :: p in s'.frontier &&
          (if s.frontier[p].expr.ECompose? then s'.frontier[p] == s.frontier[p] else !s'.frontier[p].expr.ECompose?))
  }

  lemma {:induction false} SameChildPaths(s: Store, s': Store, atoms: seq<Hash>)
    requires Complete(s) && LeafWrites(s, s') && forall h <- atoms :: h in s.index
    ensures ChildPaths(s', atoms) == ChildPaths(s, atoms)
  {
    if atoms != [] { SameChildPaths(s, s', atoms[1..]); }
  }

  /** A fresh composition after leaf writes has the same shape as the old one. */
  lemma {:induction false} TreeIsStable(s: Store, s': Store, path: string, fuel: nat)
    requires Complete(s) && LeafWrites(s, s') && path in s.frontier && Build(s, path, fuel).Some?
    ensures path in s'.frontier && Build(s', path, fuel) == Build(s, path, fuel)
    decreases fuel
  {
    hide Build;
    if fuel == 0 {
      NoFuel(s, path);
    } else {
      BuildUnfold(s, path, fuel);
      BuildUnfold(s', path, fuel);
      var e := s.frontier[path].expr;
      if e.ECompose? {
        assert forall h <- e.atoms :: h in s.index by { assert HashesOf(e) == e.atoms; }
        SameChildPaths(s, s', e.atoms);
      }
      var ks := Kids(s, path);
      assert Kids(s', path) == ks;
      forall i | 0 <= i < |ks|
        ensures Build(s', ks[i], fuel - 1) == Build(s, ks[i], fuel - 1)
      {
        TreeIsStable(s, s', ks[i], fuel - 1);
      }
      assert Build(s', path, fuel).value.kids == Build(s, path, fuel).value.kids;
    }
  }
}
