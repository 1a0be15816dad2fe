/**
 Runs of the frontier cache on which reads of a composed proof are stale: an empty path, a path under two parents, and a
 composition hidden behind a constant while its child changes (internal/engine/compose.go, incremental.go).
 */
module StaleRuns {
  import opened Core
  import F = FrontierSpec
  import opened ProofSpec
  import opened ProofReads
  import opened ProofRuns
  import opened ProofCost
  import opened PathIndex
  import opened ProofLimits
  import opened HeldValues
  import opened PlainReads
  import opened StaleNodes
  import opened HiddenChanges
  import opened Composition

  // ---------------------------------------------------------------- runs

  function Write(expr: Expr, path: string): F.Event {
    F.Append(expr, path, Never, 0)
  }

  function Text(s: string): Expr {
    EConst(VString(s))
  }

  function Atomic(expr: Expr, path: string, clock: nat): Atom {
    F.MintAtom(expr, path, clock, 0, Never)
  }

  /** The live frontier after a run. */
  function FrontierAfter(es: seq<F.Event>): Frontier {
    F.Swept(F.After(es).view, 0)
  }

  /** `GetAtom` on the cache: exactly the live atoms, by hash. */
  predicate Indexes(index: map<Hash, Atom>, live: Frontier) {
    && (forall h <- index.Keys :: index[h].path in live && live[index[h].path] == index[h])
    && (forall c <- live.Keys :: live[c].path == c && live[c].hash in index && index[live[c].hash] == live[c])
  }

  /** One more write of other content: the new atom is resident, everything else as before. */
  lemma WriteStep(es: seq<F.Event>, view: F.View, expr: Expr, path: string)
    requires F.After(es) == F.State(view, |es|) && F.Swept(view, 0) == view
    requires path in view ==> !F.SameContent(view[path], Atomic(expr, path, |es| + 1))
    ensures F.After(es + [Write(expr, path)]) == F.State(view[path := Atomic(expr, path, |es| + 1)], |es| + 1)
    ensures F.Swept(view[path := Atomic(expr, path, |es| + 1)], 0) == view[path := Atomic(expr, path, |es| + 1)]
  {
    hide Genuine, F.SameContent, F.Inv, F.Step, F.Swept;
    var all := es + [Write(expr, path)];
    assert all[..|all| - 1] == es;
    F.AfterInv(es);
    F.AppendChangesIff(F.After(es), expr, path, Never, 0);
    StepClock(F.After(es), expr, path);
    NeverSwept(view, path, Atomic(expr, path, |es| + 1));
  }

  lemma StepClock(s: F.State, expr: Expr, path: string)
    ensures F.Step(s, Write(expr, path)).clock == s.clock + 1
  {
    hide F.MintAtom, F.ApplyTo;
  }

  lemma NeverSwept(view: F.View, path: string, a: Atom)
    requires F.Swept(view, 0) == view && a.expires == Never
    ensures F.Swept(view[path := a], 0) == view[path := a]
  {
    var view' := view[path := a];
    forall c | c in view' ensures !Expired(view'[c], 0) {
      if c != path { assert c in F.Swept(view, 0); }
    }
  }

  lemma OtherText(a: Atom, s: string, t: string, clock: nat, path: string)
    requires a.expr == Text(s) && s != t
    ensures !F.SameContent(a, Atomic(Text(t), path, clock))
  {
    OctetsInjective(s, t);
  }

  lemma OtherHash(a: Expr, p: string, c: nat, b: Expr, q: string, d: nat)
    requires c != d
    ensures Atomic(a, p, c).hash != Atomic(b, q, d).hash
  {
    if Atomic(a, p, c).hash == Atomic(b, q, d).hash { EqualHashEqualClock(Atomic(a, p, c), Atomic(b, q, d)); }
  }

  lemma Start()
    ensures F.After([]) == F.State(map[], 0) && F.Swept(map[], 0) == map[]
  {
  }

  // ---------------------------------------------------------------- building

  /** A constant is built as a leaf. */
  lemma BuildLeaf(s: Store, path: string, fuel: nat)
    requires path in s.frontier && s.frontier[path].expr.EConst? && fuel > 0
    ensures Build(s, path, fuel) == Some(Tree(path, []))
  {
    BuildUnfold(s, path, fuel);
  }

  /** A composition of one live atom. */
  lemma BuildOne(s: Store, path: string, h: Hash, t: Tree, fuel: nat)
    requires path in s.frontier && s.frontier[path].expr == ECompose([h]) && fuel > 0
    requires h in s.index && s.index[h].path in s.frontier && Build(s, s.index[h].path, fuel - 1) == Some(t)
    ensures Build(s, path, fuel) == Some(Tree(path, [t]))
  {
    hide Build;
    BuildUnfold(s, path, fuel);
    assert [h][1..] == [] && ChildPaths(s, []) == [];
    assert Kids(s, path) == [s.index[h].path];
    var k := Build(s, path, fuel);
    assert Build(s, Kids(s, path)[0], fuel - 1).Some?;
    assert k.value.kids == [t];
  }

  /** A composition of two live atoms. */
  lemma BuildTwo(s: Store, path: string, h: Hash, g: Hash, t: Tree, u: Tree, fuel: nat)
    requires path in s.frontier && s.frontier[path].expr == ECompose([h, g]) && fuel > 0
    requires h in s.index && s.index[h].path in s.frontier && Build(s, s.index[h].path, fuel - 1) == Some(t)
    requires g in s.index && s.index[g].path in s.frontier && Build(s, s.index[g].path, fuel - 1) == Some(u)
    ensures Build(s, path, fuel) == Some(Tree(path, [t, u]))
  {
    hide Build;
    BuildUnfold(s, path, fuel);
    assert [h, g][1..] == [g] && [g][1..] == [] && ChildPaths(s, []) == [];
    assert ChildPaths(s, [g]) == [s.index[g].path];
    var ks := Kids(s, path);
    assert ks == [s.index[h].path, s.index[g].path];
    var k := Build(s, path, fuel);
    forall i | 0 <= i < |ks| ensures Build(s, ks[i], fuel - 1).Some? { }
    assert k.value.kids == [t, u];
  }

  lemma SameBuild(s: Store, path: string, n: nat, m: nat)
    requires path in s.frontier && Build(s, path, n).Some? && Build(s, path, m).Some?
    ensures Build(s, path, n) == Build(s, path, m)
  {
    hide Build;
    if n <= m { BuildMoreFuel(s, path, n, m); } else { BuildMoreFuel(s, path, m, n); }
  }

  // ---------------------------------------------------------------- the empty path

  function EmptyRun(x: string): seq<F.Event> {
    [Write(Text(x), "")]
  }

  /** A constant at the empty path, composed and then overwritten: the read still answers the old value. */
  lemma EmptyPathGoesStale(x: string, y: string, index: map<Hash, Atom>, fuel: nat, p: Proof, st: States, order: seq<string>, ap: Applier)
    requires x != y && Indexes(index, FrontierAfter(EmptyRun(x)))
    requires var s := Store(FrontierAfter(EmptyRun(x)), index); "" in s.frontier && Build(s, "", fuel) == Some(p.tree)
    requires AsComposed(p, st, FrontierAfter(EmptyRun(x)), ap)
    requires Lists(order, Changed(p.vv, FrontierAfter(EmptyRun(x) + [Write(Text(y), "")])))
    ensures var f := FrontierAfter(EmptyRun(x) + [Write(Text(y), "")]);
            Read(p, f, order, ap).res != Eval(p.tree, Exprs(f), ap)
  {
    hide F.After, F.Swept, Build, AsComposed, Genuine, Read, Eval;
    var es := EmptyRun(x);
    var a, b := Atomic(Text(x), "", 1), Atomic(Text(y), "", 2);
    Start();
    assert es == [] + [Write(Text(x), "")];
    WriteStep([], map[], Text(x), "");
    OtherText(a, x, y, 2, "");
    WriteStep(es, map["" := a], Text(y), "");
    OtherHash(Text(x), "", 1, Text(y), "", 2);
    var f0, f := FrontierAfter(es), FrontierAfter(es + [Write(Text(y), "")]);
    assert f0 == map["" := a] && f == map["" := b];
    BuildLeaf(Store(f0, index), "", 1);
    SameBuild(Store(f0, index), "", 1, fuel);
    FirstReadFreshIff(p, st, f0, f, order, ap);
    assert SeenChanged(p, f0, f, []) && !Tracked(p, []);
  }

  // ---------------------------------------------------------------- one path under two parents

  function SharedRun(x: string): seq<F.Event> {
    var p := Atomic(Text(x), "p", 1);
    var a := Atomic(ECompose([p.hash]), "a", 2);
    [Write(p.expr, "p"), Write(a.expr, "a"), Write(ECompose([a.hash, p.hash]), "r")]
  }

  function SharedFrontier(x: string): Frontier {
    var p := Atomic(Text(x), "p", 1);
    var a := Atomic(ECompose([p.hash]), "a", 2);
    map["p" := p, "a" := a, "r" := Atomic(ECompose([a.hash, p.hash]), "r", 3)]
  }

  lemma SharedIsReached(x: string)
    ensures F.After(SharedRun(x)) == F.State(SharedFrontier(x), 3) && F.Swept(SharedFrontier(x), 0) == SharedFrontier(x)
  {
    hide F.After, F.Swept, Genuine;
    var es := SharedRun(x);
    var f := SharedFrontier(x);
    Start();
    assert es[..1] == [] + [es[0]] && es[..2] == es[..1] + [es[1]] && es == es[..2] + [es[2]];
    WriteStep([], map[], es[0].expr, "p");
    WriteStep(es[..1], map["p" := f["p"]], es[1].expr, "a");
    WriteStep(es[..2], map["p" := f["p"], "a" := f["a"]], es[2].expr, "r");
  }

  /** `p` under `a`, and again beside it. */
  function Shared(): Tree {
    Tree("r", [Tree("a", [Tree("p", [])]), Tree("p", [])])
  }

  lemma SharedIsBuilt(x: string, index: map<Hash, Atom>)
    requires Indexes(index, SharedFrontier(x))
    ensures Build(Store(SharedFrontier(x), index), "r", 3) == Some(Shared())
  {
    hide Build, Genuine;
    var f := SharedFrontier(x);
    var s := Store(f, index);
    assert "p" in f && "a" in f && "r" in f;
    BuildLeaf(s, "p", 1);
    BuildLeaf(s, "p", 2);
    BuildOne(s, "a", f["p"].hash, Tree("p", []), 2);
    BuildTwo(s, "r", f["a"].hash, f["p"].hash, Tree("a", [Tree("p", [])]), Tree("p", []), 3);
  }

  /** The index remembers the second node of the path. */
  lemma SharedIndex()
    ensures "p" in IndexTree(Shared(), [], map[]) && IndexTree(Shared(), [], map[])["p"] == [1]
  {
    var t := Shared();
    var ix := IndexUpTo(t, [], 1, map["r" := []]);
    assert [] + [1] == [1];
    assert IndexUpTo(t, [], 2, map["r" := []]) == IndexTree(t.kids[1], [1], ix);
    assert IndexUpTo(t.kids[1], [1], 0, ix["p" := [1]]) == ix["p" := [1]];
  }

  /** After one overwrite of a path composed under two parents, the first parent still serves the old value. */
  lemma SharedPathGoesStale(x: string, y: string, index: map<Hash, Atom>, fuel: nat, p: Proof, st: States, order: seq<string>, ap: Applier)
    requires x != y && Indexes(index, FrontierAfter(SharedRun(x)))
    requires var s := Store(FrontierAfter(SharedRun(x)), index); "r" in s.frontier && Build(s, "r", fuel) == Some(p.tree)
    requires AsComposed(p, st, FrontierAfter(SharedRun(x)), ap)
    requires Lists(order, Changed(p.vv, FrontierAfter(SharedRun(x) + [Write(Text(y), "p")])))
    ensures var f := FrontierAfter(SharedRun(x) + [Write(Text(y), "p")]);
            Read(p, f, order, ap).res != Eval(p.tree, Exprs(f), ap)
  {
    hide *;
    SharedAfter(x, y);
    var f0, f := SharedFrontier(x), SharedFrontier(x)["p" := Atomic(Text(y), "p", 4)];
    SharedIsBuilt(x, index);
    SameBuild(Store(f0, index), "r", 3, fuel);
    SharedIsOverwritten(x, y, f);
    FirstReadFreshIff(p, st, f0, f, order, ap);
    FirstIsUntracked(p, st, x, y, f, ap);
  }

  lemma SharedAfter(x: string, y: string)
    requires x != y
    ensures FrontierAfter(SharedRun(x)) == SharedFrontier(x)
    ensures FrontierAfter(SharedRun(x) + [Write(Text(y), "p")]) == SharedFrontier(x)["p" := Atomic(Text(y), "p", 4)]
  {
    hide F.After, F.Swept, Genuine;
    SharedIsReached(x);
    OtherText(SharedFrontier(x)["p"], x, y, 4, "p");
    WriteStep(SharedRun(x), SharedFrontier(x), Text(y), "p");
  }

  /** The first node of the shared path can be seen, has changed, and is not the one the index knows. */
  lemma FirstIsUntracked(p: Proof, st: States, x: string, y: string, f: Frontier, ap: Applier)
    requires x != y && f == SharedFrontier(x)["p" := Atomic(Text(y), "p", 4)]
    requires AsComposed(p, st, SharedFrontier(x), ap) && p.tree == Shared()
    ensures SeenChanged(p, SharedFrontier(x), f, [0, 0]) && !Tracked(p, [0, 0])
  {
    hide Genuine, Reduce, IndexTree, Cold;
    SharedIndex();
    var t, q: Pos := p.tree, [0, 0];
    assert q[1..] == [0] && [0][1..] == [];
    assert InTree(t, q) && Sub(t, q) == Tree("p", []);
    assert q[0] != 1;
  }

  lemma SharedIsOverwritten(x: string, y: string, f: Frontier)
    requires x != y && f == SharedFrontier(x)["p" := Atomic(Text(y), "p", 4)]
    ensures PlainTree(Shared(), Exprs(SharedFrontier(x))) && LeafStep(Shared(), SharedFrontier(x), f)
  {
    hide Genuine;
    OtherHash(Text(x), "p", 1, Text(y), "p", 4);
    var f0 := SharedFrontier(x);
    var leaf := Tree("p", []);
    assert PlainTree(leaf, Exprs(f0)) && LeafStep(leaf, f0, f);
    var a := Tree("a", [leaf]);
    assert PlainTree(a, Exprs(f0)) && LeafStep(a, f0, f);
  }

  // ---------------------------------------------------------------- a path repeated under one parent

  function RepeatedRun(x: string): seq<F.Event> {
    var p := Atomic(Text(x), "p", 1);
    [Write(p.expr, "p"), Write(ECompose([p.hash, p.hash]), "r")]
  }

  function Repeated(): Tree {
    Tree("r", [Tree("p", []), Tree("p", [])])
  }

  lemma RepeatedIndex()
    ensures "p" in IndexTree(Repeated(), [], map[]) && IndexTree(Repeated(), [], map[])["p"] == [1]
  {
    var t := Repeated();
    var ix := IndexUpTo(t, [], 1, map["r" := []]);
    assert [] + [1] == [1];
    assert IndexUpTo(t, [], 2, map["r" := []]) == IndexTree(t.kids[1], [1], ix);
    assert IndexUpTo(t.kids[1], [1], 0, ix["p" := [1]]) == ix["p" := [1]];
  }

  /** Distinct paths are not needed: a path composed twice under one parent reads fresh, since the later child wins. */
  lemma RepeatedPathStaysFresh(x: string, y: string, index: map<Hash, Atom>, fuel: nat, p: Proof, st: States, order: seq<string>, ap: Applier)
    requires x != y && Indexes(index, FrontierAfter(RepeatedRun(x)))
    requires var s := Store(FrontierAfter(RepeatedRun(x)), index); "r" in s.frontier && Build(s, "r", fuel) == Some(p.tree)
    requires AsComposed(p, st, FrontierAfter(RepeatedRun(x)), ap)
    requires Lists(order, Changed(p.vv, FrontierAfter(RepeatedRun(x) + [Write(Text(y), "p")])))
    ensures p.tree == Repeated()
    ensures var f := FrontierAfter(RepeatedRun(x) + [Write(Text(y), "p")]);
            Read(p, f, order, ap).res == Eval(p.tree, Exprs(f), ap)
  {
    hide *;
    RepeatedIsReached(x, y);
    var f0, f := RepeatedFrontier(x), RepeatedFrontier(x)["p" := Atomic(Text(y), "p", 3)];
    RepeatedIsBuilt(x, index);
    SameBuild(Store(f0, index), "r", 2, fuel);
    RepeatedIsOverwritten(x, y, f);
    FirstReadFreshIff(p, st, f0, f, order, ap);
    forall q | SeenChanged(p, f0, f, q) ensures Tracked(p, q) { RepeatedTracked(p, st, x, f, ap, q); }
  }

  function RepeatedFrontier(x: string): Frontier {
    var p := Atomic(Text(x), "p", 1);
    map["p" := p, "r" := Atomic(ECompose([p.hash, p.hash]), "r", 2)]
  }

  lemma RepeatedIsReached(x: string, y: string)
    requires x != y
    ensures FrontierAfter(RepeatedRun(x)) == RepeatedFrontier(x)
    ensures FrontierAfter(RepeatedRun(x) + [Write(Text(y), "p")]) == RepeatedFrontier(x)["p" := Atomic(Text(y), "p", 3)]
  {
    hide F.After, F.Swept, Genuine;
    var es, f0 := RepeatedRun(x), RepeatedFrontier(x);
    Start();
    assert es[..1] == [] + [es[0]] && es == es[..1] + [es[1]];
    WriteStep([], map[], es[0].expr, "p");
    WriteStep(es[..1], map["p" := f0["p"]], es[1].expr, "r");
    OtherText(f0["p"], x, y, 3, "p");
    WriteStep(es, f0, Text(y), "p");
  }

  lemma RepeatedIsBuilt(x: string, index: map<Hash, Atom>)
    requires Indexes(index, RepeatedFrontier(x))
    ensures "r" in RepeatedFrontier(x) && Build(Store(RepeatedFrontier(x), index), "r", 2) == Some(Repeated())
  {
    hide Build, Genuine;
    var f := RepeatedFrontier(x);
    var s := Store(f, index);
    assert "p" in f;
    BuildLeaf(s, "p", 1);
    BuildTwo(s, "r", f["p"].hash, f["p"].hash, Tree("p", []), Tree("p", []), 2);
  }

  lemma RepeatedIsOverwritten(x: string, y: string, f: Frontier)
    requires x != y && f == RepeatedFrontier(x)["p" := Atomic(Text(y), "p", 3)]
    ensures PlainTree(Repeated(), Exprs(RepeatedFrontier(x))) && LeafStep(Repeated(), RepeatedFrontier(x), f)
  {
    hide Genuine;
    OtherHash(Text(x), "p", 1, Text(y), "p", 3);
    var leaf := Tree("p", []);
    assert PlainTree(leaf, Exprs(RepeatedFrontier(x))) && LeafStep(leaf, RepeatedFrontier(x), f);
  }

  lemma RepeatedTracked(p: Proof, st: States, x: string, f: Frontier, ap: Applier, q: Pos)
    requires AsComposed(p, st, RepeatedFrontier(x), ap) && p.tree == Repeated() && SeenChanged(p, RepeatedFrontier(x), f, q)
    ensures Tracked(p, q)
  {
    hide Genuine, Reduce, IndexTree, Cold;
    RepeatedIndex();
    SecondIsSeen(q);
  }

  lemma SecondIsSeen(q: Pos)
    requires InTree(Repeated(), q) && Visible(Repeated(), q)
    ensures q == [] || q == [1]
  {
    var t := Repeated();
    if q != [] {
      assert q[0] == 1 by { assert t.kids[1].path == t.kids[0].path; }
      assert t.kids[1].kids == [];
      assert q[1..] == [] && q == [q[0]];
    }
  }

  // ---------------------------------------------------------------- a composition hidden behind a constant

  function PairRun(x: string): seq<F.Event> {
    var p := Atomic(Text(x), "p", 1);
    [Write(p.expr, "p"), Write(ECompose([p.hash]), "a")]
  }

  /** The composition is overwritten by a constant and its child by another one. */
  function HidingRun(x: string, y: string, c: string): seq<F.Event> {
    PairRun(x) + [Write(Text(c), "a")] + [Write(Text(y), "p")]
  }

  /** The composition is written again, over the child as it is now. */
  function RestoringRun(x: string, y: string, c: string): seq<F.Event> {
    HidingRun(x, y, c) + [Write(ECompose([Atomic(Text(y), "p", 4).hash]), "a")]
  }

  function PairFrontier(x: string): Frontier {
    var p := Atomic(Text(x), "p", 1);
    map["p" := p, "a" := Atomic(ECompose([p.hash]), "a", 2)]
  }

  function HidingFrontier(y: string, c: string): Frontier {
    map["p" := Atomic(Text(y), "p", 4), "a" := Atomic(Text(c), "a", 3)]
  }

  function RestoredFrontier(y: string): Frontier {
    var p := Atomic(Text(y), "p", 4);
    map["p" := p, "a" := Atomic(ECompose([p.hash]), "a", 5)]
  }

  lemma HidingIsReached(x: string, y: string, c: string)
    requires x != y
    ensures FrontierAfter(PairRun(x)) == PairFrontier(x)
    ensures F.After(HidingRun(x, y, c)) == F.State(HidingFrontier(y, c), 4)
    ensures F.Swept(HidingFrontier(y, c), 0) == HidingFrontier(y, c) && |HidingRun(x, y, c)| == 4
  {
    hide F.After, F.Swept, Genuine;
    var es := PairRun(x);
    var f0 := PairFrontier(x);
    Start();
    assert es[..1] == [] + [es[0]] && es == es[..1] + [es[1]];
    WriteStep([], map[], es[0].expr, "p");
    WriteStep(es[..1], map["p" := f0["p"]], es[1].expr, "a");
    WriteStep(es, f0, Text(c), "a");
    var f1 := f0["a" := Atomic(Text(c), "a", 3)];
    OtherText(f1["p"], x, y, 4, "p");
    WriteStep(es + [Write(Text(c), "a")], f1, Text(y), "p");
  }

  lemma PairsAreReached(x: string, y: string, c: string)
    requires x != y
    ensures FrontierAfter(PairRun(x)) == PairFrontier(x)
    ensures FrontierAfter(HidingRun(x, y, c)) == HidingFrontier(y, c)
    ensures FrontierAfter(RestoringRun(x, y, c)) == RestoredFrontier(y)
  {
    hide F.After, F.Swept, Genuine, HidingRun;
    HidingIsReached(x, y, c);
    WriteStep(HidingRun(x, y, c), HidingFrontier(y, c), ECompose([Atomic(Text(y), "p", 4).hash]), "a");
  }

  function Pair(): Tree {
    Tree("a", [Tree("p", [])])
  }

  lemma PairPositions(q: Pos)
    requires InTree(Pair(), q) && q != []
    ensures q == [0]
  {
    var leaf := Pair().kids[0];
    assert q[0] == 0 && leaf.kids == [] && InTree(leaf, q[1..]);
    assert |q| == 1 && q == [q[0]];
  }

  lemma PairIsDistinct()
    ensures Distinct(Pair())
  {
    forall q: Pos | InTree(Pair(), q) ensures q == [] || q == [0] { if q != [] { PairPositions(q); } }
    assert [0][1..] == [];
  }

  lemma PairIsBuilt(x: string, index: map<Hash, Atom>)
    requires Indexes(index, PairFrontier(x))
    ensures Build(Store(PairFrontier(x), index), "a", 2) == Some(Pair())
  {
    hide Build, Genuine;
    var s := Store(PairFrontier(x), index);
    assert "p" in s.frontier;
    BuildLeaf(s, "p", 1);
    BuildOne(s, "a", s.frontier["p"].hash, Tree("p", []), 2);
  }

  /**
   A constant written over a composition while its child changes hides the change from the read, which renews the
   child's receipt all the same; once the composition is written back, the read serves the child's old value.
   */
  lemma HiddenChangeGoesStale(x: string, y: string, c: string, index: map<Hash, Atom>, fuel: nat, p: Proof, st: States,
                              order: seq<string>, order2: seq<string>, ap: Applier)
    requires x != y && Indexes(index, FrontierAfter(PairRun(x)))
    requires var s := Store(FrontierAfter(PairRun(x)), index); "a" in s.frontier && Build(s, "a", fuel) == Some(p.tree)
    requires AsComposed(p, st, FrontierAfter(PairRun(x)), ap)
    requires Lists(order, Changed(p.vv, FrontierAfter(HidingRun(x, y, c))))
    requires var b := Read(p, FrontierAfter(HidingRun(x, y, c)), order, ap).proof;
             Lists(order2, Changed(b.vv, FrontierAfter(RestoringRun(x, y, c))))
    ensures var f, f2 := FrontierAfter(HidingRun(x, y, c)), FrontierAfter(RestoringRun(x, y, c));
            && Read(p, f, order, ap).res == Eval(p.tree, Exprs(f), ap) == Ok(VString(c))
            && Read(Read(p, f, order, ap).proof, f2, order2, ap).res != Eval(p.tree, Exprs(f2), ap)
  {
    hide *;
    PairsAreReached(x, y, c);
    PairIsBuilt(x, index);
    var f0, f, f2 := PairFrontier(x), HidingFrontier(y, c), RestoredFrontier(y);
    SameBuild(Store(f0, index), "a", 2, fuel);
    PairIsDistinct();
    DistinctIsComposed(p, st, f0, ap);
    ComposeExact(p, st, f0, ap);
    PairSteps(p, st, x, y, c, ap);
    ReadExact(p, Exprs(f0), f0, f, order, ap);
    PairIsKept(p, st, x, y, c, order, ap);
    PairIsRewritten(p, st, x, y, c, order, ap);
    StaleNodeSurfaces(Read(p, f, order, ap).proof, f2, order2, ap, [0]);
  }

  lemma PairReceipts(p: Proof, st: States, x: string, ap: Applier)
    requires p.tree == Pair() && AsComposed(p, st, PairFrontier(x), ap) && Composed(p, st, PairFrontier(x), ap)
    ensures Registered(p) && p.vv.Keys == {"a", "p"} && Verified(p.vv, PairFrontier(x))
    ensures InTree(p.tree, [0]) && Sub(p.tree, [0]) == Tree("p", [])
  {
    hide Genuine, Reduce, Cold, IndexTree;
    assert Indexed(p.tree.kids[0], [] + [0], p.ix, p.vv);
    assert [0][1..] == [];
  }

  lemma HidingDiffers(vv: map<string, Hash>, x: string, y: string, c: string)
    requires x != y && vv.Keys == {"a", "p"} && Verified(vv, PairFrontier(x))
    ensures forall q <- vv.Keys :: q in HidingFrontier(y, c) && !Current(q, vv[q], HidingFrontier(y, c))
  {
    hide Genuine;
    OtherHash(Text(x), "p", 1, Text(y), "p", 4);
    OtherHash(ECompose([Atomic(Text(x), "p", 1).hash]), "a", 2, Text(c), "a", 3);
    assert Current("a", vv["a"], PairFrontier(x)) && Current("p", vv["p"], PairFrontier(x));
  }

  lemma HidingEvaluates(p: Proof, y: string, c: string, ap: Applier)
    requires p.tree == Pair() && Registered(p) && p.vv.Keys == {"a", "p"}
    ensures var f := HidingFrontier(y, c);
            && Eval(p.tree, Overlay(p, f), ap) == Eval(p.tree, Exprs(f), ap) == Ok(VString(c))
            && !Reached(p.tree, [0], Overlay(p, f)) && Alive(Tree("p", []), f)
  {
    hide Genuine, Indexed, Grounded, SameOn;
    var f := HidingFrontier(y, c);
    LiveOverlay(p.tree, [], p, f);
    EvalAgrees(p.tree, Overlay(p, f), Exprs(f), ap);
  }

  /** What the first two frontiers mean for a proof of the pair. */
  lemma PairSteps(p: Proof, st: States, x: string, y: string, c: string, ap: Applier)
    requires x != y && p.tree == Pair() && AsComposed(p, st, PairFrontier(x), ap) && Composed(p, st, PairFrontier(x), ap)
    ensures var f0, f := PairFrontier(x), HidingFrontier(y, c);
            && Registered(p) && p.vv.Keys == {"a", "p"} && Follows(p.vv, f0, f) && !Verified(p.vv, f)
            && Eval(p.tree, Overlay(p, f), ap) == Eval(p.tree, Exprs(f), ap) == Ok(VString(c))
            && Overlooked(p, f, [0])
  {
    hide Genuine, Reached, Eval, Overlay, Registered, Composed, AsComposed, HidingFrontier, PairFrontier, InTree, Sub, Alive;
    PairReceipts(p, st, x, ap);
    HidingDiffers(p.vv, x, y, c);
    HidingEvaluates(p, y, c, ap);
    assert "p" in p.vv;
  }

  /** The read answers the constant, renews the receipts and leaves the child as it was. */
  lemma PairIsKept(p: Proof, st: States, x: string, y: string, c: string, order: seq<string>, ap: Applier)
    requires x != y && p.tree == Pair() && AsComposed(p, st, PairFrontier(x), ap) && Composed(p, st, PairFrontier(x), ap)
    requires Lists(order, Changed(p.vv, HidingFrontier(y, c))) && Read(p, HidingFrontier(y, c), order, ap).res.Ok?
    ensures var b := Read(p, HidingFrontier(y, c), order, ap).proof;
            && InTree(p.tree, [0]) && Held(Sub(p.tree, [0]), [0], b.st, ap) == Ok(VString(x))
            && b.vv == Renewed(p.vv, HidingFrontier(y, c))
  {
    hide Genuine, Reduce, Cold, Eval, Marked, Quiet, Held, Indexed, HoldsPlain, Follows, Verified, AsComposed, Composed, Overlay;
    var f0, f := PairFrontier(x), HidingFrontier(y, c);
    PairSteps(p, st, x, y, c, ap);
    ComposedHoldsPlain(p, st, f0, ap);
    ChangedKeptOrRenewed(p, f0, f, order, ap, [0]);
    PairHeld(p, st, x, ap);
  }

  lemma PairHeld(p: Proof, st: States, x: string, ap: Applier)
    requires p.tree == Pair() && Composed(p, st, PairFrontier(x), ap)
    ensures InTree(p.tree, [0]) && Held(Sub(p.tree, [0]), [0], p.st, ap) == Ok(VString(x))
  {
    hide Genuine, Reduce, Cold, Held;
    var f0 := PairFrontier(x);
    ComposedHoldsPlain(p, st, f0, ap);
    assert [0][1..] == [] && Sub(p.tree, [0]) == p.tree.kids[0];
    assert HoldsPlainAt(p, f0, ap, [0]);
    assert Indexed(p.tree.kids[0], [] + [0], p.ix, p.vv);
    assert Current("p", p.vv["p"], f0);
  }

  /** The third frontier changes the composition only, and the child is stale. */
  lemma PairIsRewritten(p: Proof, st: States, x: string, y: string, c: string, order: seq<string>, ap: Applier)
    requires x != y && p.tree == Pair() && AsComposed(p, st, PairFrontier(x), ap) && Composed(p, st, PairFrontier(x), ap)
    requires Lists(order, Changed(p.vv, HidingFrontier(y, c))) && Read(p, HidingFrontier(y, c), order, ap).res.Ok?
    ensures var b, f2 := Read(p, HidingFrontier(y, c), order, ap).proof, RestoredFrontier(y);
            && b.tree == p.tree && Registered(b) && InTree(b.tree, [0]) && Rewritten(b.tree, [0], b.vv, f2)
            && !HoldsAt(b, f2, ap, [0]) && ConstantsBeside(b.tree, [0], b.vv, f2)
  {
    hide Genuine, Reduce, Marked, Held, Follows, Verified, AsComposed, Composed, Overlay, Eval, Indexed, Grounded, Overlooked,
         HidingFrontier, RestoredFrontier, Rewritten, ConstantsBeside, Renewed;
    var f, f2 := HidingFrontier(y, c), RestoredFrontier(y);
    var b := Read(p, f, order, ap).proof;
    PairSteps(p, st, x, y, c, ap);
    PairReceipts(p, st, x, ap);
    PairIsKept(p, st, x, y, c, order, ap);
    ReadKeepsTree(p, f, order, ap);
    RenewedKeys(p.vv, f);
    IndexedByKeys(p.tree, [], p.ix, p.vv, b.vv);
    RestoredDiffers(p.vv, y, c, ap);
  }

  lemma RenewedKeys(vv: map<string, Hash>, f: Frontier)
    ensures Renewed(vv, f).Keys == vv.Keys
  {
  }

  lemma RestoredDiffers(vv: map<string, Hash>, y: string, c: string, ap: Applier)
    requires vv.Keys == {"a", "p"}
    ensures var b, f2 := Renewed(vv, HidingFrontier(y, c)), RestoredFrontier(y);
            && Rewritten(Pair(), [0], b, f2) && ConstantsBeside(Pair(), [0], b, f2)
            && Eval(Tree("p", []), Exprs(f2), ap) == Ok(VString(y))
  {
    hide Genuine;
    OtherHash(Text(c), "a", 3, ECompose([Atomic(Text(y), "p", 4).hash]), "a", 5);
    assert [0][1..] == [];
  }

  // ---------------------------------------------------------------- a hidden change that does no harm

  /** The composition is overwritten by a constant; its child is overwritten and then written as it was. */
  function ReturningRun(x: string, y: string, c: string): seq<F.Event> {
    HidingRun(x, y, c) + [Write(Text(x), "p")]
  }

  function ReturnedFrontier(x: string, c: string): Frontier {
    map["p" := Atomic(Text(x), "p", 5), "a" := Atomic(Text(c), "a", 3)]
  }

  lemma ReturnedIsReached(x: string, y: string, c: string)
    requires x != y
    ensures FrontierAfter(PairRun(x)) == PairFrontier(x)
    ensures FrontierAfter(ReturningRun(x, y, c)) == ReturnedFrontier(x, c)
  {
    hide F.After, F.Swept, Genuine, HidingRun;
    HidingIsReached(x, y, c);
    OtherText(HidingFrontier(y, c)["p"], y, x, 5, "p");
    WriteStep(HidingRun(x, y, c), HidingFrontier(y, c), Text(x), "p");
  }

  lemma ReturnedDiffers(vv: map<string, Hash>, x: string, c: string)
    requires vv.Keys == {"a", "p"} && Verified(vv, PairFrontier(x))
    ensures forall q <- vv.Keys :: q in ReturnedFrontier(x, c) && !Current(q, vv[q], ReturnedFrontier(x, c))
    ensures AbaFree([PairFrontier(x), ReturnedFrontier(x, c)])
  {
    hide Genuine;
    var f0, f := PairFrontier(x), ReturnedFrontier(x, c);
    OtherHash(Text(x), "p", 1, Text(x), "p", 5);
    OtherHash(ECompose([Atomic(Text(x), "p", 1).hash]), "a", 2, Text(c), "a", 3);
    assert Current("a", vv["a"], f0) && Current("p", vv["p"], f0);
    forall i, j, k, q ensures NoReturn([f0, f], i, j, k, q) { }
  }

  lemma ReturnedIsHarmless(p: Proof, st: States, x: string, c: string, ap: Applier)
    requires p.tree == Pair() && Registered(p) && p.vv.Keys == {"a", "p"} && Composed(p, st, PairFrontier(x), ap)
    requires !Current("p", p.vv["p"], ReturnedFrontier(x, c))
    ensures Harmless(p, ReturnedFrontier(x, c), ap) && Overlooked(p, ReturnedFrontier(x, c), [0])
  {
    hide Genuine, Indexed, Grounded, Held, Composed;
    var f := ReturnedFrontier(x, c);
    assert [0][1..] == [] && Sub(p.tree, [0]) == Tree("p", []);
    PairHeld(p, st, x, ap);
    assert HoldsAt(p, f, ap, [0]);
    forall q | Overlooked(p, f, q) ensures q == [0] { PairPositions(q); }
  }

  lemma PairsAreOld(x: string, c: string)
    ensures Before([PairFrontier(x), ReturnedFrontier(x, c)], 6)
  {
  }

  /**
   Coming to every change is not needed: on the run that hides the child, overwrites it and writes it as it was, the read
   overlooks a changed child, and every read that can follow is exact.
   */
  lemma HiddenReturnStaysExact(x: string, y: string, c: string, index: map<Hash, Atom>, fuel: nat, p: Proof, st: States,
                               order: seq<string>, ap: Applier)
    requires x != y && Indexes(index, FrontierAfter(PairRun(x)))
    requires var s := Store(FrontierAfter(PairRun(x)), index); "a" in s.frontier && Build(s, "a", fuel) == Some(p.tree)
    requires AsComposed(p, st, FrontierAfter(PairRun(x)), ap)
    requires Lists(order, Changed(p.vv, FrontierAfter(ReturningRun(x, y, c))))
    ensures var f0, f := FrontierAfter(PairRun(x)), FrontierAfter(ReturningRun(x, y, c));
            Overlooked(p, f, [0]) && NextReadsExact(Read(p, f, order, ap).proof, [f0, f], ap)
  {
    hide *;
    ReturnedIsReached(x, y, c);
    PairIsBuilt(x, index);
    var f0, f := PairFrontier(x), ReturnedFrontier(x, c);
    SameBuild(Store(f0, index), "a", 2, fuel);
    PairIsDistinct();
    DistinctIsComposed(p, st, f0, ap);
    PairReceipts(p, st, x, ap);
    ReturnedDiffers(p.vv, x, c);
    ReturnedIsHarmless(p, st, x, c, ap);
    ComposedHoldsPlain(p, st, f0, ap);
    ReturnedIsDue(p, f0, f, order, ap);
    ReadHoldsPlainIff(p, f0, f, order, ap);
    PairsAreOld(x, c);
    OneReadRun(p, st, f0, f, order, ap);
    NextReadsExactIff(p, st, [f0, f], [[], order], 6, 0, ap);
  }

  lemma ReturnedIsDue(p: Proof, f0: Frontier, f: Frontier, order: seq<string>, ap: Applier)
    requires Registered(p) && HoldsPlain(p, f0, ap) && Lists(order, Changed(p.vv, f))
    requires forall q <- p.vv.Keys :: q in f && !Current(q, p.vv[q], f)
    ensures Due(p, f0, f, order, ap)
  {
    hide HoldsPlain, Registered, Changed;
  }

  lemma OneReadRun(p: Proof, st: States, f0: Frontier, f: Frontier, order: seq<string>, ap: Applier)
    requires Composed(p, st, f0, ap) && p.vv.Keys <= p.ix.Keys && AbaFree([f0, f])
    ensures RunOf(p, st, [f0, f], [[], order], ap) && Latest([f0, f]) == f
    ensures After(p, [f0, f], [[], order], 1, ap) == Read(p, f, order, ap).proof
  {
    hide Composed, AbaFree, Read;
    assert After(p, [f0, f], [[], order], 0, ap) == p;
  }
}
