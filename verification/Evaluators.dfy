/** The memoised evaluator reduceTree, and the agreement of the three ways to read a path. */
module Evaluators {
  import opened Core
  import opened ProofSpec
  import opened ProofReads
  import opened ProofWork
  import opened ProofRuns
  import opened Composition

  // ---------------------------------------------------------------- fuel

  lemma {:induction false} MoreFuel(s: Store, e: Expr, ap: Applier, n: nat, m: nat)
    requires n <= m && TreeValue(s, e, ap, n).Some?
    ensures TreeValue(s, e, ap, m) == TreeValue(s, e, ap, n)
    decreases n, 0
  {
    match e
    case EFieldAccess(_, source) => MoreFuel(s, source, ap, n - 1, m - 1);
    case ECompose(atoms) => MoreFuelRecord(s, atoms, map[], ap, n - 1, m - 1);
    case EApply(fn, arg) =>
      MoreFuel(s, fn, ap, n - 1, m - 1);
      if TreeValue(s, fn, ap, n - 1).value.Ok? { MoreFuel(s, arg, ap, n - 1, m - 1); }
    case _ =>
  }

  lemma {:induction false} MoreFuelRecord(s: Store, atoms: seq<Hash>, rec: map<string, Value>, ap: Applier, n: nat, m: nat)
    requires n <= m && TreeRecord(s, atoms, rec, ap, n).Some?
    ensures TreeRecord(s, atoms, rec, ap, m) == TreeRecord(s, atoms, rec, ap, n)
    decreases n, |atoms| + 1
  {
    if atoms != [] && Resolve(s, atoms[0]).Some? {
      var a := Resolve(s, atoms[0]).value;
      MoreFuel(s, a.expr, ap, n, m);
      var r := TreeValue(s, a.expr, ap, n).value;
      if r.Ok? { MoreFuelRecord(s, atoms[1..], rec[a.path := r.value], ap, n, m); }
    }
  }

  lemma SameValue(s: Store, e: Expr, ap: Applier, n: nat, m: nat)
    requires TreeValue(s, e, ap, n).Some? && TreeValue(s, e, ap, m).Some?
    ensures TreeValue(s, e, ap, n) == TreeValue(s, e, ap, m)
  {
    if n <= m { MoreFuel(s, e, ap, n, m); } else { MoreFuel(s, e, ap, m, n); }
  }

  // ---------------------------------------------------------------- the memo

  class NodeCache {
    var memo: map<Hash, Value>

    constructor ()
      ensures memo == map[]
    {
      memo := map[];
    }
  }

  ghost predicate Explains(k: Hash, v: Value, e: Expr, fuel: nat, dom: iset<Expr>, s: Store, ap: Applier) {
    e in dom && ExprHash(e) == k && TreeValue(s, e, ap, fuel) == Some(Ok(v))
  }

  /** Every memo entry is the value of some expression with that hash. */
  ghost predicate SoundMemo(memo: map<Hash, Value>, dom: iset<Expr>, s: Store, ap: Applier) {
    forall k <- memo.Keys :: exists e, fuel :: Explains(k, memo[k], e, fuel, dom, s, ap)
  }

  /** Expressions that evaluation can meet, told apart by their hashes. */
  ghost predicate Faithful(dom: iset<Expr>, s: Store) {
    && (forall e, e' :: e in dom && e' in dom && ExprHash(e) == ExprHash(e') ==> e == e')
    && (forall e :: e in dom ==> Closed(e, dom, s))
  }

  ghost predicate Closed(e: Expr, dom: iset<Expr>, s: Store) {
    match e
    case EFieldAccess(_, source) => source in dom
    case ECompose(atoms) => forall h <- atoms :: Resolve(s, h).Some? ==> Resolve(s, h).value.expr in dom
    case EApply(fn, arg) => fn in dom && arg in dom
    case _ => true
  }

  lemma MemoHit(memo: map<Hash, Value>, dom: iset<Expr>, s: Store, ap: Applier, e: Expr, fuel: nat)
    requires SoundMemo(memo, dom, s, ap) && Faithful(dom, s) && e in dom
    requires ExprHash(e) in memo && TreeValue(s, e, ap, fuel).Some?
    ensures TreeValue(s, e, ap, fuel) == Some(Ok(memo[ExprHash(e)]))
  {
    hide TreeValue, ExprHash, Closed;
    var k := ExprHash(e);
    var e', n :| Explains(k, memo[k], e', n, dom, s, ap);
    assert e' == e;
    SameValue(s, e, ap, n, fuel);
  }

  lemma MemoStore(memo: map<Hash, Value>, dom: iset<Expr>, s: Store, ap: Applier, e: Expr, fuel: nat, v: Value)
    requires SoundMemo(memo, dom, s, ap) && e in dom && TreeValue(s, e, ap, fuel) == Some(Ok(v))
    ensures SoundMemo(memo[ExprHash(e) := v], dom, s, ap)
  {
    hide TreeValue, ExprHash;
    var m := memo[ExprHash(e) := v];
    forall k | k in m
      ensures exists e', n :: Explains(k, m[k], e', n, dom, s, ap)
    {
      if k == ExprHash(e) {
        assert Explains(k, v, e, fuel, dom, s, ap);
      } else {
        var e', n :| Explains(k, memo[k], e', n, dom, s, ap);
        assert Explains(k, m[k], e', n, dom, s, ap);
      }
    }
  }

  /**
   `reduceTree`: memoised by expression hash, the same answer as evaluation without a memo.
   The recursion is only entered on expressions whose evaluation ends within `fuel`.
   */
  method ReduceTree(e: Expr, s: Store, cache: NodeCache, ap: Applier, ghost dom: iset<Expr>, ghost fuel: nat)
    returns (r: Outcome)
    requires Faithful(dom, s) && e in dom && SoundMemo(cache.memo, dom, s, ap)
    requires TreeValue(s, e, ap, fuel).Some?
    modifies cache
    ensures TreeValue(s, e, ap, fuel) == Some(r)
    ensures SoundMemo(cache.memo, dom, s, ap)
    decreases fuel, 0
  {
    hide SoundMemo, TreeRecord, ExprHash;
    var key := ExprHash(e);
    if key in cache.memo {
      MemoHit(cache.memo, dom, s, ap, e, fuel);
      return Ok(cache.memo[key]);
    }
    assert Closed(e, dom, s);
    match e {
      case EConst(v) => r := Ok(v);
      case EFieldAccess(field, source) =>
        r := ReduceTree(source, s, cache, ap, dom, fuel - 1);
        if r.Err? { return; }
        r := Ok(ExtractField(field, r.value));
      case ECompose(atoms) =>
        r := ReduceAtoms(atoms, s, cache, ap, dom, fuel - 1);
        if r.Err? { return; }
      case EApply(fn, arg) =>
        var f := ReduceTree(fn, s, cache, ap, dom, fuel - 1);
        if f.Err? { return f; }
        var a := ReduceTree(arg, s, cache, ap, dom, fuel - 1);
        if a.Err? { return a; }
        r := Ok(ap(f.value, a.value));
      case EOpaque(_) => return Err(Unsupported);
    }
    MemoStore(cache.memo, dom, s, ap, e, fuel, r.value);
    cache.memo := cache.memo[key := r.value];
  }

  /** The loop over the atoms of a composition. */
  method ReduceAtoms(atoms: seq<Hash>, s: Store, cache: NodeCache, ap: Applier, ghost dom: iset<Expr>, ghost fuel: nat)
    returns (r: Outcome)
    requires Faithful(dom, s) && SoundMemo(cache.memo, dom, s, ap)
    requires forall h <- atoms :: Resolve(s, h).Some? ==> Resolve(s, h).value.expr in dom
    requires TreeRecord(s, atoms, map[], ap, fuel).Some?
    modifies cache
    ensures TreeRecord(s, atoms, map[], ap, fuel) == Some(r)
    ensures SoundMemo(cache.memo, dom, s, ap)
    decreases fuel, 1
  {
    hide SoundMemo, TreeValue, Faithful;
    var rec: map<string, Value> := map[];
    var i := 0;
    assert atoms[0..] == atoms;
    while i < |atoms|
      invariant 0 <= i <= |atoms|
      invariant SoundMemo(cache.memo, dom, s, ap)
      invariant TreeRecord(s, atoms, map[], ap, fuel) == TreeRecord(s, atoms[i..], rec, ap, fuel)
    {
      assert atoms[i..][0] == atoms[i] && atoms[i..][1..] == atoms[i + 1..];
      var a := Resolve(s, atoms[i]);
      if a.None? { return Err(MissingChildren); }
      var sub := ReduceTree(a.value.expr, s, cache, ap, dom, fuel);
      if sub.Err? { return sub; }
      rec := rec[a.value.path := sub.value];
      i := i + 1;
    }
    r := Ok(VRecord(rec));
  }

  // ---------------------------------------------------------------- hashes of plain expressions

  ghost function PlainExprs(): iset<Expr> {
    iset e: Expr | Plain(e)
  }

  lemma PlainHashInjective(e: Expr, e': Expr)
    requires Plain(e) && Plain(e') && ExprHash(e) == ExprHash(e')
    ensures e == e'
  {
    var x, y := SerializeExpr(e), SerializeExpr(e');
    assert x == y;
    assert x[0] == y[0];
    if e.EConst? {
      assert x[1..] == Octets(e.v.s) && y[1..] == Octets(e'.v.s);
      forall i | 0 <= i < |e.v.s| ensures e.v.s[i] == e'.v.s[i] {
        assert x[1..][i] == Octet(e.v.s[i]);
        assert y[1..][i] == Octet(e'.v.s[i]);
      }
    } else {
      assert x[1..] == Digests(e.atoms) && y[1..] == Digests(e'.atoms);
      forall i | 0 <= i < |e.atoms| ensures e.atoms[i] == e'.atoms[i] {
        assert x[1..][i] == Digest(e.atoms[i]);
        assert y[1..][i] == Digest(e'.atoms[i]);
      }
    }
  }

  /** On a store of string constants and compositions the memo keys are faithful. */
  lemma PlainIsFaithful(s: Store)
    requires Complete(s)
    ensures Faithful(PlainExprs(), s)
  {
    var dom := PlainExprs();
    forall e, e' | e in dom && e' in dom && ExprHash(e) == ExprHash(e')
      ensures e == e'
    {
      PlainHashInjective(e, e');
    }
    forall e | e in dom
      ensures Closed(e, dom, s)
    {
      if e.ECompose? {
        forall h | h in e.atoms && Resolve(s, h).Some?
          ensures Resolve(s, h).value.expr in dom
        {
          CompleteLive(s, h);
        }
      }
    }
  }

  // ---------------------------------------------------------------- the three evaluators

  /** The frontiers of a run of stores. */
  function Frontiers(ss: seq<Store>): (fs: seq<Frontier>)
    ensures |fs| == |ss| && forall i :: 0 <= i < |ss| ==> fs[i] == ss[i].frontier
  {
    seq(|ss|, i requires 0 <= i < |ss| => ss[i].frontier)
  }

  /** A run of complete stores in which only leaves are overwritten. */
  predicate LeafRun(ss: seq<Store>) {
    && (forall i :: 0 <= i < |ss| ==> Complete(ss[i]))
    && (forall i :: 0 < i < |ss| ==> LeafWrites(ss[i - 1], ss[i]))
  }

  lemma {:induction false} StableAlongRun(ss: seq<Store>, n: nat, path: string, fuel: nat)
    requires n < |ss| && LeafRun(ss) && path in ss[0].frontier && Build(ss[0], path, fuel).Some?
    ensures path in ss[n].frontier && Build(ss[n], path, fuel) == Build(ss[0], path, fuel)
    ensures forall q <- ss[0].frontier.Keys :: q in ss[n].frontier
    decreases n
  {
    hide Build, Complete;
    if n > 0 {
      StableAlongRun(ss, n - 1, path, fuel);
      TreeIsStable(ss[n - 1], ss[n], path, fuel);
    }
  }

  /** Wherever a built tree has children the store holds a composition, so no change can hide. */
  lemma {:induction false} BuiltIsEntered(s: Store, path: string, fuel: nat, t: Tree, x: map<string, Expr>, vv: map<string, Hash>, f: Frontier)
    requires path in s.frontier && Build(s, path, fuel) == Some(t)
    requires forall q <- x.Keys :: q in s.frontier ==> x[q] == s.frontier[q].expr
    requires AllIn(t, x)
    ensures Entered(t, x, vv, f)
    decreases fuel
  {
    hide Build;
    if fuel == 0 {
      NoFuel(s, path);
    } else {
      BuildUnfold(s, path, fuel);
      forall i | 0 <= i < |t.kids|
        ensures Enters(t, i, x) && Entered(t.kids[i], x, vv, f)
      {
        BuiltIsEntered(s, Kids(s, path)[i], fuel - 1, t.kids[i], x, vv, f);
      }
    }
  }

  predicate AllIn(t: Tree, x: map<string, Expr>) {
    t.path in x && forall i :: 0 <= i < |t.kids| ==> AllIn(t.kids[i], x)
  }

  lemma {:induction false} IndexedIsIn(t: Tree, pos: Pos, p: Proof, f: Frontier)
    requires Indexed(t, pos, p.ix, p.vv)
    ensures AllIn(t, Overlay(p, f))
  {
    forall i | 0 <= i < |t.kids|
      ensures AllIn(t.kids[i], Overlay(p, f))
    {
      IndexedIsIn(t.kids[i], pos + [i], p, f);
    }
  }

  /** In a run of leaf writes every read step is in order, given only some listing of the changed paths. */
  lemma {:induction false} LeafRunSteps(ss: seq<Store>, p: Proof, st: States, orders: seq<seq<string>>, n: nat, path: string, fuel: nat, ap: Applier)
    requires n < |ss| == |orders| && LeafRun(ss) && AbaFree(Frontiers(ss))
    requires path in ss[0].frontier && Build(ss[0], path, fuel) == Some(p.tree)
    requires Composed(p, st, ss[0].frontier, ap)
    requires forall i :: 0 < i <= n ==>
               Lists(orders[i], Changed(After(p, Frontiers(ss), orders, i - 1, ap).vv, ss[i].frontier))
    ensures forall i :: 0 < i <= n ==> StepOk(p, Frontiers(ss), orders, i, ap)
    decreases n
  {
    hide *;
    if n > 0 {
      LeafRunSteps(ss, p, st, orders, n - 1, path, fuel, ap);
      OneLeafStep(ss, p, st, orders, n, path, fuel, ap);
      StepIsOk(p, Frontiers(ss), orders, n, ap);
    }
  }

  lemma OneLeafStep(ss: seq<Store>, p: Proof, st: States, orders: seq<seq<string>>, n: nat, path: string, fuel: nat, ap: Applier)
    requires 0 < n < |ss| == |orders| && LeafRun(ss) && AbaFree(Frontiers(ss))
    requires path in ss[0].frontier && Build(ss[0], path, fuel) == Some(p.tree)
    requires Composed(p, st, ss[0].frontier, ap)
    requires forall i :: 0 < i <= n - 1 ==> StepOk(p, Frontiers(ss), orders, i, ap)
    ensures var b := After(p, Frontiers(ss), orders, n - 1, ap);
            Entered(b.tree, Overlay(b, ss[n].frontier), b.vv, ss[n].frontier)
  {
    hide *;
    var fs := Frontiers(ss);
    var b := After(p, fs, orders, n - 1, ap);
    var x := BeforeRead(p, st, fs, orders, n, ap);
    StableAlongRun(ss, n, path, fuel);
    IndexedIsIn(b.tree, [], b, ss[n].frontier);
    LiveExprs(b, ss[n].frontier);
    BuiltIsEntered(ss[n], path, fuel, b.tree, Overlay(b, ss[n].frontier), b.vv, ss[n].frontier);
  }

  lemma LiveExprs(b: Proof, f: Frontier)
    ensures forall q <- Overlay(b, f).Keys :: q in f ==> Overlay(b, f)[q] == f[q].expr
  {
  }

  lemma ReceiptPathsLive(p: Proof, st: States, f: Frontier, ap: Applier)
    requires Composed(p, st, f, ap)
    ensures forall q <- p.vv.Keys :: q in f
  {
    hide Indexed, Reduce, Cold;
    forall q | q in p.vv
      ensures q in f
    {
      assert Current(q, p.vv[q], f);
    }
  }

  /**
   Three evaluators agree. After any run of leaf overwrites on a store that forgets nothing, the
   incremental read of the old proof, a proof composed afresh, and reduceTree (on the root's
   expression, and under the wrapper that buildProofTree puts around it) answer the same.
   */
  lemma ThreeEvaluatorsAgree(ss: seq<Store>, p: Proof, st: States, p': Proof, st': States, orders: seq<seq<string>>,
                             n: nat, path: string, fuel: nat, ap: Applier)
    requires 0 < n < |ss| == |orders| && LeafRun(ss) && AbaFree(Frontiers(ss))
    requires path in ss[0].frontier && Build(ss[0], path, fuel) == Some(p.tree)
    requires Composed(p, st, ss[0].frontier, ap)
    requires forall i :: 0 < i <= n ==>
               Lists(orders[i], Changed(After(p, Frontiers(ss), orders, i - 1, ap).vv, ss[i].frontier))
    requires path in ss[n].frontier && Build(ss[n], path, fuel) == Some(p'.tree)
    requires Composed(p', st', ss[n].frontier, ap)
    ensures Answer(p, Frontiers(ss), orders, n, ap) == Ok(p'.value)
    ensures TreeValue(ss[n], ss[n].frontier[path].expr, ap, fuel) == Some(Ok(p'.value))
    ensures ss[n].frontier[path].hash in ss[n].index && ss[n].index[ss[n].frontier[path].hash].path == path ==>
              TreeValue(ss[n], ECompose([ss[n].frontier[path].hash]), ap, fuel + 1) == Some(Ok(VRecord(map[path := p'.value])))
  {
    hide *;
    var fs, s := Frontiers(ss), ss[n];
    LeafRunSteps(ss, p, st, orders, n, path, fuel, ap);
    StableAlongRun(ss, n, path, fuel);
    ReceiptPathsLive(p, st, ss[0].frontier, ap);
    NoStaleReads(p, st, fs, orders, n, ap);
    ComposeExact(p', st', s.frontier, ap);
    CompleteAt(ss, n);
    TreeValueIsEval(s, path, ap, fuel);
    if s.frontier[path].hash in s.index && s.index[s.frontier[path].hash].path == path {
      Wrapped(s, path, s.frontier[path].hash, ap, fuel, p'.value);
    }
  }

  /** `ReduceProofTree`: `reduceTree` from an empty memo. */
  method ReduceProofTree(e: Expr, s: Store, ap: Applier, ghost fuel: nat) returns (r: Outcome, cache: NodeCache)
    requires Complete(s) && Plain(e) && TreeValue(s, e, ap, fuel).Some?
    ensures TreeValue(s, e, ap, fuel) == Some(r)
    ensures fresh(cache) && SoundMemo(cache.memo, PlainExprs(), s, ap)
  {
    hide Complete, Faithful, TreeValue;
    cache := new NodeCache();
    PlainIsFaithful(s);
    r := ReduceTree(e, s, cache, ap, PlainExprs(), fuel);
  }

  /**
   The third evaluator as it runs: memoised by expression hash, from an empty memo, it answers what the incremental read
   and the fresh proof answer, on the root's expression and on the expression `buildProofTree` wraps around its atom.
   */
  method MemoisedReadAgrees(s: Store, path: string, ap: Applier, ghost ss: seq<Store>, ghost p: Proof, ghost st: States,
                            ghost p': Proof, ghost st': States, ghost orders: seq<seq<string>>, ghost n: nat, ghost fuel: nat)
    returns (r: Outcome, wrapped: Outcome)
    requires 0 < n < |ss| == |orders| && LeafRun(ss) && AbaFree(Frontiers(ss)) && s == ss[n]
    requires path in ss[0].frontier && Build(ss[0], path, fuel) == Some(p.tree)
    requires Composed(p, st, ss[0].frontier, ap)
    requires forall i :: 0 < i <= n ==>
               Lists(orders[i], Changed(After(p, Frontiers(ss), orders, i - 1, ap).vv, ss[i].frontier))
    requires path in s.frontier && Build(s, path, fuel) == Some(p'.tree)
    requires Composed(p', st', s.frontier, ap)
    requires s.frontier[path].hash in s.index && s.index[s.frontier[path].hash].path == path
    ensures r == Ok(p'.value) == Answer(p, Frontiers(ss), orders, n, ap)
    ensures wrapped == Ok(VRecord(map[path := p'.value]))
  {
    hide *;
    ThreeEvaluatorsAgree(ss, p, st, p', st', orders, n, path, fuel, ap);
    CompleteAt(ss, n);
    CurrentIsPlain(s, path);
    var root, wrap := s.frontier[path].expr, ECompose([s.frontier[path].hash]);
    ComposesArePlain([s.frontier[path].hash]);
    var cache;
    r, cache := ReduceProofTree(root, s, ap, fuel);
    wrapped, cache := ReduceProofTree(wrap, s, ap, fuel + 1);
  }

  lemma CurrentIsPlain(s: Store, path: string)
    requires Complete(s) && path in s.frontier
    ensures Plain(s.frontier[path].expr)
  {
  }

  lemma ComposesArePlain(atoms: seq<Hash>)
    ensures Plain(ECompose(atoms))
  {
  }

  lemma CompleteAt(ss: seq<Store>, n: nat)
    requires n < |ss| && LeafRun(ss)
    ensures Complete(ss[n])
  {
  }

  lemma Wrapped(s: Store, path: string, h: Hash, ap: Applier, fuel: nat, v: Value)
    requires Complete(s) && path in s.frontier && h in s.index && s.index[h].path == path
    requires TreeValue(s, s.frontier[path].expr, ap, fuel) == Some(Ok(v))
    ensures TreeValue(s, ECompose([h]), ap, fuel + 1) == Some(Ok(VRecord(map[path := v])))
  {
    CompleteLive(s, h);
    var atoms := [h];
    assert atoms[1..] == [];
    assert TreeRecord(s, [], map[path := v], ap, fuel) == Some(Ok(VRecord(map[path := v])));
    assert TreeRecord(s, atoms, map[], ap, fuel) == Some(Ok(VRecord(map[path := v])));
  }
}
