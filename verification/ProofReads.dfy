/** Whole reads and whole runs of reads on one composed proof (ReduceIncremental). */
module ProofReads {
  import opened Core
  import opened ProofSpec

  /**
   The mutable part of a MaterializedProof: node states, the receipt `vv` (path to atom hash),
   the index `ix` from path to node, and the cached answer.
   */
  datatype Proof = Proof(tree: Tree, st: States, vv: map<string, Hash>, ix: map<string, Pos>, value: Value)

  datatype ReadOut = ReadOut(res: Outcome, proof: Proof, hits: nat, misses: nat)

  predicate Current(q: string, h: Hash, f: Frontier) {
    q in f && f[q].hash == h
  }

  predicate Verified(vv: map<string, Hash>, f: Frontier) {
    forall q <- vv.Keys :: Current(q, vv[q], f)
  }

  function Changed(vv: map<string, Hash>, f: Frontier): set<string> {
    set q | q in vv && !Current(q, vv[q], f)
  }

  function Renewed(vv: map<string, Hash>, f: Frontier): map<string, Hash> {
    map q | q in vv :: if q in f then f[q].hash else vv[q]
  }

  function Marks(order: seq<string>, ix: map<string, Pos>): seq<Pos> {
    if order == [] then []
    else Marks(order[..|order| - 1], ix) + (if order[|order| - 1] in ix then [ix[order[|order| - 1]]] else [])
  }

  function Marked(p: Proof, order: seq<string>): States {
    PropagateAll(Cleared(p.st), Marks(order, p.ix))
  }

  /** `ReduceIncremental`; `order` is the order in which the changed paths were found. */
  function Read(p: Proof, f: Frontier, order: seq<string>, ap: Applier): ReadOut {
    if Verified(p.vv, f) then ReadOut(Ok(p.value), p, 0, 0) else
      var o := Reduce(p.tree, [], Marked(p, order), f, ap);
      if o.res.Err? then ReadOut(o.res, p.(st := o.st), o.hits, o.misses) else
        ReadOut(o.res, p.(st := o.st, value := o.res.value, vv := Renewed(p.vv, f)), o.hits, o.misses)
  }

  ghost predicate Lists(order: seq<string>, paths: set<string>) {
    forall q :: q in order <==> q in paths
  }

  // ---------------------------------------------------------------- positions

  predicate InTree(t: Tree, pos: Pos) {
    pos == [] || (pos[0] < |t.kids| && InTree(t.kids[pos[0]], pos[1..]))
  }

  function Sub(t: Tree, pos: Pos): Tree
    requires InTree(t, pos)
  {
    if pos == [] then t else Sub(t.kids[pos[0]], pos[1..])
  }

  lemma {:induction false} SubAppend(t: Tree, p: Pos, q: Pos)
    requires InTree(t, p)
    ensures InTree(t, p + q) <==> InTree(Sub(t, p), q)
    ensures InTree(t, p + q) ==> Sub(t, p + q) == Sub(Sub(t, p), q)
  {
    if p == [] {
      assert p + q == q;
    } else {
      assert (p + q)[1..] == p[1..] + q;
      SubAppend(t.kids[p[0]], p[1..], q);
    }
  }

  lemma SubKid(t: Tree, pos: Pos, i: nat)
    requires InTree(t, pos) && i < |Sub(t, pos).kids|
    ensures InTree(t, pos + [i]) && Sub(t, pos + [i]) == Sub(t, pos).kids[i]
  {
    SubAppend(t, pos, [i]);
    var k := Sub(t, pos);
    assert [i][1..] == [];
    assert InTree(k, [i]) && Sub(k, [i]) == k.kids[i];
  }

  lemma {:induction false} PrefixInTree(t: Tree, p: Pos, q: Pos)
    requires InTree(t, q) && p <= q
    ensures InTree(t, p) && InTree(Sub(t, p), q[|p|..]) && Sub(Sub(t, p), q[|p|..]) == Sub(t, q)
  {
    if p != [] {
      assert p[1..] <= q[1..] && q[1..][|p[1..]|..] == q[|p|..];
      PrefixInTree(t.kids[p[0]], p[1..], q[1..]);
    }
  }

  // ---------------------------------------------------------------- which nodes a change touches

  /** The index names each node of the subtree, every path is named and on the receipt. */
  predicate Indexed(t: Tree, pos: Pos, ix: map<string, Pos>, vv: map<string, Hash>) {
    && t.path != "" && t.path in vv
    && t.path in ix && ix[t.path] == pos
    && forall i :: 0 <= i < |t.kids| ==> Indexed(t.kids[i], pos + [i], ix, vv)
  }

  /** The index names nothing else. */
  predicate Grounded(t: Tree, ix: map<string, Pos>) {
    forall q <- ix.Keys :: InTree(t, ix[q]) && Sub(t, ix[q]).path == q
  }

  /** No path of the subtree changed since its receipt. */
  predicate Quiet(t: Tree, vv: map<string, Hash>, f: Frontier) {
    t.path in vv && Current(t.path, vv[t.path], f) && forall i :: 0 <= i < |t.kids| ==> Quiet(t.kids[i], vv, f)
  }

  lemma {:induction false} QuietInside(t: Tree, vv: map<string, Hash>, f: Frontier, q: Pos)
    requires Quiet(t, vv, f) && InTree(t, q)
    ensures Quiet(Sub(t, q), vv, f)
  {
    if q != [] {
      QuietInside(t.kids[q[0]], vv, f, q[1..]);
    }
  }

  lemma {:induction false} MarksOf(order: seq<string>, ix: map<string, Pos>)
    ensures forall p :: p in Marks(order, ix) <==> exists q :: q in order && q in ix && ix[q] == p
  {
    if order != [] {
      var init := order[..|order| - 1];
      MarksOf(init, ix);
      assert order == init + [order[|order| - 1]];
    }
  }

  lemma BelowElement(q: Pos, ps: seq<Pos>, p: Pos)
    requires p in ps && q <= p
    ensures Below(q, ps)
  {
    var i :| 0 <= i < |ps| && ps[i] == p;
    assert q <= ps[i];
  }

  lemma AboveKid(pos: Pos, i: nat, ps: seq<Pos>)
    ensures Below(pos + [i], ps) ==> Below(pos, ps)
  {
    if Below(pos + [i], ps) {
      var k :| 0 <= k < |ps| && pos + [i] <= ps[k];
      assert pos <= ps[k];
    }
  }

  lemma {:induction false} UntouchedIsQuiet(t: Tree, pos: Pos, ix: map<string, Pos>, vv: map<string, Hash>,
                                            f: Frontier, order: seq<string>)
    requires Indexed(t, pos, ix, vv) && Lists(order, Changed(vv, f))
    requires !Below(pos, Marks(order, ix))
    ensures Quiet(t, vv, f)
  {
    MarksOf(order, ix);
    if t.path in Changed(vv, f) {
      assert ix[t.path] in Marks(order, ix);
      BelowElement(pos, Marks(order, ix), pos);
      assert false;
    }
    forall i | 0 <= i < |t.kids|
      ensures Quiet(t.kids[i], vv, f)
    {
      AboveKid(pos, i, Marks(order, ix));
      UntouchedIsQuiet(t.kids[i], pos + [i], ix, vv, f, order);
    }
  }

  lemma QuietIsUntouched(root: Tree, pos: Pos, ix: map<string, Pos>, vv: map<string, Hash>, f: Frontier, order: seq<string>)
    requires Grounded(root, ix) && Lists(order, Changed(vv, f))
    requires InTree(root, pos) && Quiet(Sub(root, pos), vv, f)
    ensures !Below(pos, Marks(order, ix))
  {
    if Below(pos, Marks(order, ix)) {
      var k :| 0 <= k < |Marks(order, ix)| && pos <= Marks(order, ix)[k];
      MarksOf(order, ix);
      assert Marks(order, ix)[k] in Marks(order, ix);
      var q :| q in order && q in ix && ix[q] == Marks(order, ix)[k];
      PrefixInTree(root, pos, ix[q]);
      QuietInside(Sub(root, pos), vv, f, ix[q][|pos|..]);
      assert false;
    }
  }

  lemma MarkedState(p: Proof, order: seq<string>, pos: Pos)
    ensures Node(Marked(p, order), pos) == Node(p.st, pos).(dirty := Below(pos, Marks(order, p.ix)))
  {
    DirtySetExact(Cleared(p.st), Marks(order, p.ix));
  }

  /** Before `reduceDirty` runs, a node is dirty exactly when some path in its subtree changed. */
  lemma DirtyIffTouched(p: Proof, f: Frontier, order: seq<string>, pos: Pos)
    requires Indexed(p.tree, [], p.ix, p.vv) && Grounded(p.tree, p.ix) && Lists(order, Changed(p.vv, f))
    requires InTree(p.tree, pos) && Indexed(Sub(p.tree, pos), pos, p.ix, p.vv)
    ensures Node(Marked(p, order), pos) == Node(p.st, pos).(dirty := !Quiet(Sub(p.tree, pos), p.vv, f))
  {
    DirtySetExact(Cleared(p.st), Marks(order, p.ix));
    if Quiet(Sub(p.tree, pos), p.vv, f) {
      QuietIsUntouched(p.tree, pos, p.ix, p.vv, f, order);
    } else if !Below(pos, Marks(order, p.ix)) {
      UntouchedIsQuiet(Sub(p.tree, pos), pos, p.ix, p.vv, f, order);
    }
  }

  // ---------------------------------------------------------------- one read

  /** What a read at `f` evaluates: live paths their current expression, dead ones the last seen. */
  function Overlay(p: Proof, f: Frontier): map<string, Expr> {
    map q | q in p.vv :: if q in f then f[q].expr else Node(p.st, if q in p.ix then p.ix[q] else []).expr
  }

  predicate SameOn(t: Tree, x: map<string, Expr>, y: map<string, Expr>) {
    t.path in x && t.path in y && x[t.path] == y[t.path] && forall i :: 0 <= i < |t.kids| ==> SameOn(t.kids[i], x, y)
  }

  lemma {:induction false} EvalAgrees(t: Tree, x: map<string, Expr>, y: map<string, Expr>, ap: Applier)
    requires SameOn(t, x, y)
    ensures Eval(t, x, ap) == Eval(t, y, ap)
    decreases t
  {
    match x[t.path]
    case EFieldAccess(_, _) =>
      if t.kids != [] { EvalAgrees(t.kids[0], x, y, ap); }
    case ECompose(_) => EvalKidsAgrees(t, 0, map[], x, y, ap);
    case EApply(_, _) =>
      if |t.kids| >= 2 { EvalAgrees(t.kids[0], x, y, ap); EvalAgrees(t.kids[1], x, y, ap); }
    case _ =>
  }

  lemma {:induction false} EvalKidsAgrees(t: Tree, i: nat, rec: map<string, Value>, x: map<string, Expr>,
                                          y: map<string, Expr>, ap: Applier)
    requires i <= |t.kids| && SameOn(t, x, y)
    ensures EvalKids(t, i, rec, x, ap) == EvalKids(t, i, rec, y, ap)
    decreases t, |t.kids| - i
  {
    if i < |t.kids| {
      EvalAgrees(t.kids[i], x, y, ap);
      var r := Eval(t.kids[i], x, ap);
      if r.Ok? { EvalKidsAgrees(t, i + 1, rec[t.kids[i].path := r.value], x, y, ap); }
    }
  }

  /** Wherever nothing changed, the cached values and expressions are those of the receipt. */
  predicate Settled(t: Tree, pos: Pos, st: States, vv: map<string, Hash>, x: map<string, Expr>, f: Frontier, ap: Applier) {
    SettledNode(t, Node(st, pos), vv, x, f, ap) &&
    forall i :: 0 <= i < |t.kids| ==> Settled(t.kids[i], pos + [i], st, vv, x, f, ap)
  }

  predicate SettledNode(t: Tree, n: NodeState, vv: map<string, Hash>, x: map<string, Expr>, f: Frontier, ap: Applier) {
    Quiet(t, vv, f) ==>
      && t.path in x && n.expr == x[t.path]
      && (n.cached != Nil ==> Eval(t, x, ap) == Ok(n.cached))
  }

  /** `x` is the expression behind every receipt that still holds. */
  predicate Backs(vv: map<string, Hash>, x: map<string, Expr>, f: Frontier) {
    forall q <- vv.Keys :: Current(q, vv[q], f) ==> q in x && x[q] == f[q].expr
  }

  /** The state of a proof last read at frontier `f`. */
  predicate Inv(p: Proof, x: map<string, Expr>, f: Frontier, ap: Applier) {
    && Indexed(p.tree, [], p.ix, p.vv) && Grounded(p.tree, p.ix)
    && Settled(p.tree, [], p.st, p.vv, x, f, ap)
    && (Quiet(p.tree, p.vv, f) ==> Eval(p.tree, x, ap) == Ok(p.value))
    && Backs(p.vv, x, f)
  }

  /** A receipt that holds at `f` held at the earlier frontier `f0`, for the same expression. */
  predicate Follows(vv: map<string, Hash>, f0: Frontier, f: Frontier) {
    forall q <- vv.Keys :: Current(q, vv[q], f) ==> Current(q, vv[q], f0) && f0[q].expr == f[q].expr
  }

  lemma {:induction false} QuietBefore(t: Tree, vv: map<string, Hash>, f0: Frontier, f: Frontier)
    requires Quiet(t, vv, f) && Follows(vv, f0, f)
    ensures Quiet(t, vv, f0)
  {
    forall i | 0 <= i < |t.kids|
      ensures Quiet(t.kids[i], vv, f0)
    {
      QuietBefore(t.kids[i], vv, f0, f);
    }
  }

  lemma {:induction false} QuietSame(t: Tree, p: Proof, x: map<string, Expr>, f0: Frontier, f: Frontier)
    requires Quiet(t, p.vv, f) && Follows(p.vv, f0, f) && Backs(p.vv, x, f0)
    ensures SameOn(t, x, Overlay(p, f))
  {
    forall i | 0 <= i < |t.kids|
      ensures SameOn(t.kids[i], x, Overlay(p, f))
    {
      QuietSame(t.kids[i], p, x, f0, f);
    }
  }

  lemma MarkedNodeIsGood(p: Proof, x: map<string, Expr>, f0: Frontier, f: Frontier, order: seq<string>, ap: Applier, t: Tree, pos: Pos)
    requires Inv(p, x, f0, ap) && Follows(p.vv, f0, f) && Lists(order, Changed(p.vv, f))
    requires InTree(p.tree, pos) && t == Sub(p.tree, pos)
    requires Indexed(t, pos, p.ix, p.vv) && SettledNode(t, Node(p.st, pos), p.vv, x, f0, ap)
    ensures GoodNode(t, Node(Marked(p, order), pos), Overlay(p, f), f, ap)
  {
    hide Marked, Eval;
    DirtyIffTouched(p, f, order, pos);
    if Quiet(t, p.vv, f) {
      QuietBefore(t, p.vv, f0, f);
      QuietSame(t, p, x, f0, f);
      EvalAgrees(t, x, Overlay(p, f), ap);
    }
  }

  lemma {:induction false} MarkedIsGood(p: Proof, x: map<string, Expr>, f0: Frontier, f: Frontier, order: seq<string>,
                                        ap: Applier, t: Tree, pos: Pos)
    requires Inv(p, x, f0, ap) && Follows(p.vv, f0, f) && Lists(order, Changed(p.vv, f))
    requires InTree(p.tree, pos) && t == Sub(p.tree, pos)
    requires Indexed(t, pos, p.ix, p.vv) && Settled(t, pos, p.st, p.vv, x, f0, ap)
    ensures Good(t, pos, Marked(p, order), Overlay(p, f), f, ap)
    decreases t
  {
    hide Marked;
    MarkedNodeIsGood(p, x, f0, f, order, ap, t, pos);
    forall i | 0 <= i < |t.kids|
      ensures Good(t.kids[i], pos + [i], Marked(p, order), Overlay(p, f), f, ap)
    {
      SubKid(p.tree, pos, i);
      MarkedIsGood(p, x, f0, f, order, ap, t.kids[i], pos + [i]);
    }
  }

  /** Every read, on the fast path and on the dirty path, answers what plain evaluation answers. */
  lemma ReadExact(p: Proof, x: map<string, Expr>, f0: Frontier, f: Frontier, order: seq<string>, ap: Applier)
    requires Inv(p, x, f0, ap) && Follows(p.vv, f0, f) && Lists(order, Changed(p.vv, f))
    ensures Read(p, f, order, ap).res == Eval(p.tree, Overlay(p, f), ap)
  {
    hide Marked;
    if Verified(p.vv, f) {
      AllQuiet(p.tree, [], p.ix, p.vv, f);
      QuietBefore(p.tree, p.vv, f0, f);
      QuietSame(p.tree, p, x, f0, f);
      EvalAgrees(p.tree, x, Overlay(p, f), ap);
    } else {
      MarkedIsGood(p, x, f0, f, order, ap, p.tree, []);
      ReduceExact(p.tree, [], Marked(p, order), Overlay(p, f), f, ap);
    }
  }

  lemma {:induction false} AllQuiet(t: Tree, pos: Pos, ix: map<string, Pos>, vv: map<string, Hash>, f: Frontier)
    requires Verified(vv, f) && Indexed(t, pos, ix, vv)
    ensures Quiet(t, vv, f)
  {
    forall i | 0 <= i < |t.kids|
      ensures Quiet(t.kids[i], vv, f)
    {
      AllQuiet(t.kids[i], pos + [i], ix, vv, f);
    }
  }
}
