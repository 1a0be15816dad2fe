/** The exact cost of an incremental read (ReduceStats in internal/engine/incremental.go). */
module ProofCost {
  import opened Core
  import opened ProofSpec
  import opened ProofReads
  import opened ProofWork
  import opened ProofRuns

  /** The changed nodes and their ancestors. */
  function Touched(t: Tree, pos: Pos, vv: map<string, Hash>, f: Frontier): set<Pos>
    decreases t
  {
    (if Quiet(t, vv, f) then {} else {pos}) + TouchedFrom(t, pos, 0, vv, f)
  }

  function TouchedFrom(t: Tree, pos: Pos, i: nat, vv: map<string, Hash>, f: Frontier): set<Pos>
    requires i <= |t.kids|
    decreases t, |t.kids| - i
  {
    if i == |t.kids| then {} else Touched(t.kids[i], pos + [i], vv, f) + TouchedFrom(t, pos, i + 1, vv, f)
  }

  lemma {:induction false} TouchedExact(t: Tree, pos: Pos, vv: map<string, Hash>, f: Frontier, q: Pos)
    ensures q in Touched(t, pos, vv, f) <==>
              pos <= q && InTree(t, q[|pos|..]) && !Quiet(Sub(t, q[|pos|..]), vv, f)
    decreases t
  {
    TouchedFromExact(t, pos, 0, vv, f, q);
    if pos <= q {
      if q == pos {
        assert q[|pos|..] == [];
      } else {
        var r := q[|pos|..];
        assert pos + [q[|pos|]] <= q && r[1..] == q[|pos| + 1..];
      }
    }
  }

  lemma {:induction false} TouchedFromExact(t: Tree, pos: Pos, i: nat, vv: map<string, Hash>, f: Frontier, q: Pos)
    requires i <= |t.kids|
    ensures q in TouchedFrom(t, pos, i, vv, f) <==>
              pos < q && i <= q[|pos|] < |t.kids| && q in Touched(t.kids[q[|pos|]], pos + [q[|pos|]], vv, f)
    ensures pos < q && q[|pos|] < |t.kids| ==>
              (q in Touched(t.kids[q[|pos|]], pos + [q[|pos|]], vv, f) <==>
               InTree(t.kids[q[|pos|]], q[|pos| + 1..]) && !Quiet(Sub(t.kids[q[|pos|]], q[|pos| + 1..]), vv, f))
    decreases t, |t.kids| - i
  {
    if pos < q && q[|pos|] < |t.kids| {
      assert pos + [q[|pos|]] <= q;
      TouchedExact(t.kids[q[|pos|]], pos + [q[|pos|]], vv, f, q);
    }
    if i < |t.kids| {
      TouchedFromExact(t, pos, i + 1, vv, f, q);
      TouchedExact(t.kids[i], pos + [i], vv, f, q);
    }
  }

  lemma {:induction false} TouchedSize(p: Proof, f: Frontier, order: seq<string>, t: Tree, pos: Pos)
    requires Indexed(p.tree, [], p.ix, p.vv) && Grounded(p.tree, p.ix) && Lists(order, Changed(p.vv, f))
    requires InTree(p.tree, pos) && t == Sub(p.tree, pos) && Indexed(t, pos, p.ix, p.vv)
    ensures |Touched(t, pos, p.vv, f)| == Dirt(t, pos, Marked(p, order))
    decreases t
  {
    hide Marked, Quiet;
    TouchedFromSize(p, f, order, t, pos, 0);
    DirtyIffTouched(p, f, order, pos);
    TouchedFromExact(t, pos, 0, p.vv, f, pos);
  }

  lemma {:induction false} TouchedFromSize(p: Proof, f: Frontier, order: seq<string>, t: Tree, pos: Pos, i: nat)
    requires Indexed(p.tree, [], p.ix, p.vv) && Grounded(p.tree, p.ix) && Lists(order, Changed(p.vv, f))
    requires InTree(p.tree, pos) && t == Sub(p.tree, pos) && Indexed(t, pos, p.ix, p.vv) && i <= |t.kids|
    ensures |TouchedFrom(t, pos, i, p.vv, f)| == DirtFrom(t, pos, i, Marked(p, order))
    decreases t, |t.kids| - i
  {
    hide Marked, Quiet, Touched, Dirt, Grounded;
    if i < |t.kids| {
      SubKid(p.tree, pos, i);
      TouchedSize(p, f, order, t.kids[i], pos + [i]);
      TouchedFromSize(p, f, order, t, pos, i + 1);
      TouchedApart(t, pos, i, p.vv, f);
    }
  }

  lemma TouchedApart(t: Tree, pos: Pos, i: nat, vv: map<string, Hash>, f: Frontier)
    requires i < |t.kids|
    ensures Touched(t.kids[i], pos + [i], vv, f) !! TouchedFrom(t, pos, i + 1, vv, f)
  {
    hide Touched, TouchedFrom, Quiet;
    forall q | q in Touched(t.kids[i], pos + [i], vv, f) ensures q !in TouchedFrom(t, pos, i + 1, vv, f) {
      TouchedExact(t.kids[i], pos + [i], vv, f, q);
      TouchedFromExact(t, pos, i + 1, vv, f, q);
    }
  }

  /** Every node holds a value. */
  predicate Filled(t: Tree, pos: Pos, st: States) {
    Node(st, pos).cached != Nil && forall i :: 0 <= i < |t.kids| ==> Filled(t.kids[i], pos + [i], st)
  }

  lemma {:induction false} FilledIsWarm(t: Tree, pos: Pos, st: States, st': States)
    requires Filled(t, pos, st) && forall q :: Node(st', q).cached == Nil ==> Node(st, q).cached == Nil
    ensures Warm(t, pos, st') && Filled(t, pos, st')
  {
    forall i | 0 <= i < |t.kids|
      ensures Warm(t.kids[i], pos + [i], st') && Filled(t.kids[i], pos + [i], st')
    {
      FilledIsWarm(t.kids[i], pos + [i], st, st');
    }
  }

  /**
   A successful read off the fast path misses once for every changed node and every ancestor of
   one, enters the root and the children of those nodes and nothing else, and leaves nothing dirty.
   */
  lemma ReadCost(p: Proof, x: map<string, Expr>, f0: Frontier, f: Frontier, order: seq<string>, ap: Applier)
    requires Inv(p, x, f0, ap) && Follows(p.vv, f0, f) && Lists(order, Changed(p.vv, f))
    requires Entered(p.tree, Overlay(p, f), p.vv, f) && Filled(p.tree, [], p.st)
    requires !Verified(p.vv, f) && Read(p, f, order, ap).res.Ok?
    ensures var r := Read(p, f, order, ap);
            && r.misses == |Touched(p.tree, [], p.vv, f)|
            && r.hits + r.misses == 1 + Calls(p.tree, [], Marked(p, order), Overlay(p, f))
            && AllClean(p.tree, [], r.proof.st)
  {
    hide Good, Settled, Eval, Indexed, Entered;
    var y := Overlay(p, f);
    var st := Marked(p, order);
    MarkedIsGood(p, x, f0, f, order, ap, p.tree, []);
    MarkedIsRipe(p, f, order, y, p.tree, []);
    DirtySetExact(Cleared(p.st), Marks(order, p.ix));
    FilledIsWarm(p.tree, [], p.st, st);
    ReduceWork(p.tree, [], st, y, f, ap);
    TouchedSize(p, f, order, p.tree, []);
  }

  // ---------------------------------------------------------------- values stay filled

  /** Constants other than nil, and compositions. */
  predicate PlainTree(t: Tree, x: map<string, Expr>) {
    && t.path in x
    && (x[t.path].ECompose? || (x[t.path].EConst? && x[t.path].v != Nil && t.kids == []))
    && forall i :: 0 <= i < |t.kids| ==> PlainTree(t.kids[i], x)
  }

  lemma {:induction false} NeverEmpties(t: Tree, pos: Pos, st: States, x: map<string, Expr>, f: Frontier, ap: Applier, q: Pos)
    requires Good(t, pos, st, x, f, ap) && PlainTree(t, x)
    ensures Node(Reduce(t, pos, st, f, ap).st, q).cached == Nil ==> Node(st, q).cached == Nil
    decreases t
  {
    hide Good, GoodKids;
    GoodParts(t, pos, st, x, f, ap);
    if Node(st, pos).dirty || Node(st, pos).cached == Nil {
      var n := Refreshed(Node(st, pos), t.path, f);
      var st1 := st[pos := n];
      var o := Compute(t, pos, n.expr, st1, f, ap);
      assert Reduce(t, pos, st, f, ap) == Stored(pos, n, o);
      if n.expr.ECompose? {
        ParentChangeKeepsGood(t, pos, st, n, x, f, ap);
        KidsNeverEmpty(t, pos, 0, map[], st1, x, f, ap, q);
        KidsGiveRecord(t, pos, 0, map[], st1, f, ap);
        assert o == ReduceKids(t, pos, 0, map[], st1, f, ap);
      }
    }
  }

  lemma {:induction false} KidsGiveRecord(t: Tree, pos: Pos, i: nat, rec: map<string, Value>, st: States, f: Frontier, ap: Applier)
    requires i <= |t.kids|
    ensures var r := ReduceKids(t, pos, i, rec, st, f, ap).res; r.Ok? ==> r.value.VRecord?
    decreases |t.kids| - i
  {
    hide Reduce;
    if i < |t.kids| {
      var o := Reduce(t.kids[i], pos + [i], st, f, ap);
      if o.res.Ok? { KidsGiveRecord(t, pos, i + 1, rec[t.kids[i].path := o.res.value], o.st, f, ap); }
    }
  }

  lemma {:induction false} KidsNeverEmpty(t: Tree, pos: Pos, i: nat, rec: map<string, Value>, st: States, x: map<string, Expr>,
                                          f: Frontier, ap: Applier, q: Pos)
    requires i <= |t.kids| && GoodKids(t, pos, st, x, f, ap) && PlainTree(t, x)
    ensures Node(ReduceKids(t, pos, i, rec, st, f, ap).st, q).cached == Nil ==> Node(st, q).cached == Nil
    decreases t, |t.kids| - i
  {
    hide Good, Reduce;
    if i < |t.kids| {
      var o := Reduce(t.kids[i], pos + [i], st, f, ap);
      NeverEmpties(t.kids[i], pos + [i], st, x, f, ap, q);
      ReduceKidExact(t, pos, i, st, x, f, ap);
      if o.res.Ok? { KidsNeverEmpty(t, pos, i + 1, rec[t.kids[i].path := o.res.value], o.st, x, f, ap, q); }
    }
  }

  /** Over plain trees a read never takes a value away, so `ReadCost` applies to the next read too. */
  lemma ReadStaysFilled(p: Proof, x: map<string, Expr>, f0: Frontier, f: Frontier, order: seq<string>, ap: Applier)
    requires Inv(p, x, f0, ap) && Follows(p.vv, f0, f) && Lists(order, Changed(p.vv, f))
    requires PlainTree(p.tree, Overlay(p, f)) && Filled(p.tree, [], p.st)
    ensures Filled(p.tree, [], Read(p, f, order, ap).proof.st)
  {
    hide Good, Settled, Eval, Indexed, PlainTree;
    if !Verified(p.vv, f) {
      var st := Marked(p, order);
      var o := Reduce(p.tree, [], st, f, ap);
      MarkedIsGood(p, x, f0, f, order, ap, p.tree, []);
      DirtySetExact(Cleared(p.st), Marks(order, p.ix));
      forall q
        ensures Node(o.st, q).cached == Nil ==> Node(p.st, q).cached == Nil
      {
        NeverEmpties(p.tree, [], st, Overlay(p, f), f, ap, q);
      }
      FilledIsWarm(p.tree, [], p.st, o.st);
    }
  }

  lemma {:induction false} FilledFrame(t: Tree, pos: Pos, st: States, st': States)
    requires SameUnder(t, pos, st, st') && Filled(t, pos, st)
    ensures Filled(t, pos, st')
  {
    forall i | 0 <= i < |t.kids|
      ensures Filled(t.kids[i], pos + [i], st')
    {
      FilledFrame(t.kids[i], pos + [i], st, st');
    }
  }

  lemma {:induction false} ColdFrame(t: Tree, pos: Pos, st: States, st': States, f: Frontier)
    requires SameUnder(t, pos, st, st') && Cold(t, pos, st, f)
    ensures Cold(t, pos, st', f)
  {
    forall i | 0 <= i < |t.kids|
      ensures Cold(t.kids[i], pos + [i], st', f)
    {
      ColdFrame(t.kids[i], pos + [i], st, st', f);
    }
  }

  /** Composing a plain tree fills every node. */
  lemma {:induction false} ComposeFills(t: Tree, pos: Pos, st: States, f: Frontier, ap: Applier)
    requires Cold(t, pos, st, f) && PlainTree(t, Exprs(f)) && Reduce(t, pos, st, f, ap).res.Ok?
    ensures Filled(t, pos, Reduce(t, pos, st, f, ap).st)
    decreases t
  {
    hide Filled;
    var n := Node(st, pos);
    if n.expr.ECompose? {
      var st1 := st[pos := n];
      ParentChangeUnder(t, pos, st, n);
      forall j | 0 <= j < |t.kids|
        ensures Cold(t.kids[j], pos + [j], st1, f)
      {
        ColdFrame(t.kids[j], pos + [j], st, st1, f);
      }
      KidsFill(t, pos, 0, map[], st1, f, ap);
      KidsGiveRecord(t, pos, 0, map[], st1, f, ap);
      var o := ReduceKids(t, pos, 0, map[], st1, f, ap);
      FilledParent(t, pos, o.st, n.(cached := o.res.value, dirty := false));
    } else {
      FilledParent(t, pos, st, n.(cached := n.expr.v, dirty := false));
      assert st[pos := n][pos := n.(cached := n.expr.v, dirty := false)] == st[pos := n.(cached := n.expr.v, dirty := false)];
    }
  }

  lemma FilledParent(t: Tree, pos: Pos, st: States, n: NodeState)
    requires n.cached != Nil && forall j :: 0 <= j < |t.kids| ==> Filled(t.kids[j], pos + [j], st)
    ensures Filled(t, pos, st[pos := n])
  {
    ParentChangeUnder(t, pos, st, n);
    forall j | 0 <= j < |t.kids|
      ensures Filled(t.kids[j], pos + [j], st[pos := n])
    {
      FilledFrame(t.kids[j], pos + [j], st, st[pos := n]);
    }
  }

  lemma {:induction false} KidsFill(t: Tree, pos: Pos, i: nat, rec: map<string, Value>, st: States, f: Frontier, ap: Applier)
    requires i <= |t.kids| && PlainTree(t, Exprs(f)) && ReduceKids(t, pos, i, rec, st, f, ap).res.Ok?
    requires forall j :: 0 <= j < i ==> Filled(t.kids[j], pos + [j], st)
    requires forall j :: i <= j < |t.kids| ==> Cold(t.kids[j], pos + [j], st, f)
    ensures forall j :: 0 <= j < |t.kids| ==> Filled(t.kids[j], pos + [j], ReduceKids(t, pos, i, rec, st, f, ap).st)
    decreases t, |t.kids| - i
  {
    hide Reduce, Filled, Cold, SameUnder;
    if i < |t.kids| {
      var o := Reduce(t.kids[i], pos + [i], st, f, ap);
      ComposeFills(t.kids[i], pos + [i], st, f, ap);
      forall j | 0 <= j < |t.kids| && j != i
        ensures j < i ==> Filled(t.kids[j], pos + [j], o.st)
        ensures i < j ==> Cold(t.kids[j], pos + [j], o.st, f)
      {
        SiblingUnder(t, pos, i, j, st, f, ap);
        if j < i { FilledFrame(t.kids[j], pos + [j], st, o.st); } else { ColdFrame(t.kids[j], pos + [j], st, o.st, f); }
      }
      KidsFill(t, pos, i + 1, rec[t.kids[i].path := o.res.value], o.st, f, ap);
    }
  }

  // ---------------------------------------------------------------- the cost of every read of a run

  lemma {:induction false} PlainSame(t: Tree, x: map<string, Expr>, y: map<string, Expr>)
    requires SameOn(t, x, y) && PlainTree(t, y)
    ensures PlainTree(t, x)
  {
    forall i | 0 <= i < |t.kids| ensures PlainTree(t.kids[i], x) { PlainSame(t.kids[i], x, y); }
  }

  lemma {:induction false} PlainEvaluates(t: Tree, x: map<string, Expr>, ap: Applier)
    requires PlainTree(t, x)
    ensures Eval(t, x, ap).Ok?
    decreases t, |t.kids| + 1
  {
    hide EvalKids;
    if x[t.path].ECompose? { PlainKidsEvaluate(t, 0, map[], x, ap); }
  }

  lemma {:induction false} PlainKidsEvaluate(t: Tree, i: nat, rec: map<string, Value>, x: map<string, Expr>, ap: Applier)
    requires PlainTree(t, x) && i <= |t.kids|
    ensures EvalKids(t, i, rec, x, ap).Ok?
    decreases t, |t.kids| - i
  {
    hide Eval;
    if i < |t.kids| {
      PlainEvaluates(t.kids[i], x, ap);
      PlainKidsEvaluate(t, i + 1, rec[t.kids[i].path := Eval(t.kids[i], x, ap).value], x, ap);
    }
  }

  /** A run of reads of constants and compositions, all live. */
  ghost predicate PlainRun(p: Proof, st: States, fs: seq<Frontier>, orders: seq<seq<string>>, n: nat, ap: Applier)
    requires n < |fs| == |orders|
  {
    && Composed(p, st, fs[0], ap) && AbaFree(fs)
    && Listed(p, fs, orders, n, ap)
    && (forall i :: 0 <= i <= n ==> PlainTree(p.tree, Exprs(fs[i])) && Live(p, fs[i]))
  }

  predicate Live(p: Proof, f: Frontier) {
    forall q <- p.vv.Keys :: q in f
  }

  lemma PlainRunAt(p: Proof, st: States, fs: seq<Frontier>, orders: seq<seq<string>>, n: nat, ap: Applier)
    requires n < |fs| == |orders| && PlainRun(p, st, fs, orders, n, ap)
    ensures Composed(p, st, fs[0], ap) && AbaFree(fs) && PlainTree(p.tree, Exprs(fs[n])) && Live(p, fs[n])
    ensures forall i :: 0 < i <= n ==> StepOk(p, fs, orders, i, ap)
    ensures 0 < n ==> PlainRun(p, st, fs, orders, n - 1, ap)
  {
    hide Composed, AbaFree, StepOk, PlainTree, Live, After;
    forall i | 0 < i <= n ensures Kept(p.tree, fs[i]) { PlainIsKept(p.tree, fs[i]); }
    KeptSteps(p, st, fs, orders, n, ap);
  }

  lemma {:induction false} PlainIsKept(t: Tree, f: Frontier)
    requires PlainTree(t, Exprs(f))
    ensures Kept(t, f)
  {
    forall i | 0 <= i < |t.kids| ensures Kept(t.kids[i], f) { PlainIsKept(t.kids[i], f); }
  }

  lemma ComposedParts(p: Proof, st: States, f: Frontier, ap: Applier)
    requires Composed(p, st, f, ap)
    ensures Cold(p.tree, [], st, f) && Reduce(p.tree, [], st, f, ap).res.Ok? && p.st == Reduce(p.tree, [], st, f, ap).st
  {
    hide Cold, Reduce, Indexed;
  }

  /** All that the n-th read of such a run starts from. */
  lemma BeforePlainRead(p: Proof, st: States, fs: seq<Frontier>, orders: seq<seq<string>>, n: nat, ap: Applier)
    returns (x: map<string, Expr>)
    requires 0 < n < |fs| == |orders| && PlainRun(p, st, fs, orders, n, ap)
    ensures var b := After(p, fs, orders, n - 1, ap);
            && Inv(b, x, fs[n - 1], ap) && Follows(b.vv, fs[n - 1], fs[n]) && b.tree == p.tree
            && Indexed(b.tree, [], b.ix, b.vv) && Grounded(b.tree, b.ix)
            && Lists(orders[n], Changed(b.vv, fs[n])) && Entered(b.tree, Overlay(b, fs[n]), b.vv, fs[n])
            && PlainTree(b.tree, Overlay(b, fs[n]))
  {
    hide *;
    PlainRunAt(p, st, fs, orders, n, ap);
    x := BeforeRead(p, st, fs, orders, n, ap);
    var b := After(p, fs, orders, n - 1, ap);
    StepParts(p, fs, orders, n, ap);
    LiveKeys(p, b, fs[n]);
    LiveOverlay(b.tree, [], b, fs[n]);
    PlainSame(b.tree, Overlay(b, fs[n]), Exprs(fs[n]));
  }

  lemma LiveKeys(p: Proof, b: Proof, f: Frontier)
    requires Live(p, f) && b.vv.Keys == p.vv.Keys
    ensures forall q <- b.vv.Keys :: q in f
  {
  }

  /** Along such a run every node always holds a value. */
  lemma {:induction false} RunStaysFilled(p: Proof, st: States, fs: seq<Frontier>, orders: seq<seq<string>>, n: nat, ap: Applier)
    requires n < |fs| == |orders| && PlainRun(p, st, fs, orders, n, ap)
    ensures Filled(p.tree, [], After(p, fs, orders, n, ap).st)
  {
    hide *;
    PlainRunAt(p, st, fs, orders, n, ap);
    if n == 0 {
      AfterNone(p, fs, orders, ap);
      ComposedParts(p, st, fs[0], ap);
      ComposeFills(p.tree, [], st, fs[0], ap);
    } else {
      RunStaysFilled(p, st, fs, orders, n - 1, ap);
      var x := BeforePlainRead(p, st, fs, orders, n, ap);
      AfterStep(p, fs, orders, n, ap);
      ReadStaysFilled(After(p, fs, orders, n - 1, ap), x, fs[n - 1], fs[n], orders[n], ap);
    }
  }

  /**
   The cost of every read of every such run: nothing on the fast path; otherwise one miss for every changed node and every
   ancestor of one, and one call for the root and for each child of those nodes.
   */
  lemma RunCost(p: Proof, st: States, fs: seq<Frontier>, orders: seq<seq<string>>, n: nat, ap: Applier)
    requires 0 < n < |fs| == |orders| && PlainRun(p, st, fs, orders, n, ap)
    ensures var b := After(p, fs, orders, n - 1, ap);
            var r := Read(b, fs[n], orders[n], ap);
            && r.res.Ok?
            && (Verified(b.vv, fs[n]) ==> r.hits == r.misses == 0)
            && (!Verified(b.vv, fs[n]) ==>
                  && r.misses == |Touched(p.tree, [], b.vv, fs[n])|
                  && r.hits + r.misses == 1 + Calls(p.tree, [], Marked(b, orders[n]), Overlay(b, fs[n]))
                  && AllClean(p.tree, [], r.proof.st))
  {
    hide *;
    var b := After(p, fs, orders, n - 1, ap);
    PlainRunAt(p, st, fs, orders, n, ap);
    RunStaysFilled(p, st, fs, orders, n - 1, ap);
    var x := BeforePlainRead(p, st, fs, orders, n, ap);
    ReadExact(b, x, fs[n - 1], fs[n], orders[n], ap);
    PlainEvaluates(b.tree, Overlay(b, fs[n]), ap);
    if Verified(b.vv, fs[n]) {
      FastPath(b, fs[n], orders[n], ap);
    } else {
      ReadCost(b, x, fs[n - 1], fs[n], orders[n], ap);
    }
  }

  lemma FastPath(b: Proof, f: Frontier, order: seq<string>, ap: Applier)
    requires Verified(b.vv, f)
    ensures Read(b, f, order, ap) == ReadOut(Ok(b.value), b, 0, 0)
  {
    hide Marked, Reduce;
  }

  /** One composition of constants. */
  predicate Flat(t: Tree) {
    forall i :: 0 <= i < |t.kids| ==> t.kids[i].kids == []
  }

  lemma {:induction false} FlatCalls(t: Tree, pos: Pos, i: nat, st: States, x: map<string, Expr>)
    requires Flat(t) && i <= |t.kids|
    ensures CallsFrom(t, pos, i, st, x) == 0
    decreases |t.kids| - i
  {
    if i < |t.kids| {
      FlatCalls(t, pos, i + 1, st, x);
      assert Calls(t.kids[i], pos + [i], st, x) == 0;
    }
  }

  /** Changing one of N constants under one composition costs two misses and N - 1 hits. */
  lemma OneOfMany(p: Proof, st: States, fs: seq<Frontier>, orders: seq<seq<string>>, n: nat, ap: Applier, k: nat)
    requires 0 < n < |fs| == |orders| && PlainRun(p, st, fs, orders, n, ap) && Flat(p.tree) && k < |p.tree.kids|
    requires Changed(After(p, fs, orders, n - 1, ap).vv, fs[n]) == {p.tree.kids[k].path}
    ensures var r := Read(After(p, fs, orders, n - 1, ap), fs[n], orders[n], ap); r.misses == 2 && r.hits == |p.tree.kids| - 1
  {
    hide *;
    var b, f := After(p, fs, orders, n - 1, ap), fs[n];
    RunCost(p, st, fs, orders, n, ap);
    var x := BeforePlainRead(p, st, fs, orders, n, ap);
    OneTouched(b, f, k);
    FlatCost(b, f, orders[n], k);
  }

  lemma FlatCost(b: Proof, f: Frontier, order: seq<string>, k: nat)
    requires Indexed(b.tree, [], b.ix, b.vv) && Grounded(b.tree, b.ix) && Lists(order, Changed(b.vv, f))
    requires PlainTree(b.tree, Overlay(b, f)) && Flat(b.tree) && k < |b.tree.kids| && !Quiet(b.tree.kids[k], b.vv, f)
    ensures Calls(b.tree, [], Marked(b, order), Overlay(b, f)) == |b.tree.kids|
  {
    hide Marked, Indexed, CallsFrom;
    FlatCalls(b.tree, [], 0, Marked(b, order), Overlay(b, f));
    DirtyIffTouched(b, f, order, []);
  }

  lemma OneTouched(b: Proof, f: Frontier, k: nat)
    requires Indexed(b.tree, [], b.ix, b.vv) && Flat(b.tree) && k < |b.tree.kids|
    requires Changed(b.vv, f) == {b.tree.kids[k].path}
    ensures |Touched(b.tree, [], b.vv, f)| == 2 && !Verified(b.vv, f) && !Quiet(b.tree.kids[k], b.vv, f)
  {
    hide Touched;
    var t := b.tree;
    var c := t.kids[k].path;
    assert c in Changed(b.vv, f);
    forall j | 0 <= j < |t.kids| ensures Quiet(t.kids[j], b.vv, f) <==> j != k {
      assert Indexed(t.kids[j], [j], b.ix, b.vv) && Indexed(t.kids[k], [k], b.ix, b.vv);
      assert [j][0] == j && [k][0] == k;
      if j != k { assert t.kids[j].path !in Changed(b.vv, f); }
    }
    var two: set<Pos> := {[], [k]};
    forall q: Pos ensures q in Touched(t, [], b.vv, f) <==> q in two { FlatTouched(t, b.vv, f, k, q); }
    assert Touched(t, [], b.vv, f) == two;
  }

  lemma FlatTouched(t: Tree, vv: map<string, Hash>, f: Frontier, k: nat, q: Pos)
    requires Flat(t) && k < |t.kids| && forall j :: 0 <= j < |t.kids| ==> (Quiet(t.kids[j], vv, f) <==> j != k)
    ensures q in Touched(t, [], vv, f) <==> q == [] || q == [k]
  {
    hide Touched, Quiet;
    TouchedExact(t, [], vv, f, q);
    assert q[0..] == q;
    if q == [] {
      QuietKid(t, vv, f, k);
    } else if q[0] < |t.kids| {
      assert t.kids[q[0]].kids == [];
      assert InTree(t.kids[q[0]], q[1..]) <==> q[1..] == [];
      assert q[1..] == [] <==> q == [q[0]];
      assert InTree(t, q) ==> Sub(t, q) == t.kids[q[0]];
    }
  }

  lemma QuietKid(t: Tree, vv: map<string, Hash>, f: Frontier, k: nat)
    requires k < |t.kids|
    ensures Quiet(t, vv, f) ==> Quiet(t.kids[k], vv, f)
  {
  }
}
