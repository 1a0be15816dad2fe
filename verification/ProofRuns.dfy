/** Runs of reads against a changing frontier: no stale answer, and the exact cost of each read. */
module ProofRuns {
  import opened Core
  import opened ProofSpec
  import opened ProofReads
  import opened ProofWork

  /** Whatever changed since the receipt lies under nodes whose evaluation comes to it. */
  predicate Entered(t: Tree, x: map<string, Expr>, vv: map<string, Hash>, f: Frontier) {
    forall i :: 0 <= i < |t.kids| ==>
      (Quiet(t.kids[i], vv, f) || Enters(t, i, x)) && Entered(t.kids[i], x, vv, f)
  }

  lemma {:induction false} QuietIsClean(p: Proof, f: Frontier, order: seq<string>, t: Tree, pos: Pos)
    requires Indexed(p.tree, [], p.ix, p.vv) && Grounded(p.tree, p.ix) && Lists(order, Changed(p.vv, f))
    requires InTree(p.tree, pos) && t == Sub(p.tree, pos) && Indexed(t, pos, p.ix, p.vv)
    requires Quiet(t, p.vv, f)
    ensures AllClean(t, pos, Marked(p, order))
    decreases t
  {
    hide Marked;
    DirtyIffTouched(p, f, order, pos);
    forall i | 0 <= i < |t.kids|
      ensures AllClean(t.kids[i], pos + [i], Marked(p, order))
    {
      SubKid(p.tree, pos, i);
      QuietIsClean(p, f, order, t.kids[i], pos + [i]);
    }
  }

  lemma {:induction false} MarkedIsRipe(p: Proof, f: Frontier, order: seq<string>, x: map<string, Expr>, t: Tree, pos: Pos)
    requires Indexed(p.tree, [], p.ix, p.vv) && Grounded(p.tree, p.ix) && Lists(order, Changed(p.vv, f))
    requires InTree(p.tree, pos) && t == Sub(p.tree, pos) && Indexed(t, pos, p.ix, p.vv)
    requires Entered(t, x, p.vv, f)
    ensures Ripe(t, pos, Marked(p, order), x)
    decreases t
  {
    hide Marked;
    DirtyIffTouched(p, f, order, pos);
    forall i | 0 <= i < |t.kids|
      ensures Ripe(t.kids[i], pos + [i], Marked(p, order), x)
      ensures Quiet(t.kids[i], p.vv, f) ==> AllClean(t.kids[i], pos + [i], Marked(p, order))
    {
      SubKid(p.tree, pos, i);
      MarkedIsRipe(p, f, order, x, t.kids[i], pos + [i]);
      if Quiet(t.kids[i], p.vv, f) {
        QuietIsClean(p, f, order, t.kids[i], pos + [i]);
      }
    }
  }

  // ---------------------------------------------------------------- the invariant after a read

  lemma {:induction false} SettledLater(t: Tree, pos: Pos, p: Proof, x: map<string, Expr>, f0: Frontier, f: Frontier, ap: Applier)
    requires Settled(t, pos, p.st, p.vv, x, f0, ap) && Follows(p.vv, f0, f)
    ensures Settled(t, pos, p.st, p.vv, x, f, ap)
  {
    if Quiet(t, p.vv, f) { QuietBefore(t, p.vv, f0, f); }
    forall i | 0 <= i < |t.kids|
      ensures Settled(t.kids[i], pos + [i], p.st, p.vv, x, f, ap)
    {
      SettledLater(t.kids[i], pos + [i], p, x, f0, f, ap);
    }
  }

  /** After a failed read the nodes outside the changed part are as good as before. */
  lemma {:induction false} SettledAfterFailure(t: Tree, pos: Pos, p: Proof, x: map<string, Expr>, f0: Frontier, f: Frontier,
                                               order: seq<string>, st: States, ap: Applier)
    requires Indexed(p.tree, [], p.ix, p.vv) && Grounded(p.tree, p.ix) && Lists(order, Changed(p.vv, f))
    requires InTree(p.tree, pos) && t == Sub(p.tree, pos) && Indexed(t, pos, p.ix, p.vv)
    requires Follows(p.vv, f0, f) && Backs(p.vv, x, f0)
    requires Good(t, pos, st, Overlay(p, f), f, ap)
    requires forall q :: Node(st, q).dirty ==> Node(Marked(p, order), q).dirty
    ensures Settled(t, pos, st, p.vv, x, f, ap)
    decreases t
  {
    hide Marked, Eval;
    if Quiet(t, p.vv, f) {
      DirtyIffTouched(p, f, order, pos);
      QuietSame(t, p, x, f0, f);
      EvalAgrees(t, x, Overlay(p, f), ap);
    }
    forall i | 0 <= i < |t.kids|
      ensures Settled(t.kids[i], pos + [i], st, p.vv, x, f, ap)
    {
      SubKid(p.tree, pos, i);
      SettledAfterFailure(t.kids[i], pos + [i], p, x, f0, f, order, st, ap);
    }
  }

  lemma {:induction false} SettledAfterSuccess(t: Tree, pos: Pos, st: States, vv: map<string, Hash>, x: map<string, Expr>,
                                               f: Frontier, ap: Applier)
    requires Good(t, pos, st, x, f, ap) && AllClean(t, pos, st)
    ensures Settled(t, pos, st, vv, x, f, ap)
  {
    hide Eval;
    forall i | 0 <= i < |t.kids|
      ensures Settled(t.kids[i], pos + [i], st, vv, x, f, ap)
    {
      SettledAfterSuccess(t.kids[i], pos + [i], st, vv, x, f, ap);
    }
  }

  lemma {:induction false} IndexedByKeys(t: Tree, pos: Pos, ix: map<string, Pos>, vv: map<string, Hash>, vv': map<string, Hash>)
    requires Indexed(t, pos, ix, vv) && vv.Keys == vv'.Keys
    ensures Indexed(t, pos, ix, vv')
  {
    forall i | 0 <= i < |t.kids|
      ensures Indexed(t.kids[i], pos + [i], ix, vv')
    {
      IndexedByKeys(t.kids[i], pos + [i], ix, vv, vv');
    }
  }

  function Seen(p: Proof, x: map<string, Expr>, f: Frontier, r: ReadOut): map<string, Expr> {
    if Verified(p.vv, f) || r.res.Err? then x else Overlay(p, f)
  }

  /** A read keeps the invariant, whether it takes the fast path, recomputes or fails. */
  lemma ReadKeepsInv(p: Proof, x: map<string, Expr>, f0: Frontier, f: Frontier, order: seq<string>, ap: Applier)
    requires Inv(p, x, f0, ap) && Follows(p.vv, f0, f) && Lists(order, Changed(p.vv, f))
    requires Entered(p.tree, Overlay(p, f), p.vv, f)
    ensures var r := Read(p, f, order, ap); Inv(r.proof, Seen(p, x, f, r), f, ap)
  {
    hide Marked, Good, Settled, Eval, Indexed;
    var r := Read(p, f, order, ap);
    if Verified(p.vv, f) {
      SettledLater(p.tree, [], p, x, f0, f, ap);
      if Quiet(p.tree, p.vv, f) { QuietBefore(p.tree, p.vv, f0, f); }
    } else {
      var y := Overlay(p, f);
      var st := Marked(p, order);
      MarkedIsGood(p, x, f0, f, order, ap, p.tree, []);
      ReduceExact(p.tree, [], st, y, f, ap);
      var o := Reduce(p.tree, [], st, f, ap);
      if o.res.Err? {
        forall q
          ensures Node(o.st, q).dirty ==> Node(st, q).dirty
        {
          NeverDirties(p.tree, [], st, f, ap, q);
        }
        SettledAfterFailure(p.tree, [], p, x, f0, f, order, o.st, ap);
        if Quiet(p.tree, p.vv, f) { QuietBefore(p.tree, p.vv, f0, f); }
      } else {
        MarkedIsRipe(p, f, order, y, p.tree, []);
        ReduceWork(p.tree, [], st, y, f, ap);
        SettledAfterSuccess(p.tree, [], o.st, Renewed(p.vv, f), y, f, ap);
        IndexedByKeys(p.tree, [], p.ix, p.vv, Renewed(p.vv, f));
      }
    }
  }

  // ---------------------------------------------------------------- composing

  function Exprs(f: Frontier): map<string, Expr> {
    map q | q in f :: f[q].expr
  }

  /** The nodes as `buildProofNode` makes them: current expression, no value. */
  predicate Cold(t: Tree, pos: Pos, st: States, f: Frontier) {
    && t.path in f && Node(st, pos) == NodeState(f[t.path].expr, f[t.path].hash, Nil, false)
    && forall i :: 0 <= i < |t.kids| ==> Cold(t.kids[i], pos + [i], st, f)
  }

  /** What `ComposeProof` builds at frontier `f`, starting from the cold nodes `st`. */
  predicate Composed(p: Proof, st: States, f: Frontier, ap: Applier) {
    && Indexed(p.tree, [], p.ix, p.vv) && Grounded(p.tree, p.ix)
    && (forall q <- p.vv.Keys :: Current(q, p.vv[q], f))
    && Cold(p.tree, [], st, f)
    && Reduce(p.tree, [], st, f, ap).res == Ok(p.value)
    && p.st == Reduce(p.tree, [], st, f, ap).st
  }

  lemma {:induction false} ColdIsGood(t: Tree, pos: Pos, st: States, f: Frontier, ap: Applier)
    requires Cold(t, pos, st, f)
    ensures Good(t, pos, st, Exprs(f), f, ap) && AllClean(t, pos, st)
  {
    hide Eval;
    forall i | 0 <= i < |t.kids|
      ensures Good(t.kids[i], pos + [i], st, Exprs(f), f, ap) && AllClean(t.kids[i], pos + [i], st)
    {
      ColdIsGood(t.kids[i], pos + [i], st, f, ap);
    }
  }

  /** A fresh proof holds the plain value and satisfies the invariant. */
  lemma ComposeExact(p: Proof, st: States, f: Frontier, ap: Applier)
    requires Composed(p, st, f, ap)
    ensures Ok(p.value) == Eval(p.tree, Exprs(f), ap)
    ensures Inv(p, Exprs(f), f, ap)
  {
    hide Good, Eval, Indexed;
    ColdIsGood(p.tree, [], st, f, ap);
    ReduceExact(p.tree, [], st, Exprs(f), f, ap);
    forall q
      ensures Node(p.st, q).dirty ==> Node(st, q).dirty
    {
      NeverDirties(p.tree, [], st, f, ap, q);
    }
    CleanStays(p.tree, [], st, p.st);
    SettledAfterSuccess(p.tree, [], p.st, p.vv, Exprs(f), f, ap);
  }

  // ---------------------------------------------------------------- runs

  /** An atom that left a path never comes back to it, and its hash names one expression. */
  predicate NoReturn(fs: seq<Frontier>, i: int, j: int, k: int, q: string) {
    0 <= i <= j <= k < |fs| && q in fs[i] && Current(q, fs[i][q].hash, fs[k]) ==>
      && Current(q, fs[i][q].hash, fs[j])
      && fs[i][q].expr == fs[j][q].expr == fs[k][q].expr
  }

  ghost predicate AbaFree(fs: seq<Frontier>) {
    forall i, j, k, q :: NoReturn(fs, i, j, k, q)
  }

  /** The proof after reading at fs[1], ..., fs[n]. */
  function After(p: Proof, fs: seq<Frontier>, orders: seq<seq<string>>, n: nat, ap: Applier): Proof
    requires n < |fs| == |orders|
  {
    if n == 0 then p else Read(After(p, fs, orders, n - 1, ap), fs[n], orders[n], ap).proof
  }

  /** The answer of the n-th read. */
  function Answer(p: Proof, fs: seq<Frontier>, orders: seq<seq<string>>, n: nat, ap: Applier): Outcome
    requires 0 < n < |fs| == |orders|
  {
    Read(After(p, fs, orders, n - 1, ap), fs[n], orders[n], ap).res
  }

  /** The n-th read lists the changed paths in some order, and evaluation comes to every one of them. */
  ghost predicate StepOk(p: Proof, fs: seq<Frontier>, orders: seq<seq<string>>, n: nat, ap: Applier)
    requires 0 < n < |fs| == |orders|
  {
    var b := After(p, fs, orders, n - 1, ap);
    Lists(orders[n], Changed(b.vv, fs[n])) && Entered(b.tree, Overlay(b, fs[n]), b.vv, fs[n])
  }

  predicate Issued(q: string, h: Hash, fs: seq<Frontier>, k: int) {
    0 <= k < |fs| && Current(q, h, fs[k])
  }

  /** Every receipt was current at some frontier up to the n-th. */
  ghost predicate Receipts(vv: map<string, Hash>, fs: seq<Frontier>, n: int) {
    forall q <- vv.Keys :: exists k :: k <= n && Issued(q, vv[q], fs, k)
  }

  lemma ReceiptsFollow(vv: map<string, Hash>, fs: seq<Frontier>, n: nat)
    requires AbaFree(fs) && n + 1 < |fs| && Receipts(vv, fs, n)
    ensures Follows(vv, fs[n], fs[n + 1])
  {
    forall q | q in vv && Current(q, vv[q], fs[n + 1])
      ensures Current(q, vv[q], fs[n]) && fs[n][q].expr == fs[n + 1][q].expr
    {
      var k :| k <= n && Issued(q, vv[q], fs, k);
      assert NoReturn(fs, k, n, n + 1, q);
    }
  }

  lemma ReceiptsAtStart(p: Proof, st: States, fs: seq<Frontier>, ap: Applier)
    requires fs != [] && Composed(p, st, fs[0], ap)
    ensures Receipts(p.vv, fs, 0)
  {
    forall q | q in p.vv
      ensures exists k :: k <= 0 && Issued(q, p.vv[q], fs, k)
    {
      assert Issued(q, p.vv[q], fs, 0);
    }
  }

  /** A read replaces receipts only by hashes that are current. */
  lemma ReceiptsAfterRead(b: Proof, fs: seq<Frontier>, n: nat, order: seq<string>, ap: Applier)
    requires 0 < n < |fs| && Receipts(b.vv, fs, n - 1)
    ensures Receipts(Read(b, fs[n], order, ap).proof.vv, fs, n)
    ensures Read(b, fs[n], order, ap).proof.vv.Keys == b.vv.Keys
  {
    hide Marked, Reduce;
    var vv := Read(b, fs[n], order, ap).proof.vv;
    forall q | q in vv
      ensures exists k :: k <= n && Issued(q, vv[q], fs, k)
    {
      if vv[q] == b.vv[q] {
        var k :| k <= n - 1 && Issued(q, b.vv[q], fs, k);
      } else {
        assert Issued(q, vv[q], fs, n);
      }
    }
  }

  /** The invariant holds all along a run. */
  lemma {:induction false} RunInv(p: Proof, st: States, fs: seq<Frontier>, orders: seq<seq<string>>, n: nat, ap: Applier)
    returns (x: map<string, Expr>)
    requires n < |fs| == |orders| && Composed(p, st, fs[0], ap) && AbaFree(fs)
    requires forall i :: 0 < i <= n ==> StepOk(p, fs, orders, i, ap)
    ensures var a := After(p, fs, orders, n, ap);
            Inv(a, x, fs[n], ap) && Receipts(a.vv, fs, n) && a.tree == p.tree && a.vv.Keys == p.vv.Keys
    decreases n
  {
    hide *;
    if n == 0 {
      AfterNone(p, fs, orders, ap);
      ComposeExact(p, st, fs[0], ap);
      ReceiptsAtStart(p, st, fs, ap);
      x := Exprs(fs[0]);
    } else {
      var b := After(p, fs, orders, n - 1, ap);
      x := RunInv(p, st, fs, orders, n - 1, ap);
      ReceiptsFollow(b.vv, fs, n - 1);
      StepParts(p, fs, orders, n, ap);
      ReadKeepsInv(b, x, fs[n - 1], fs[n], orders[n], ap);
      ReceiptsAfterRead(b, fs, n, orders[n], ap);
      ReadKeepsTree(b, fs[n], orders[n], ap);
      AfterStep(p, fs, orders, n, ap);
      x := Seen(b, x, fs[n], Read(b, fs[n], orders[n], ap));
    }
  }

  lemma AfterNone(p: Proof, fs: seq<Frontier>, orders: seq<seq<string>>, ap: Applier)
    requires 0 < |fs| == |orders|
    ensures After(p, fs, orders, 0, ap) == p
  {
  }

  lemma AfterStep(p: Proof, fs: seq<Frontier>, orders: seq<seq<string>>, n: nat, ap: Applier)
    requires 0 < n < |fs| == |orders|
    ensures After(p, fs, orders, n, ap) == Read(After(p, fs, orders, n - 1, ap), fs[n], orders[n], ap).proof
    ensures Answer(p, fs, orders, n, ap) == Read(After(p, fs, orders, n - 1, ap), fs[n], orders[n], ap).res
  {
    hide Read;
  }

  lemma ReadKeepsTree(b: Proof, f: Frontier, order: seq<string>, ap: Applier)
    ensures Read(b, f, order, ap).proof.tree == b.tree && Read(b, f, order, ap).proof.ix == b.ix
  {
    hide Reduce, Marked;
  }

  lemma StepParts(p: Proof, fs: seq<Frontier>, orders: seq<seq<string>>, n: nat, ap: Applier)
    requires 0 < n < |fs| == |orders| && StepOk(p, fs, orders, n, ap)
    ensures var b := After(p, fs, orders, n - 1, ap);
            Lists(orders[n], Changed(b.vv, fs[n])) && Entered(b.tree, Overlay(b, fs[n]), b.vv, fs[n])
  {
  }

  lemma StepIsOk(p: Proof, fs: seq<Frontier>, orders: seq<seq<string>>, n: nat, ap: Applier)
    requires 0 < n < |fs| == |orders|
    requires Lists(orders[n], Changed(After(p, fs, orders, n - 1, ap).vv, fs[n]))
    requires var b := After(p, fs, orders, n - 1, ap); Entered(b.tree, Overlay(b, fs[n]), b.vv, fs[n])
    ensures StepOk(p, fs, orders, n, ap)
  {
  }

  lemma InvParts(b: Proof, x: map<string, Expr>, f: Frontier, ap: Applier)
    requires Inv(b, x, f, ap)
    ensures Indexed(b.tree, [], b.ix, b.vv) && Grounded(b.tree, b.ix)
  {
  }

  /** All that the n-th read of a run starts from. */
  lemma BeforeRead(p: Proof, st: States, fs: seq<Frontier>, orders: seq<seq<string>>, n: nat, ap: Applier)
    returns (x: map<string, Expr>)
    requires 0 < n < |fs| == |orders| && Composed(p, st, fs[0], ap) && AbaFree(fs)
    requires forall i :: 0 < i < n ==> StepOk(p, fs, orders, i, ap)
    ensures var b := After(p, fs, orders, n - 1, ap);
            && Inv(b, x, fs[n - 1], ap) && Follows(b.vv, fs[n - 1], fs[n]) && b.tree == p.tree && b.vv.Keys == p.vv.Keys
            && Indexed(b.tree, [], b.ix, b.vv) && Grounded(b.tree, b.ix)
  {
    hide *;
    var b := After(p, fs, orders, n - 1, ap);
    x := RunInv(p, st, fs, orders, n - 1, ap);
    ReceiptsFollow(b.vv, fs, n - 1);
    InvParts(b, x, fs[n - 1], ap);
  }

  lemma {:induction false} LiveOverlay(t: Tree, pos: Pos, p: Proof, f: Frontier)
    requires Indexed(t, pos, p.ix, p.vv) && (forall q <- p.vv.Keys :: q in f)
    ensures SameOn(t, Overlay(p, f), Exprs(f))
  {
    forall i | 0 <= i < |t.kids|
      ensures SameOn(t.kids[i], Overlay(p, f), Exprs(f))
    {
      LiveOverlay(t.kids[i], pos + [i], p, f);
    }
  }

  /**
   In every run whose earlier reads came to every change, each read evaluates the live paths at their
   current expression; a path that expired or was evicted keeps the expression it was last seen with.
   */
  lemma ReadsAreExact(p: Proof, st: States, fs: seq<Frontier>, orders: seq<seq<string>>, n: nat, ap: Applier)
    requires 0 < n < |fs| == |orders| && Composed(p, st, fs[0], ap) && AbaFree(fs)
    requires forall i :: 0 < i < n ==> StepOk(p, fs, orders, i, ap)
    requires Lists(orders[n], Changed(After(p, fs, orders, n - 1, ap).vv, fs[n]))
    ensures var b := After(p, fs, orders, n - 1, ap);
            && b.tree == p.tree && b.vv.Keys == p.vv.Keys && Indexed(b.tree, [], b.ix, b.vv)
            && Answer(p, fs, orders, n, ap) == Eval(p.tree, Overlay(b, fs[n]), ap)
  {
    hide *;
    var x := BeforeRead(p, st, fs, orders, n, ap);
    AfterStep(p, fs, orders, n, ap);
    ReadExact(After(p, fs, orders, n - 1, ap), x, fs[n - 1], fs[n], orders[n], ap);
  }

  /**
   No stale reads. In every run of reads of a composed proof, while the frontier changes under it and
   the earlier reads came to every change, each read whose receipt paths are live answers exactly what
   evaluating the node tree from scratch against the frontier of that moment answers, failures included.
   */
  lemma NoStaleReads(p: Proof, st: States, fs: seq<Frontier>, orders: seq<seq<string>>, n: nat, ap: Applier)
    requires 0 < n < |fs| == |orders| && Composed(p, st, fs[0], ap) && AbaFree(fs)
    requires forall i :: 0 < i < n ==> StepOk(p, fs, orders, i, ap)
    requires Lists(orders[n], Changed(After(p, fs, orders, n - 1, ap).vv, fs[n]))
    requires forall q <- p.vv.Keys :: q in fs[n]
    ensures Answer(p, fs, orders, n, ap) == Eval(p.tree, Exprs(fs[n]), ap)
  {
    hide *;
    var b := After(p, fs, orders, n - 1, ap);
    ReadsAreExact(p, st, fs, orders, n, ap);
    LiveOverlay(p.tree, [], b, fs[n]);
    EvalAgrees(p.tree, Overlay(b, fs[n]), Exprs(fs[n]), ap);
  }

  // ---------------------------------------------------------------- compositions in place

  /** Every node with children is live and holds a composition. */
  predicate Kept(t: Tree, f: Frontier) {
    && (t.kids != [] ==> t.path in f && f[t.path].expr.ECompose?)
    && forall i :: 0 <= i < |t.kids| ==> Kept(t.kids[i], f)
  }

  /** While the compositions are kept, evaluation comes to every change. */
  lemma {:induction false} KeptIsEntered(t: Tree, pos: Pos, b: Proof, f: Frontier)
    requires Kept(t, f) && Indexed(t, pos, b.ix, b.vv)
    ensures Entered(t, Overlay(b, f), b.vv, f)
  {
    hide Quiet;
    forall i | 0 <= i < |t.kids| ensures Enters(t, i, Overlay(b, f)) && Entered(t.kids[i], Overlay(b, f), b.vv, f) {
      KeptIsEntered(t.kids[i], pos + [i], b, f);
    }
  }

  /** Each read lists the changed paths in some order. */
  ghost predicate Listed(p: Proof, fs: seq<Frontier>, orders: seq<seq<string>>, n: nat, ap: Applier)
    requires n < |fs| == |orders|
  {
    forall i :: 0 < i <= n ==> Lists(orders[i], Changed(After(p, fs, orders, i - 1, ap).vv, fs[i]))
  }

  /** Compositions kept at each read make every read step of the run come to every change. */
  lemma {:induction false} KeptSteps(p: Proof, st: States, fs: seq<Frontier>, orders: seq<seq<string>>, n: nat, ap: Applier)
    requires n < |fs| == |orders| && Composed(p, st, fs[0], ap) && AbaFree(fs) && Listed(p, fs, orders, n, ap)
    requires forall i :: 0 < i <= n ==> Kept(p.tree, fs[i])
    ensures forall i :: 0 < i <= n ==> StepOk(p, fs, orders, i, ap)
  {
    hide *;
    if n > 0 {
      ListedAt(p, fs, orders, n, ap);
      KeptSteps(p, st, fs, orders, n - 1, ap);
      var x := BeforeRead(p, st, fs, orders, n, ap);
      var b := After(p, fs, orders, n - 1, ap);
      KeptIsEntered(b.tree, [], b, fs[n]);
      StepIsOk(p, fs, orders, n, ap);
    }
  }

  lemma ListedAt(p: Proof, fs: seq<Frontier>, orders: seq<seq<string>>, n: nat, ap: Applier)
    requires 0 < n < |fs| == |orders| && Listed(p, fs, orders, n, ap)
    ensures Listed(p, fs, orders, n - 1, ap) && Lists(orders[n], Changed(After(p, fs, orders, n - 1, ap).vv, fs[n]))
  {
    hide After, Changed;
  }
}
