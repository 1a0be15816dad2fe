/**
 The source hash of a proof node (internal/engine/incremental.go, reduceDirty): along every run it is the receipt of the node's
 path, whichever nodes a read brings up to date.
 */
module SourceHashes {
  import opened Core
  import opened ProofSpec
  import opened ProofReads
  import opened ProofWork
  import opened ProofRuns
  import opened HeldValues

  /** What one reduction does to its own node. */
  lemma OwnHash(t: Tree, pos: Pos, st: States, f: Frontier, ap: Applier)
    requires t.path != "" && t.path in f
    ensures var n, n' := Node(st, pos), Node(Reduce(t, pos, st, f, ap).st, pos);
            && (n.hash == f[t.path].hash ==> n'.hash == f[t.path].hash)
            && ((n.dirty || n.hash == f[t.path].hash) && !n'.dirty ==> n'.hash == f[t.path].hash)
  {
    hide Compute;
    var n := Refreshed(Node(st, pos), t.path, f);
    SelfKept(t, pos, n.expr, st[pos := n], f, ap);
  }

  /** What a whole read does to the node at `q`: a right hash stays right, and a node that was brought up to date has it. */
  lemma HashAfter(t: Tree, st: States, x: map<string, Expr>, f: Frontier, ap: Applier, q: Pos)
    requires InTree(t, q) && Sub(t, q).path != "" && Sub(t, q).path in f
    ensures var n, n', h := Node(st, q), Node(Reduce(t, [], st, f, ap).st, q), f[Sub(t, q).path].hash;
            && (n.hash == h ==> n'.hash == h)
            && ((n.dirty || n.hash == h) && !n'.dirty ==> n'.hash == h)
  {
    hide Reduce;
    assert [] + q == q;
    var visited, s := Visits(t, [], st, x, f, ap, q);
    OwnHash(Sub(t, q), q, s, f, ap);
  }

  /** Wherever a receipt holds, it is the source hash of its node. */
  ghost predicate Stamped(b: Proof, f: Frontier) {
    forall q :: InTree(b.tree, q) ==> StampedAt(b, f, q)
  }

  predicate StampedAt(b: Proof, f: Frontier, q: Pos)
    requires InTree(b.tree, q)
  {
    var c := Sub(b.tree, q).path;
    c in b.vv && Current(c, b.vv[c], f) ==> Node(b.st, q).hash == b.vv[c]
  }

  lemma {:induction false} ColdHashes(t: Tree, pos: Pos, st: States, f: Frontier, q: Pos)
    requires Cold(t, pos, st, f) && InTree(t, q)
    ensures Sub(t, q).path in f && Node(st, pos + q).hash == f[Sub(t, q).path].hash
  {
    if q == [] {
      assert pos + q == pos;
    } else {
      ColdHashes(t.kids[q[0]], pos + [q[0]], st, f, q[1..]);
      assert pos + [q[0]] + q[1..] == pos + q;
    }
  }

  lemma {:induction false} PathsNamed(t: Tree, pos: Pos, ix: map<string, Pos>, vv: map<string, Hash>, q: Pos)
    requires Indexed(t, pos, ix, vv) && InTree(t, q)
    ensures Sub(t, q).path != "" && Sub(t, q).path in vv && Indexed(Sub(t, q), pos + q, ix, vv)
  {
    if q == [] {
      assert pos + q == pos;
    } else {
      PathsNamed(t.kids[q[0]], pos + [q[0]], ix, vv, q[1..]);
      assert pos + [q[0]] + q[1..] == pos + q;
    }
  }

  lemma ComposedStamped(p: Proof, st: States, f: Frontier, ap: Applier)
    requires Composed(p, st, f, ap)
    ensures Stamped(p, f)
  {
    hide Reduce, Indexed, Cold;
    forall q | InTree(p.tree, q) ensures StampedAt(p, f, q) {
      assert [] + q == q;
      ColdHashes(p.tree, [], st, f, q);
      PathsNamed(p.tree, [], p.ix, p.vv, q);
      HashAfter(p.tree, st, map[], f, ap, q);
    }
  }

  lemma {:induction false} CleanInside(t: Tree, pos: Pos, st: States, q: Pos)
    requires AllClean(t, pos, st) && InTree(t, q)
    ensures !Node(st, pos + q).dirty
  {
    if q == [] {
      assert pos + q == pos;
    } else {
      CleanInside(t.kids[q[0]], pos + [q[0]], st, q[1..]);
      assert pos + [q[0]] + q[1..] == pos + q;
    }
  }

  lemma StampedNode(b: Proof, f0: Frontier, f: Frontier, order: seq<string>, ap: Applier, q: Pos)
    requires Indexed(b.tree, [], b.ix, b.vv) && Grounded(b.tree, b.ix) && Stamped(b, f0) && Follows(b.vv, f0, f)
    requires Lists(order, Changed(b.vv, f)) && InTree(b.tree, q) && Sub(b.tree, q).path in f && Sub(b.tree, q).path in b.vv
    ensures var n', c := Node(Reduce(b.tree, [], Marked(b, order), f, ap).st, q), Sub(b.tree, q).path;
            (Current(c, b.vv[c], f) || !n'.dirty) ==> n'.hash == f[c].hash
  {
    hide Reduce, Marked, Indexed, Grounded, Changed, Quiet;
    var c := Sub(b.tree, q).path;
    PathsNamed(b.tree, [], b.ix, b.vv, q);
    assert [] + q == q;
    DirtyIffTouched(b, f, order, q);
    QuietRoot(Sub(b.tree, q), b.vv, f);
    assert StampedAt(b, f0, q);
    HashAfter(b.tree, Marked(b, order), map[], f, ap, q);
  }

  lemma QuietRoot(t: Tree, vv: map<string, Hash>, f: Frontier)
    ensures Quiet(t, vv, f) ==> t.path in vv && Current(t.path, vv[t.path], f)
  {
  }

  lemma ReadStamps(b: Proof, x: map<string, Expr>, f0: Frontier, f: Frontier, order: seq<string>, ap: Applier)
    requires Inv(b, x, f0, ap) && Follows(b.vv, f0, f) && Lists(order, Changed(b.vv, f)) && Stamped(b, f0)
    requires Entered(b.tree, Overlay(b, f), b.vv, f)
    ensures Stamped(Read(b, f, order, ap).proof, f)
  {
    hide Reduce, Marked, Indexed, Settled, Eval, Changed, Grounded, Good, Overlay;
    var r := Read(b, f, order, ap);
    if Verified(b.vv, f) {
      forall q | InTree(b.tree, q) ensures StampedAt(r.proof, f, q) { assert StampedAt(b, f0, q); }
    } else {
      if r.res.Ok? { NothingDirtyLeft(b, x, f0, f, order, ap); }
      forall q | InTree(b.tree, q) ensures StampedAt(r.proof, f, q) {
        PathsNamed(b.tree, [], b.ix, b.vv, q);
        if Sub(b.tree, q).path in f {
          StampedNode(b, f0, f, order, ap, q);
          if r.res.Ok? { CleanInside(b.tree, [], r.proof.st, q); assert [] + q == q; }
        }
      }
    }
  }

  lemma NothingDirtyLeft(b: Proof, x: map<string, Expr>, f0: Frontier, f: Frontier, order: seq<string>, ap: Applier)
    requires Inv(b, x, f0, ap) && Follows(b.vv, f0, f) && Lists(order, Changed(b.vv, f))
    requires Entered(b.tree, Overlay(b, f), b.vv, f) && Reduce(b.tree, [], Marked(b, order), f, ap).res.Ok?
    ensures AllClean(b.tree, [], Reduce(b.tree, [], Marked(b, order), f, ap).st)
  {
    hide Reduce, Marked, Indexed, Eval, Changed, Grounded, Good, Settled, Ripe;
    MarkedIsGood(b, x, f0, f, order, ap, b.tree, []);
    MarkedIsRipe(b, f, order, Overlay(b, f), b.tree, []);
    ReduceWork(b.tree, [], Marked(b, order), Overlay(b, f), f, ap);
  }

  /**
   Along every run whose reads came to every change, failed reads included, the source hash of every node whose receipt holds
   is that receipt.
   */
  lemma {:induction false} RunStaysStamped(p: Proof, st: States, fs: seq<Frontier>, orders: seq<seq<string>>, n: nat, ap: Applier)
    requires n < |fs| == |orders| && Composed(p, st, fs[0], ap) && AbaFree(fs)
    requires forall i :: 0 < i <= n ==> StepOk(p, fs, orders, i, ap)
    ensures Stamped(After(p, fs, orders, n, ap), fs[n])
  {
    hide *;
    if n == 0 {
      AfterNone(p, fs, orders, ap);
      ComposedStamped(p, st, fs[0], ap);
    } else {
      RunStaysStamped(p, st, fs, orders, n - 1, ap);
      var x := BeforeRead(p, st, fs, orders, n, ap);
      StepParts(p, fs, orders, n, ap);
      AfterStep(p, fs, orders, n, ap);
      ReadStamps(After(p, fs, orders, n - 1, ap), x, fs[n - 1], fs[n], orders[n], ap);
    }
  }
}
