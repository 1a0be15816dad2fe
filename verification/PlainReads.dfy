/**
 Proofs whose nodes hold their plain values, whatever else happened to them (internal/engine/incremental.go): the next
 live read of such a proof is exact.
 */
module PlainReads {
  import opened Core
  import opened ProofSpec
  import opened ProofReads
  import opened ProofWork
  import opened ProofRuns
  import opened HeldValues

  // ---------------------------------------------------------------- the condition

  /** Every node below the root whose subtree has not changed holds its plain value, and a verified answer is plain. */
  ghost predicate HoldsPlain(b: Proof, f: Frontier, ap: Applier) {
    && (Verified(b.vv, f) ==> Eval(b.tree, Exprs(f), ap) == Ok(b.value))
    && forall q :: HoldsPlainAt(b, f, ap, q)
  }

  ghost predicate HoldsPlainAt(b: Proof, f: Frontier, ap: Applier, q: Pos) {
    q != [] && InTree(b.tree, q) && Quiet(Sub(b.tree, q), b.vv, f) ==> HoldsAt(b, f, ap, q)
  }

  predicate HoldsAt(b: Proof, f: Frontier, ap: Applier, q: Pos) {
    InTree(b.tree, q) && Held(Sub(b.tree, q), q, b.st, ap) == Eval(Sub(b.tree, q), Exprs(f), ap)
  }

  predicate Alive(t: Tree, f: Frontier) {
    t.path in f && forall i :: 0 <= i < |t.kids| ==> Alive(t.kids[i], f)
  }

  /** A proof whose receipts are those of its own nodes. */
  predicate Registered(b: Proof) {
    Indexed(b.tree, [], b.ix, b.vv) && Grounded(b.tree, b.ix) && b.vv.Keys <= b.ix.Keys
  }

  lemma {:induction false} IndexedInside(t: Tree, pos: Pos, ix: map<string, Pos>, vv: map<string, Hash>, q: Pos)
    requires Indexed(t, pos, ix, vv) && InTree(t, q)
    ensures Indexed(Sub(t, q), pos + q, ix, vv)
  {
    if q == [] {
      assert pos + q == pos;
    } else {
      IndexedInside(t.kids[q[0]], pos + [q[0]], ix, vv, q[1..]);
      assert pos + [q[0]] + q[1..] == pos + q;
    }
  }

  lemma IndexedAt(b: Proof, q: Pos)
    requires Registered(b) && InTree(b.tree, q)
    ensures Indexed(Sub(b.tree, q), q, b.ix, b.vv)
  {
    IndexedInside(b.tree, [], b.ix, b.vv, q);
    assert [] + q == q;
  }

  lemma VerifiedIffQuiet(b: Proof, f: Frontier)
    requires Registered(b)
    ensures Verified(b.vv, f) <==> Quiet(b.tree, b.vv, f)
  {
    if Verified(b.vv, f) { AllQuiet(b.tree, [], b.ix, b.vv, f); }
    if Quiet(b.tree, b.vv, f) {
      forall c | c in b.vv ensures Current(c, b.vv[c], f) { QuietInside(b.tree, b.vv, f, b.ix[c]); }
    }
  }

  lemma {:induction false} QuietExprs(t: Tree, vv: map<string, Hash>, f0: Frontier, f: Frontier)
    requires Quiet(t, vv, f) && Follows(vv, f0, f)
    ensures Quiet(t, vv, f0) && SameOn(t, Exprs(f0), Exprs(f))
  {
    forall i | 0 <= i < |t.kids| ensures Quiet(t.kids[i], vv, f0) && SameOn(t.kids[i], Exprs(f0), Exprs(f)) {
      QuietExprs(t.kids[i], vv, f0, f);
    }
  }

  /** An unchanged subtree has the plain value it had. */
  lemma QuietEval(t: Tree, vv: map<string, Hash>, f0: Frontier, f: Frontier, ap: Applier)
    requires Quiet(t, vv, f) && Follows(vv, f0, f)
    ensures Quiet(t, vv, f0) && Eval(t, Exprs(f0), ap) == Eval(t, Exprs(f), ap)
  {
    hide Eval;
    QuietExprs(t, vv, f0, f);
    EvalAgrees(t, Exprs(f0), Exprs(f), ap);
  }

  /** Marking changes nothing that a node holds. */
  lemma HeldMarked(b: Proof, order: seq<string>, t: Tree, pos: Pos, ap: Applier)
    ensures Held(t, pos, Marked(b, order), ap) == Held(t, pos, b.st, ap)
  {
    hide Marked, Reduce;
    var s, s' := Cleared(Marked(b, order)), Cleared(b.st);
    forall q ensures Agree(s, s', pos, q) { MarkedState(b, order, q); }
    AgreeIsSame(t, pos, s, s');
    ClearedIsClean(t, pos, Marked(b, order));
    ReduceClean(t, pos, s, s', map[], map[], ap);
  }

  // ---------------------------------------------------------------- it is enough

  /** A read at `f` of a proof that held its plain values at `f0`. */
  ghost predicate Due(b: Proof, f0: Frontier, f: Frontier, order: seq<string>, ap: Applier) {
    Registered(b) && HoldsPlain(b, f0, ap) && Follows(b.vv, f0, f) && Lists(order, Changed(b.vv, f))
  }

  /** A live node of the proof, as `reduceDirty` comes to it. */
  ghost predicate ComesTo(b: Proof, f: Frontier, order: seq<string>, t: Tree, pos: Pos, st: States) {
    InTree(b.tree, pos) && t == Sub(b.tree, pos) && Alive(t, f) && SameUnder(t, pos, Marked(b, order), st)
  }

  /** An unchanged node answers what it holds. */
  lemma QuietAnswers(b: Proof, f0: Frontier, f: Frontier, order: seq<string>, ap: Applier, t: Tree, pos: Pos, st: States)
    requires Due(b, f0, f, order, ap) && ComesTo(b, f, order, t, pos, st) && Quiet(t, b.vv, f) && pos != []
    ensures Reduce(t, pos, st, f, ap).res == Eval(t, Exprs(f), ap)
  {
    hide Reduce, Eval, Marked, Follows, Indexed, Grounded, Changed;
    IndexedAt(b, pos);
    QuietIsClean(b, f, order, t, pos);
    HeldIsAnswered(t, pos, Marked(b, order), f, ap);
    ReduceClean(t, pos, Marked(b, order), st, f, f, ap);
    HeldMarked(b, order, t, pos, ap);
    QuietEval(t, b.vv, f0, f, ap);
    assert HoldsPlainAt(b, f0, ap, pos);
  }

  /** Every live node that the read comes to answers its plain value. */
  lemma {:induction false} AliveAnswers(b: Proof, f0: Frontier, f: Frontier, order: seq<string>, ap: Applier, t: Tree, pos: Pos, st: States)
    requires Due(b, f0, f, order, ap) && ComesTo(b, f, order, t, pos, st) && (pos != [] || !Quiet(t, b.vv, f))
    ensures Reduce(t, pos, st, f, ap).res == Eval(t, Exprs(f), ap)
    decreases t, |t.kids| + 3
  {
    hide Compute, Eval, Due, Marked;
    if Quiet(t, b.vv, f) {
      QuietAnswers(b, f0, f, order, ap, t, pos, st);
    } else {
      ChangedIsDirty(b, f0, f, order, ap, t, pos);
      var n := Refreshed(Node(st, pos), t.path, f);
      ParentChangeUnder(t, pos, st, n);
      forall j | 0 <= j < |t.kids| ensures ComesTo(b, f, order, t.kids[j], pos + [j], st[pos := n]) {
        SubKid(b.tree, pos, j);
        SameTrans(t.kids[j], pos + [j], Marked(b, order), st, st[pos := n]);
      }
      AliveComputes(b, f0, f, order, ap, t, pos, st[pos := n]);
    }
  }

  lemma ChangedIsDirty(b: Proof, f0: Frontier, f: Frontier, order: seq<string>, ap: Applier, t: Tree, pos: Pos)
    requires Due(b, f0, f, order, ap) && InTree(b.tree, pos) && t == Sub(b.tree, pos) && !Quiet(t, b.vv, f)
    ensures Node(Marked(b, order), pos).dirty && t.path != ""
  {
    hide Marked, HoldsPlain;
    IndexedAt(b, pos);
    DirtyIffTouched(b, f, order, pos);
  }

  /** The children from `i` on as the read comes to them. */
  ghost predicate ComesToKids(b: Proof, f: Frontier, order: seq<string>, t: Tree, pos: Pos, i: nat, st: States) {
    forall j :: i <= j < |t.kids| ==> ComesTo(b, f, order, t.kids[j], pos + [j], st)
  }

  lemma {:induction false} AliveComputes(b: Proof, f0: Frontier, f: Frontier, order: seq<string>, ap: Applier, t: Tree, pos: Pos, st: States)
    requires Due(b, f0, f, order, ap) && t.path in f && ComesToKids(b, f, order, t, pos, 0, st)
    ensures Compute(t, pos, f[t.path].expr, st, f, ap).res == Eval(t, Exprs(f), ap)
    decreases t, |t.kids| + 2
  {
    hide Due, Reduce, ReduceKids, EvalKids, ComesToKids;
    match f[t.path].expr
    case EFieldAccess(_, _) =>
      if t.kids != [] { AliveKid(b, f0, f, order, ap, t, pos, 0, st); }
    case ECompose(_) => AliveKids(b, f0, f, order, ap, t, pos, 0, map[], st);
    case EApply(_, _) =>
      if |t.kids| >= 2 {
        AliveKid(b, f0, f, order, ap, t, pos, 0, st);
        AliveKid(b, f0, f, order, ap, t, pos, 1, Reduce(t.kids[0], pos + [0], st, f, ap).st);
      }
    case _ =>
  }

  lemma {:induction false} AliveKid(b: Proof, f0: Frontier, f: Frontier, order: seq<string>, ap: Applier, t: Tree, pos: Pos, i: nat, st: States)
    requires Due(b, f0, f, order, ap) && i < |t.kids| && ComesToKids(b, f, order, t, pos, i, st)
    ensures var o := Reduce(t.kids[i], pos + [i], st, f, ap);
            o.res == Eval(t.kids[i], Exprs(f), ap) && ComesToKids(b, f, order, t, pos, i + 1, o.st)
    decreases t, 0
  {
    hide Due, Reduce, Eval, SameUnder, Marked;
    AliveAnswers(b, f0, f, order, ap, t.kids[i], pos + [i], st);
    var o := Reduce(t.kids[i], pos + [i], st, f, ap);
    forall j | i + 1 <= j < |t.kids| ensures ComesTo(b, f, order, t.kids[j], pos + [j], o.st) {
      SiblingUnder(t, pos, i, j, st, f, ap);
      SameTrans(t.kids[j], pos + [j], Marked(b, order), st, o.st);
    }
  }

  lemma {:induction false} AliveKids(b: Proof, f0: Frontier, f: Frontier, order: seq<string>, ap: Applier, t: Tree, pos: Pos, i: nat,
                                     rec: map<string, Value>, st: States)
    requires Due(b, f0, f, order, ap) && i <= |t.kids| && ComesToKids(b, f, order, t, pos, i, st)
    ensures ReduceKids(t, pos, i, rec, st, f, ap).res == EvalKids(t, i, rec, Exprs(f), ap)
    decreases t, 1, |t.kids| - i
  {
    hide Due, Reduce, Eval, ComesToKids;
    if i < |t.kids| {
      AliveKid(b, f0, f, order, ap, t, pos, i, st);
      var o := Reduce(t.kids[i], pos + [i], st, f, ap);
      if o.res.Ok? { AliveKids(b, f0, f, order, ap, t, pos, i + 1, rec[t.kids[i].path := o.res.value], o.st); }
    }
  }

  lemma {:induction false} ReceiptsAlive(t: Tree, pos: Pos, b: Proof, f: Frontier)
    requires Indexed(t, pos, b.ix, b.vv) && (forall c <- b.vv.Keys :: c in f)
    ensures Alive(t, f)
  {
    forall i | 0 <= i < |t.kids| ensures Alive(t.kids[i], f) { ReceiptsAlive(t.kids[i], pos + [i], b, f); }
  }

  /** A live read of a proof that holds its plain values is exact. */
  lemma PlainReadIsExact(b: Proof, f0: Frontier, f: Frontier, order: seq<string>, ap: Applier)
    requires Due(b, f0, f, order, ap) && (forall c <- b.vv.Keys :: c in f)
    ensures Read(b, f, order, ap).res == Eval(b.tree, Exprs(f), ap)
  {
    hide Reduce, Eval, Marked, Indexed, Grounded, Follows;
    VerifiedIffQuiet(b, f);
    if Verified(b.vv, f) {
      QuietEval(b.tree, b.vv, f0, f, ap);
      VerifiedIffQuiet(b, f0);
    } else {
      ReceiptsAlive(b.tree, [], b, f);
      SameSelf(b.tree, [], Marked(b, order));
      AliveAnswers(b, f0, f, order, ap, b.tree, [], Marked(b, order));
    }
  }
}
