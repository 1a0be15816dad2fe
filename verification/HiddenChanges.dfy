/**
 Changes that a read does not come to (internal/engine/incremental.go). The read renews their receipts all the same, so
 what later reads answer rests on what the nodes hold; this module says exactly when those reads are exact.
 */
module HiddenChanges {
  import opened Core
  import opened ProofSpec
  import opened ProofReads
  import opened ProofWork
  import opened ProofRuns
  import opened HeldValues
  import opened PlainReads
  import opened StaleNodes

  // ---------------------------------------------------------------- what a read overlooks

  /** The node at `q` changed, and the evaluation at `f` does not come to it. */
  predicate Overlooked(b: Proof, f: Frontier, q: Pos) {
    && InTree(b.tree, q) && !Reached(b.tree, q, Overlay(b, f))
    && !Quiet(Sub(b.tree, q), b.vv, f) && Alive(Sub(b.tree, q), f)
  }

  /** What the read overlooks holds its plain value nevertheless. */
  ghost predicate Harmless(b: Proof, f: Frontier, ap: Applier) {
    forall q :: Overlooked(b, f, q) ==> HoldsAt(b, f, ap, q)
  }

  // ---------------------------------------------------------------- what one read does to the condition

  lemma {:induction false} RenewedQuiet(t: Tree, pos: Pos, b: Proof, f: Frontier)
    requires Indexed(t, pos, b.ix, b.vv)
    ensures Quiet(t, Renewed(b.vv, f), f) ==> Alive(t, f)
  {
    if Quiet(t, Renewed(b.vv, f), f) {
      forall i | 0 <= i < |t.kids| ensures Alive(t.kids[i], f) { RenewedQuiet(t.kids[i], pos + [i], b, f); }
    }
  }

  lemma {:induction false} AliveIsRenewed(t: Tree, pos: Pos, b: Proof, f: Frontier)
    requires Indexed(t, pos, b.ix, b.vv) && Alive(t, f)
    ensures Quiet(t, Renewed(b.vv, f), f)
  {
    forall i | 0 <= i < |t.kids| ensures Quiet(t.kids[i], Renewed(b.vv, f), f) { AliveIsRenewed(t.kids[i], pos + [i], b, f); }
  }

  /** Everything above a changed node is dirty. */
  lemma {:induction false} WayDown(b: Proof, f: Frontier, order: seq<string>, t: Tree, pos: Pos, q: Pos)
    requires Registered(b) && Lists(order, Changed(b.vv, f))
    requires InTree(b.tree, pos) && t == Sub(b.tree, pos) && Indexed(t, pos, b.ix, b.vv) && InTree(t, q) && !Quiet(Sub(t, q), b.vv, f)
    ensures OnTheWay(t, pos, Marked(b, order), Overlay(b, f), f, q) && !Quiet(t, b.vv, f)
    decreases t
  {
    hide Marked, Grounded, Changed;
    if Quiet(t, b.vv, f) { QuietInside(t, b.vv, f, q); }
    if q != [] {
      DirtyIffTouched(b, f, order, pos);
      SubKid(b.tree, pos, q[0]);
      WayDown(b, f, order, t.kids[q[0]], pos + [q[0]], q[1..]);
    }
  }

  /** Unchanged nodes hold what they held, whether the read succeeds or not. */
  lemma QuietKept(b: Proof, f: Frontier, order: seq<string>, ap: Applier, q: Pos)
    requires Registered(b) && Lists(order, Changed(b.vv, f)) && InTree(b.tree, q) && Quiet(Sub(b.tree, q), b.vv, f)
    ensures Held(Sub(b.tree, q), q, Reduce(b.tree, [], Marked(b, order), f, ap).st, ap) == Held(Sub(b.tree, q), q, b.st, ap)
  {
    hide Reduce, Marked, Held, Quiet, Indexed, Grounded, Changed, SameUnder;
    var t, st := Sub(b.tree, q), Marked(b, order);
    var after := Reduce(b.tree, [], st, f, ap).st;
    assert [] + q == q;
    var visited, s := Visits(b.tree, [], st, Overlay(b, f), f, ap, q);
    HeldMarked(b, order, t, q, ap);
    HeldSame(t, q, st, s, ap);
    if visited {
      IndexedAt(b, q);
      QuietIsClean(b, f, order, t, q);
      CleanFrame(t, q, st, s);
      HeldAfter(t, q, s, f, ap);
      HeldIsAnswered(t, q, s, f, ap);
      HeldSame(t, q, Reduce(t, q, s, f, ap).st, after, ap);
    } else {
      HeldSame(t, q, st, after, ap);
    }
  }

  /** A successful read brings a changed node up to date if it comes to it, and leaves it alone if not. */
  lemma ChangedKeptOrRenewed(b: Proof, f0: Frontier, f: Frontier, order: seq<string>, ap: Applier, q: Pos)
    requires Due(b, f0, f, order, ap) && InTree(b.tree, q) && !Quiet(Sub(b.tree, q), b.vv, f)
    requires Reduce(b.tree, [], Marked(b, order), f, ap).res.Ok? && Alive(Sub(b.tree, q), f)
    ensures Held(Sub(b.tree, q), q, Reduce(b.tree, [], Marked(b, order), f, ap).st, ap) ==
            if Reached(b.tree, q, Overlay(b, f)) then Eval(Sub(b.tree, q), Exprs(f), ap) else Held(Sub(b.tree, q), q, b.st, ap)
  {
    hide *;
    var t, st := Sub(b.tree, q), Marked(b, order);
    var after := Reduce(b.tree, [], st, f, ap).st;
    assert [] + q == q;
    DueParts(b, f0, f, order, ap);
    WayDown(b, f, order, b.tree, [], q);
    var visited, s := Visits(b.tree, [], st, Overlay(b, f), f, ap, q);
    OnceParts(t, q, st, f, ap, after, visited, s);
    if visited {
      ComesToIt(b, f, order, t, q, s);
      AliveAnswers(b, f0, f, order, ap, t, q, s);
      HeldAfter(t, q, s, f, ap);
      HeldSame(t, q, Reduce(t, q, s, f, ap).st, after, ap);
    } else {
      HeldMarked(b, order, t, q, ap);
      HeldSame(t, q, st, after, ap);
    }
  }

  lemma DueParts(b: Proof, f0: Frontier, f: Frontier, order: seq<string>, ap: Applier)
    requires Due(b, f0, f, order, ap)
    ensures Registered(b) && Lists(order, Changed(b.vv, f)) && Follows(b.vv, f0, f)
    ensures InTree(b.tree, []) && Sub(b.tree, []) == b.tree && Indexed(b.tree, [], b.ix, b.vv)
  {
    hide HoldsPlain, Changed, Indexed, Grounded;
  }

  lemma OnceParts(t: Tree, pos: Pos, st: States, f: Frontier, ap: Applier, after: States, visited: bool, s: States)
    requires OnceOrNever(t, pos, st, f, ap, after, visited, s)
    ensures SameUnder(t, pos, st, s) && SameUnder(t, pos, if visited then Reduce(t, pos, s, f, ap).st else st, after)
  {
    hide Reduce, SameUnder;
  }

  lemma ComesToIt(b: Proof, f: Frontier, order: seq<string>, t: Tree, pos: Pos, st: States)
    requires InTree(b.tree, pos) && t == Sub(b.tree, pos) && Alive(t, f) && SameUnder(t, pos, Marked(b, order), st)
    ensures ComesTo(b, f, order, t, pos, st)
  {
    hide Marked, SameUnder;
  }

  /** A failed read keeps the condition: it renews no receipt. */
  lemma FailureHoldsPlain(b: Proof, f0: Frontier, f: Frontier, order: seq<string>, ap: Applier)
    requires Due(b, f0, f, order, ap) && Read(b, f, order, ap).res.Err?
    ensures HoldsPlain(Read(b, f, order, ap).proof, f, ap)
  {
    hide Reduce, Marked, Eval, Held, Quiet, Indexed, Grounded, Follows, Changed;
    var b' := Read(b, f, order, ap).proof;
    forall q ensures HoldsPlainAt(b', f, ap, q) {
      if q != [] && InTree(b.tree, q) && Quiet(Sub(b.tree, q), b.vv, f) {
        QuietKept(b, f, order, ap, q);
        QuietEval(Sub(b.tree, q), b.vv, f0, f, ap);
        assert HoldsPlainAt(b, f0, ap, q);
      }
    }
  }

  /** On the fast path nothing is overlooked, and nothing changes. */
  lemma VerifiedHoldsPlain(b: Proof, f0: Frontier, f: Frontier, order: seq<string>, ap: Applier)
    requires Due(b, f0, f, order, ap) && Verified(b.vv, f)
    ensures HoldsPlain(b, f, ap) && Harmless(b, f, ap)
  {
    hide Reduce, Eval, Held, Quiet, Indexed, Grounded, Follows, Reached;
    VerifiedIffQuiet(b, f);
    QuietEval(b.tree, b.vv, f0, f, ap);
    VerifiedIffQuiet(b, f0);
    forall q | InTree(b.tree, q) ensures Quiet(Sub(b.tree, q), b.vv, f) { QuietInside(b.tree, b.vv, f, q); }
    forall q ensures HoldsPlainAt(b, f, ap, q) {
      if q != [] && InTree(b.tree, q) {
        QuietEval(Sub(b.tree, q), b.vv, f0, f, ap);
        assert HoldsPlainAt(b, f0, ap, q);
      }
    }
  }

  /** What a slow successful read leaves at `q`, in terms of what was there before. */
  lemma SuccessAt(b: Proof, f0: Frontier, f: Frontier, order: seq<string>, ap: Applier, q: Pos)
    requires Due(b, f0, f, order, ap) && !Verified(b.vv, f) && Read(b, f, order, ap).res.Ok?
    ensures HoldsPlainAt(Read(b, f, order, ap).proof, f, ap, q) <==> (Overlooked(b, f, q) ==> HoldsAt(b, f, ap, q))
  {
    hide Reduce, Marked, Eval, Held, Quiet, Indexed, Grounded, Follows, Changed, Overlay, Renewed;
    var b' := Read(b, f, order, ap).proof;
    if q != [] && InTree(b.tree, q) {
      var t := Sub(b.tree, q);
      IndexedAt(b, q);
      RenewedQuiet(t, q, b, f);
      if Alive(t, f) {
        AliveIsRenewed(t, q, b, f);
        if Quiet(t, b.vv, f) {
          QuietKept(b, f, order, ap, q);
          QuietEval(t, b.vv, f0, f, ap);
          assert HoldsPlainAt(b, f0, ap, q);
        } else {
          ChangedKeptOrRenewed(b, f0, f, order, ap, q);
        }
      }
    }
  }

  /**
   What one read does to the condition: a read that fails keeps it, and a read that succeeds keeps it if and only if every
   changed node that the evaluation does not come to holds its plain value all the same.
   */
  lemma ReadHoldsPlainIff(b: Proof, f0: Frontier, f: Frontier, order: seq<string>, ap: Applier)
    requires Due(b, f0, f, order, ap)
    ensures HoldsPlain(Read(b, f, order, ap).proof, f, ap) <==> (Read(b, f, order, ap).res.Ok? ==> Harmless(b, f, ap))
  {
    hide Reduce, Marked, Eval, Held, Due, HoldsPlainAt, Overlooked, HoldsAt, Verified;
    var r := Read(b, f, order, ap);
    if r.res.Err? {
      FailureHoldsPlain(b, f0, f, order, ap);
    } else if Verified(b.vv, f) {
      VerifiedHoldsPlain(b, f0, f, order, ap);
    } else {
      forall q ensures HoldsPlainAt(r.proof, f, ap, q) <==> (Overlooked(b, f, q) ==> HoldsAt(b, f, ap, q)) {
        SuccessAt(b, f0, f, order, ap, q);
      }
      if Verified(r.proof.vv, f) { SuccessIsPlain(b, f0, f, order, ap); }
    }
  }

  lemma SuccessIsPlain(b: Proof, f0: Frontier, f: Frontier, order: seq<string>, ap: Applier)
    requires Due(b, f0, f, order, ap) && !Verified(b.vv, f) && Read(b, f, order, ap).res.Ok?
    requires Verified(Read(b, f, order, ap).proof.vv, f)
    ensures Eval(b.tree, Exprs(f), ap) == Ok(Read(b, f, order, ap).proof.value)
  {
    hide Reduce, Marked, Eval, Due;
    var r := Read(b, f, order, ap);
    forall c | c in b.vv ensures c in f { assert Current(c, r.proof.vv[c], f); }
    PlainReadIsExact(b, f0, f, order, ap);
  }

  // ---------------------------------------------------------------- runs

  /** A fresh proof holds its plain values. */
  lemma ComposedHoldsPlain(p: Proof, st: States, f: Frontier, ap: Applier)
    requires Composed(p, st, f, ap)
    ensures HoldsPlain(p, f, ap)
  {
    hide Good, Eval, Indexed, Quiet, Cold, Reduce;
    ComposeExact(p, st, f, ap);
    ColdIsGood(p.tree, [], st, f, ap);
    ReduceExact(p.tree, [], st, Exprs(f), f, ap);
    forall q ensures Node(p.st, q).dirty ==> Node(st, q).dirty { NeverDirties(p.tree, [], st, f, ap, q); }
    CleanStays(p.tree, [], st, p.st);
    forall q ensures HoldsPlainAt(p, f, ap, q) {
      if InTree(p.tree, q) {
        GoodInside(p.tree, [], p.st, Exprs(f), f, ap, q);
        assert [] + q == q;
        ReduceExact(Sub(p.tree, q), q, p.st, Exprs(f), f, ap);
        HeldIsAnswered(Sub(p.tree, q), q, p.st, f, ap);
      }
    }
  }

  lemma {:induction false} GoodInside(t: Tree, pos: Pos, st: States, x: map<string, Expr>, f: Frontier, ap: Applier, q: Pos)
    requires Good(t, pos, st, x, f, ap) && AllClean(t, pos, st) && InTree(t, q)
    ensures Good(Sub(t, q), pos + q, st, x, f, ap) && AllClean(Sub(t, q), pos + q, st)
  {
    if q == [] {
      assert pos + q == pos;
    } else {
      GoodInside(t.kids[q[0]], pos + [q[0]], st, x, f, ap, q[1..]);
      assert pos + [q[0]] + q[1..] == pos + q;
    }
  }

  /** A run of reads of a proof composed at the first frontier; any of them may fail. */
  ghost predicate RunOf(p: Proof, st: States, fs: seq<Frontier>, orders: seq<seq<string>>, ap: Applier)
    requires 0 < |fs| == |orders|
  {
    Composed(p, st, fs[0], ap) && p.vv.Keys <= p.ix.Keys && AbaFree(fs)
  }

  lemma {:induction false} RunSees(p: Proof, st: States, fs: seq<Frontier>, orders: seq<seq<string>>, n: nat, ap: Applier)
    requires n < |fs| == |orders| && RunOf(p, st, fs, orders, ap)
    ensures var b := After(p, fs, orders, n, ap); b.tree == p.tree && Registered(b) && Receipts(b.vv, fs, n)
  {
    hide Read, Cold, Reduce, AbaFree, Receipts;
    if n == 0 {
      ReceiptsAtStart(p, st, fs, ap);
    } else {
      RunSees(p, st, fs, orders, n - 1, ap);
      var b := After(p, fs, orders, n - 1, ap);
      ReceiptsAfterRead(b, fs, n, orders[n], ap);
      ReadKeepsTree(b, fs[n], orders[n], ap);
      IndexedByKeys(b.tree, [], b.ix, b.vv, Read(b, fs[n], orders[n], ap).proof.vv);
    }
  }

  lemma {:induction false} AbaFreePrefix(fs: seq<Frontier>, n: nat)
    requires AbaFree(fs) && n <= |fs|
    ensures AbaFree(fs[..n])
  {
    forall i, j, k, c ensures NoReturn(fs[..n], i, j, k, c) { assert NoReturn(fs, i, j, k, c); }
  }

  /**
   The exact condition for later reads. After any run of reads of a composed proof, successful or not, every next read on
   every live frontier that can follow is exact if and only if every node whose subtree has not changed since its receipt
   holds its plain value at the latest frontier.
   */
  lemma NextReadsExactIff(p: Proof, st: States, fs: seq<Frontier>, orders: seq<seq<string>>, clock: nat, now: int, ap: Applier)
    requires 0 < |fs| == |orders| && RunOf(p, st, fs, orders, ap) && Before(fs, clock)
    ensures var b := After(p, fs, orders, |fs| - 1, ap);
            NextReadsExact(b, fs, ap) <==> HoldsPlain(b, Latest(fs), ap)
  {
    hide *;
    var b := After(p, fs, orders, |fs| - 1, ap);
    RunParts(p, st, fs, orders, ap);
    RunSees(p, st, fs, orders, |fs| - 1, ap);
    SeenIt(b, fs);
    ExactIffHoldsPlain(b, fs, clock, now, ap);
  }

  lemma RunParts(p: Proof, st: States, fs: seq<Frontier>, orders: seq<seq<string>>, ap: Applier)
    requires 0 < |fs| == |orders| && RunOf(p, st, fs, orders, ap)
    ensures AbaFree(fs) && Composed(p, st, fs[0], ap)
  {
    hide Composed, AbaFree;
  }

  lemma SeenIt(b: Proof, fs: seq<Frontier>)
    requires Registered(b) && fs != [] && AbaFree(fs) && Receipts(b.vv, fs, |fs| - 1)
    ensures HasSeen(b, fs)
  {
    hide Registered, AbaFree, Receipts;
  }

  /** The n-th read is due if the proof held its plain values before it. */
  lemma DueInRun(p: Proof, st: States, fs: seq<Frontier>, orders: seq<seq<string>>, n: nat, ap: Applier)
    requires 0 < n < |fs| == |orders| && RunOf(p, st, fs, orders, ap)
    requires var b := After(p, fs, orders, n - 1, ap);
             Lists(orders[n], Changed(b.vv, fs[n])) && HoldsPlain(b, fs[n - 1], ap)
    ensures Due(After(p, fs, orders, n - 1, ap), fs[n - 1], fs[n], orders[n], ap)
  {
    hide HoldsPlain, Composed, AbaFree, Receipts, Registered, Changed, After, Follows;
    RunSees(p, st, fs, orders, n - 1, ap);
    ReceiptsFollow(After(p, fs, orders, n - 1, ap).vv, fs, n - 1);
  }

  /**
   The condition before the read. If every next read was exact before the last read of a run, then after it, if it
   succeeded, every next read is exact if and only if each changed node that it did not come to held its plain value.
   */
  lemma StaysExactIff(p: Proof, st: States, fs: seq<Frontier>, orders: seq<seq<string>>, clock: nat, now: int, ap: Applier)
    requires 1 < |fs| == |orders| && RunOf(p, st, fs, orders, ap) && Before(fs, clock)
    requires var b := After(p, fs, orders, |fs| - 2, ap);
             Lists(orders[|fs| - 1], Changed(b.vv, Latest(fs))) && NextReadsExact(b, fs[..|fs| - 1], ap)
    requires Answer(p, fs, orders, |fs| - 1, ap).Ok?
    ensures NextReadsExact(After(p, fs, orders, |fs| - 1, ap), fs, ap) <==> Harmless(After(p, fs, orders, |fs| - 2, ap), Latest(fs), ap)
  {
    hide *;
    var n := |fs| - 1;
    var b := After(p, fs, orders, n - 1, ap);
    BeforeLast(p, st, fs, orders, clock, now, ap);
    DueInRun(p, st, fs, orders, n, ap);
    AfterStep(p, fs, orders, n, ap);
    ReadHoldsPlainIff(b, fs[n - 1], fs[n], orders[n], ap);
    NextReadsExactIff(p, st, fs, orders, clock, now, ap);
    LatestIs(fs);
  }

  lemma LatestIs(fs: seq<Frontier>)
    requires fs != []
    ensures Latest(fs) == fs[|fs| - 1]
  {
  }

  lemma BeforeLast(p: Proof, st: States, fs: seq<Frontier>, orders: seq<seq<string>>, clock: nat, now: int, ap: Applier)
    requires 1 < |fs| == |orders| && RunOf(p, st, fs, orders, ap) && Before(fs, clock)
    requires NextReadsExact(After(p, fs, orders, |fs| - 2, ap), fs[..|fs| - 1], ap)
    ensures HoldsPlain(After(p, fs, orders, |fs| - 2, ap), fs[|fs| - 2], ap)
    ensures Latest(fs) == fs[|fs| - 1]
  {
    hide NextReadsExact, HoldsPlain, Composed, AbaFree, Registered, After, Receipts, Genuine;
    var n := |fs| - 1;
    var b := After(p, fs, orders, n - 1, ap);
    RunSees(p, st, fs, orders, n - 1, ap);
    AbaFreePrefix(fs, n);
    ReceiptsPrefix(b.vv, fs, n);
    ExactIffHoldsPlain(b, fs[..n], clock, now, ap);
  }

  lemma ReceiptsPrefix(vv: map<string, Hash>, fs: seq<Frontier>, n: nat)
    requires 0 < n <= |fs| && Receipts(vv, fs, n - 1)
    ensures Receipts(vv, fs[..n], n - 1)
  {
    forall c | c in vv ensures exists k :: k <= n - 1 && Issued(c, vv[c], fs[..n], k) {
      var k :| k <= n - 1 && Issued(c, vv[c], fs, k);
      assert Issued(c, vv[c], fs[..n], k);
    }
  }

  /** The i-th read lists what changed, and if it succeeds it overlooks nothing that does not hold its plain value. */
  ghost predicate HarmlessStep(p: Proof, fs: seq<Frontier>, orders: seq<seq<string>>, i: nat, ap: Applier)
    requires 0 < i < |fs| == |orders|
  {
    var b := After(p, fs, orders, i - 1, ap);
    Lists(orders[i], Changed(b.vv, fs[i])) && (Answer(p, fs, orders, i, ap).Ok? ==> Harmless(b, fs[i], ap))
  }

  lemma {:induction false} RunHoldsPlain(p: Proof, st: States, fs: seq<Frontier>, orders: seq<seq<string>>, n: nat, ap: Applier)
    requires n < |fs| == |orders| && RunOf(p, st, fs, orders, ap) && forall i :: 0 < i <= n ==> HarmlessStep(p, fs, orders, i, ap)
    ensures HoldsPlain(After(p, fs, orders, n, ap), fs[n], ap)
  {
    hide *;
    RunParts(p, st, fs, orders, ap);
    if n == 0 {
      AfterNone(p, fs, orders, ap);
      ComposedHoldsPlain(p, st, fs[0], ap);
    } else {
      RunHoldsPlain(p, st, fs, orders, n - 1, ap);
      HarmlessParts(p, fs, orders, n, ap);
      DueInRun(p, st, fs, orders, n, ap);
      AfterStep(p, fs, orders, n, ap);
      ReadHoldsPlainIff(After(p, fs, orders, n - 1, ap), fs[n - 1], fs[n], orders[n], ap);
    }
  }

  lemma HarmlessParts(p: Proof, fs: seq<Frontier>, orders: seq<seq<string>>, i: nat, ap: Applier)
    requires 0 < i < |fs| == |orders| && HarmlessStep(p, fs, orders, i, ap)
    ensures var b := After(p, fs, orders, i - 1, ap);
            Lists(orders[i], Changed(b.vv, fs[i])) && (Answer(p, fs, orders, i, ap).Ok? ==> Harmless(b, fs[i], ap))
  {
    hide After, Answer, Changed, Harmless;
  }

  /**
   No stale reads, in more runs: whatever the earlier reads did not come to, as long as it held its plain value, a read
   whose receipt paths are live answers plain evaluation.
   */
  lemma HarmlessReadsAreExact(p: Proof, st: States, fs: seq<Frontier>, orders: seq<seq<string>>, n: nat, ap: Applier)
    requires 0 < n < |fs| == |orders| && RunOf(p, st, fs, orders, ap) && forall i :: 0 < i < n ==> HarmlessStep(p, fs, orders, i, ap)
    requires Lists(orders[n], Changed(After(p, fs, orders, n - 1, ap).vv, fs[n])) && forall c <- p.vv.Keys :: c in fs[n]
    ensures Answer(p, fs, orders, n, ap) == Eval(p.tree, Exprs(fs[n]), ap)
  {
    hide *;
    RunParts(p, st, fs, orders, ap);
    RunHoldsPlain(p, st, fs, orders, n - 1, ap);
    DueInRun(p, st, fs, orders, n, ap);
    AfterStep(p, fs, orders, n, ap);
    RunSees(p, st, fs, orders, n - 1, ap);
    RunKeys(p, fs, orders, n - 1, ap);
    PlainReadIsExact(After(p, fs, orders, n - 1, ap), fs[n - 1], fs[n], orders[n], ap);
  }

  lemma {:induction false} RunKeys(p: Proof, fs: seq<Frontier>, orders: seq<seq<string>>, n: nat, ap: Applier)
    requires n < |fs| == |orders|
    ensures After(p, fs, orders, n, ap).vv.Keys == p.vv.Keys
  {
    hide Reduce, Marked;
    if n > 0 { RunKeys(p, fs, orders, n - 1, ap); }
  }

  /** A read that comes to every change overlooks nothing. */
  lemma {:induction false} EnteredIsReached(t: Tree, x: map<string, Expr>, vv: map<string, Hash>, f: Frontier, q: Pos)
    requires Entered(t, x, vv, f) && InTree(t, q) && !Quiet(Sub(t, q), vv, f)
    ensures Reached(t, q, x)
  {
    if q != [] {
      if Quiet(t.kids[q[0]], vv, f) { QuietInside(t.kids[q[0]], vv, f, q[1..]); }
      EnteredIsReached(t.kids[q[0]], x, vv, f, q[1..]);
    }
  }

  lemma EnteredIsHarmless(b: Proof, f: Frontier, ap: Applier)
    requires Entered(b.tree, Overlay(b, f), b.vv, f)
    ensures Harmless(b, f, ap)
  {
    hide Entered, Quiet;
    forall q ensures !Overlooked(b, f, q) {
      if InTree(b.tree, q) && !Quiet(Sub(b.tree, q), b.vv, f) { EnteredIsReached(b.tree, Overlay(b, f), b.vv, f, q); }
    }
  }
}
