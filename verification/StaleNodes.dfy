/**
 A node that does not hold its plain value makes some next read stale (internal/engine/incremental.go), so that next reads
 are exact if and only if every node holds its plain value.
 */
module StaleNodes {
  import opened Core
  import F = FrontierSpec
  import opened ProofSpec
  import opened ProofReads
  import opened ProofWork
  import opened ProofRuns
  import opened HeldValues
  import opened PlainReads

  // ---------------------------------------------------------------- a stale node below dirty compositions

  /** Dirty compositions down to a clean subtree that does not answer its plain value. */
  predicate Stuck(t: Tree, pos: Pos, st: States, x: map<string, Expr>, f: Frontier, ap: Applier, q: Pos) {
    if q == [] then AllClean(t, pos, st) && Reduce(t, pos, st, f, ap).res != Eval(t, x, ap)
    else
      && Node(st, pos).dirty && Refreshed(Node(st, pos), t.path, f).expr.ECompose? && t.path in x && x[t.path].ECompose?
      && q[0] < |t.kids| && Apart(t, q[0])
      && Stuck(t.kids[q[0]], pos + [q[0]], st, x, f, ap, q[1..])
  }

  /** No other child has the path of child `k`. */
  predicate Apart(t: Tree, k: nat)
    requires k < |t.kids|
  {
    forall j :: 0 <= j < |t.kids| && j != k ==> t.kids[j].path != t.kids[k].path
  }

  /** A dirty node that is now a constant. */
  predicate Steady(t: Tree, n: NodeState, x: map<string, Expr>, f: Frontier) {
    n.dirty && Refreshed(n, t.path, f).expr.EConst? && t.path in x && x[t.path].EConst?
  }

  /** Everything beside the way down to `q` is such a constant. */
  predicate Guarded(t: Tree, pos: Pos, st: States, x: map<string, Expr>, f: Frontier, q: Pos) {
    q == [] || (
      && q[0] < |t.kids| && Guarded(t.kids[q[0]], pos + [q[0]], st, x, f, q[1..])
      && SteadyBeside(t, pos, 0, st, x, f, q[0]))
  }

  predicate SteadyBeside(t: Tree, pos: Pos, i: nat, st: States, x: map<string, Expr>, f: Frontier, k: nat) {
    forall j :: i <= j < |t.kids| && j != k ==> Steady(t.kids[j], Node(st, pos + [j]), x, f)
  }

  lemma {:induction false} StuckFrame(t: Tree, pos: Pos, st: States, st': States, x: map<string, Expr>, f: Frontier, ap: Applier, q: Pos)
    requires SameUnder(t, pos, st, st')
    ensures Stuck(t, pos, st, x, f, ap, q) ==> Stuck(t, pos, st', x, f, ap, q)
    ensures Guarded(t, pos, st, x, f, q) ==> Guarded(t, pos, st', x, f, q)
  {
    hide Reduce;
    if q == [] {
      if Stuck(t, pos, st, x, f, ap, q) {
        CleanFrame(t, pos, st, st');
        ReduceClean(t, pos, st, st', f, f, ap);
      }
    } else if q[0] < |t.kids| {
      StuckFrame(t.kids[q[0]], pos + [q[0]], st, st', x, f, ap, q[1..]);
      forall j | 0 <= j < |t.kids| ensures Node(st, pos + [j]) == Node(st', pos + [j]) {
        assert SameUnder(t.kids[j], pos + [j], st, st');
      }
    }
  }

  lemma {:induction false} EvalKeeps(t: Tree, i: nat, rec: map<string, Value>, x: map<string, Expr>, ap: Applier, c: string)
    requires i <= |t.kids| && c in rec && (forall j :: i <= j < |t.kids| ==> t.kids[j].path != c)
    ensures var r := EvalKids(t, i, rec, x, ap); r.Ok? ==> r.value.VRecord? && c in r.value.fields && r.value.fields[c] == rec[c]
    decreases |t.kids| - i
  {
    hide Eval;
    if i < |t.kids| {
      var r := Eval(t.kids[i], x, ap);
      if r.Ok? { EvalKeeps(t, i + 1, rec[t.kids[i].path := r.value], x, ap, c); }
    }
  }

  lemma {:induction false} EvalField(t: Tree, i: nat, rec: map<string, Value>, x: map<string, Expr>, ap: Applier, k: nat)
    requires i <= k < |t.kids| && Apart(t, k) && EvalKids(t, i, rec, x, ap).Ok?
    ensures var r := EvalKids(t, i, rec, x, ap);
            r.value.VRecord? && t.kids[k].path in r.value.fields && Eval(t.kids[k], x, ap) == Ok(r.value.fields[t.kids[k].path])
    decreases |t.kids| - i
  {
    hide Eval;
    var r := Eval(t.kids[i], x, ap);
    if i == k {
      EvalKeeps(t, i + 1, rec[t.kids[i].path := r.value], x, ap, t.kids[k].path);
    } else {
      EvalField(t, i + 1, rec[t.kids[i].path := r.value], x, ap, k);
    }
  }

  lemma {:induction false} EvalFailure(t: Tree, pos: Pos, i: nat, rec: map<string, Value>, st: States, x: map<string, Expr>, f: Frontier,
                                       ap: Applier, k: nat)
    requires i <= |t.kids| && k < |t.kids| && SteadyBeside(t, pos, i, st, x, f, k) && EvalKids(t, i, rec, x, ap).Err?
    ensures EvalKids(t, i, rec, x, ap) == Eval(t.kids[k], x, ap)
    decreases |t.kids| - i
  {
    hide Eval;
    if i < |t.kids| {
      var r := Eval(t.kids[i], x, ap);
      if i != k { SteadyEvaluates(t.kids[i], Node(st, pos + [i]), x, f, ap); }
      if r.Ok? { EvalFailure(t, pos, i + 1, rec[t.kids[i].path := r.value], st, x, f, ap, k); }
    }
  }

  lemma SteadyEvaluates(t: Tree, n: NodeState, x: map<string, Expr>, f: Frontier, ap: Applier)
    requires Steady(t, n, x, f)
    ensures Eval(t, x, ap).Ok?
  {
  }

  lemma SteadyReduces(t: Tree, pos: Pos, st: States, x: map<string, Expr>, f: Frontier, ap: Applier)
    requires Steady(t, Node(st, pos), x, f)
    ensures Reduce(t, pos, st, f, ap).res.Ok?
  {
  }

  /** The value of a field stays, and constants to come cannot fail. */
  lemma {:induction false} ReduceKeeps(t: Tree, pos: Pos, i: nat, rec: map<string, Value>, st: States, x: map<string, Expr>, f: Frontier,
                                       ap: Applier, k: nat)
    requires k < i <= |t.kids| && Apart(t, k) && t.kids[k].path in rec
    ensures var r, c := ReduceKids(t, pos, i, rec, st, f, ap).res, t.kids[k].path;
            && (r.Ok? ==> r.value.VRecord? && c in r.value.fields && r.value.fields[c] == rec[c])
            && (SteadyBeside(t, pos, i, st, x, f, k) ==> r.Ok?)
    decreases |t.kids| - i
  {
    hide Reduce, Steady;
    if i < |t.kids| {
      var o := Reduce(t.kids[i], pos + [i], st, f, ap);
      if SteadyBeside(t, pos, i, st, x, f, k) {
        SteadyReduces(t.kids[i], pos + [i], st, x, f, ap);
        SteadyAfter(t, pos, i, st, x, f, ap, k);
      }
      if o.res.Ok? { ReduceKeeps(t, pos, i + 1, rec[t.kids[i].path := o.res.value], o.st, x, f, ap, k); }
    }
  }

  lemma SteadyAfter(t: Tree, pos: Pos, i: nat, st: States, x: map<string, Expr>, f: Frontier, ap: Applier, k: nat)
    requires i < |t.kids| && SteadyBeside(t, pos, i, st, x, f, k)
    ensures SteadyBeside(t, pos, i + 1, Reduce(t.kids[i], pos + [i], st, f, ap).st, x, f, k)
  {
    hide Reduce, Steady;
    var after := Reduce(t.kids[i], pos + [i], st, f, ap).st;
    forall j | i + 1 <= j < |t.kids| ensures Node(after, pos + [j]) == Node(st, pos + [j]) {
      assert (pos + [j])[|pos|] == j;
      ReduceFrame(t.kids[i], pos + [i], st, f, ap, pos + [j]);
    }
  }

  /** The stale value shows, if the tree evaluates or if there are only constants beside. */
  lemma {:induction false} StuckDiffers(t: Tree, pos: Pos, st: States, x: map<string, Expr>, f: Frontier, ap: Applier, q: Pos)
    requires Stuck(t, pos, st, x, f, ap, q) && (Eval(t, x, ap).Ok? || Guarded(t, pos, st, x, f, q))
    ensures Reduce(t, pos, st, f, ap).res != Eval(t, x, ap)
    decreases t, |t.kids| + 1
  {
    hide EvalKids, ReduceKids, SteadyBeside;
    if q != [] {
      var n := Refreshed(Node(st, pos), t.path, f);
      var st1 := st[pos := n];
      ParentChangeUnder(t, pos, st, n);
      StuckFrame(t.kids[q[0]], pos + [q[0]], st, st1, x, f, ap, q[1..]);
      if Guarded(t, pos, st, x, f, q) { SteadyUnder(t, pos, st, n, x, f, q[0]); }
      if Eval(t, x, ap).Ok? {
        EvalField(t, 0, map[], x, ap, q[0]);
      } else {
        EvalFailure(t, pos, 0, map[], st1, x, f, ap, q[0]);
      }
      KidsDiffer(t, pos, 0, map[], st1, x, f, ap, q);
      assert Compute(t, pos, n.expr, st1, f, ap) == ReduceKids(t, pos, 0, map[], st1, f, ap);
    }
  }

  lemma SteadyUnder(t: Tree, pos: Pos, st: States, n: NodeState, x: map<string, Expr>, f: Frontier, k: nat)
    requires SteadyBeside(t, pos, 0, st, x, f, k)
    ensures SteadyBeside(t, pos, 0, st[pos := n], x, f, k)
  {
    hide Steady;
    forall j | 0 <= j < |t.kids| ensures Node(st[pos := n], pos + [j]) == Node(st, pos + [j]) { assert pos + [j] != pos; }
  }

  lemma {:induction false} KidsDiffer(t: Tree, pos: Pos, i: nat, rec: map<string, Value>, st: States, x: map<string, Expr>, f: Frontier,
                                      ap: Applier, q: Pos)
    requires q != [] && i <= q[0] < |t.kids| && Apart(t, q[0])
    requires Stuck(t.kids[q[0]], pos + [q[0]], st, x, f, ap, q[1..])
    requires Eval(t.kids[q[0]], x, ap).Ok? ||
             (Guarded(t.kids[q[0]], pos + [q[0]], st, x, f, q[1..]) && SteadyBeside(t, pos, i, st, x, f, q[0]))
    ensures var r, c := ReduceKids(t, pos, i, rec, st, f, ap).res, t.kids[q[0]].path;
            && (r.Ok? ==> r.value.VRecord? && c in r.value.fields && Ok(r.value.fields[c]) != Eval(t.kids[q[0]], x, ap))
            && (r.Err? ==> r != Eval(t.kids[q[0]], x, ap))
    decreases t, |t.kids| - i
  {
    hide Reduce, Eval, Stuck, Guarded, SameUnder, Steady;
    var o := Reduce(t.kids[i], pos + [i], st, f, ap);
    if SteadyBeside(t, pos, i, st, x, f, q[0]) {
      SteadyAfter(t, pos, i, st, x, f, ap, q[0]);
      if i != q[0] { SteadyReduces(t.kids[i], pos + [i], st, x, f, ap); }
    }
    if i == q[0] {
      StuckDiffers(t.kids[i], pos + [i], st, x, f, ap, q[1..]);
      if o.res.Ok? {
        ReduceKeeps(t, pos, i + 1, rec[t.kids[i].path := o.res.value], o.st, x, f, ap, i);
      }
    } else if o.res.Ok? {
      SiblingUnder(t, pos, i, q[0], st, f, ap);
      StuckFrame(t.kids[q[0]], pos + [q[0]], st, o.st, x, f, ap, q[1..]);
      KidsDiffer(t, pos, i + 1, rec[t.kids[i].path := o.res.value], o.st, x, f, ap, q);
    }
  }

  // ---------------------------------------------------------------- a stale node surfaces

  /** Every node above `q` has been written as a composition since its receipt, and the subtree at `q` has not changed. */
  predicate Rewritten(t: Tree, q: Pos, vv: map<string, Hash>, f: Frontier) {
    if q == [] then Quiet(t, vv, f)
    else
      && t.path in vv && t.path in f && f[t.path].expr.ECompose? && !Current(t.path, vv[t.path], f)
      && q[0] < |t.kids| && Rewritten(t.kids[q[0]], q[1..], vv, f)
  }

  /** Whatever hangs beside the way down to `q` has been written as a constant since its receipt. */
  predicate ConstantsBeside(t: Tree, q: Pos, vv: map<string, Hash>, f: Frontier) {
    q == [] || (
      && q[0] < |t.kids| && ConstantsBeside(t.kids[q[0]], q[1..], vv, f)
      && forall j :: 0 <= j < |t.kids| && j != q[0] ==> NewConstant(t.kids[j].path, vv, f))
  }

  predicate NewConstant(c: string, vv: map<string, Hash>, f: Frontier) {
    c in vv && c in f && f[c].expr.EConst? && !Current(c, vv[c], f)
  }

  lemma KidsApart(t: Tree, pos: Pos, ix: map<string, Pos>, vv: map<string, Hash>, k: nat)
    requires Indexed(t, pos, ix, vv) && k < |t.kids|
    ensures Apart(t, k)
  {
    forall j | 0 <= j < |t.kids| && j != k ensures t.kids[j].path != t.kids[k].path {
      assert Indexed(t.kids[j], pos + [j], ix, vv) && Indexed(t.kids[k], pos + [k], ix, vv);
      assert (pos + [j])[|pos|] == j && (pos + [k])[|pos|] == k;
    }
  }

  lemma {:induction false} RewrittenIsStuck(b: Proof, f: Frontier, order: seq<string>, ap: Applier, t: Tree, pos: Pos, q: Pos)
    requires Registered(b) && Lists(order, Changed(b.vv, f))
    requires InTree(b.tree, pos) && t == Sub(b.tree, pos) && Indexed(t, pos, b.ix, b.vv)
    requires InTree(t, q) && Rewritten(t, q, b.vv, f) && Held(Sub(t, q), pos + q, b.st, ap) != Eval(Sub(t, q), Exprs(f), ap)
    ensures Stuck(t, pos, Marked(b, order), Exprs(f), f, ap, q)
    decreases t
  {
    hide Marked, Eval, Grounded, Changed, Reduce;
    if q == [] {
      assert pos + q == pos;
      QuietIsClean(b, f, order, t, pos);
      HeldIsAnswered(t, pos, Marked(b, order), f, ap);
      HeldMarked(b, order, t, pos, ap);
    } else {
      DirtyIffTouched(b, f, order, pos);
      KidsApart(t, pos, b.ix, b.vv, q[0]);
      SubKid(b.tree, pos, q[0]);
      assert pos + [q[0]] + q[1..] == pos + q;
      RewrittenIsStuck(b, f, order, ap, t.kids[q[0]], pos + [q[0]], q[1..]);
    }
  }

  lemma {:induction false} ConstantsGuard(b: Proof, f: Frontier, order: seq<string>, t: Tree, pos: Pos, q: Pos)
    requires Registered(b) && Lists(order, Changed(b.vv, f))
    requires InTree(b.tree, pos) && t == Sub(b.tree, pos) && Indexed(t, pos, b.ix, b.vv) && ConstantsBeside(t, q, b.vv, f)
    ensures Guarded(t, pos, Marked(b, order), Exprs(f), f, q)
    decreases t
  {
    hide Marked, Grounded, Changed;
    if q != [] {
      forall j | 0 <= j < |t.kids| && j != q[0] ensures Steady(t.kids[j], Node(Marked(b, order), pos + [j]), Exprs(f), f) {
        SubKid(b.tree, pos, j);
        DirtyIffTouched(b, f, order, pos + [j]);
        assert NewConstant(t.kids[j].path, b.vv, f);
      }
      SubKid(b.tree, pos, q[0]);
      ConstantsGuard(b, f, order, t.kids[q[0]], pos + [q[0]], q[1..]);
    }
  }

  /**
   A stale node surfaces. If a node below the root does not hold its plain value, then the next read is stale on every
   frontier on which its subtree has not changed, the nodes above it have been written as compositions, and the tree
   evaluates, or everything beside has been written as a constant.
   */
  lemma StaleNodeSurfaces(b: Proof, f: Frontier, order: seq<string>, ap: Applier, q: Pos)
    requires Registered(b) && Lists(order, Changed(b.vv, f)) && q != [] && InTree(b.tree, q)
    requires Rewritten(b.tree, q, b.vv, f) && !HoldsAt(b, f, ap, q)
    requires Eval(b.tree, Exprs(f), ap).Ok? || ConstantsBeside(b.tree, q, b.vv, f)
    ensures Read(b, f, order, ap).res != Eval(b.tree, Exprs(f), ap)
  {
    hide Marked, Reduce, Eval, Stuck, Guarded, Indexed;
    assert [] + q == q;
    RewrittenIsStuck(b, f, order, ap, b.tree, [], q);
    if ConstantsBeside(b.tree, q, b.vv, f) { ConstantsGuard(b, f, order, b.tree, [], q); }
    StuckDiffers(b.tree, [], Marked(b, order), Exprs(f), f, ap, q);
    assert !Current(b.tree.path, b.vv[b.tree.path], f);
  }

  // ---------------------------------------------------------------- such a frontier can always follow

  /** Fresh compositions above `q`, fresh constants beside, and what there was at `q` and below. */
  function Surround(b: Proof, q: Pos, f: Frontier, clock: nat, now: int): Frontier {
    f + map c | c in b.ix && !(q <= b.ix[c]) ::
      F.MintAtom(if b.ix[c] < q then ECompose([]) else EConst(VNull), c, clock, now, Never)
  }

  /** The atoms were minted before `clock`. */
  predicate Before(fs: seq<Frontier>, clock: nat) {
    forall k, c :: 0 <= k < |fs| && c in fs[k] ==> Genuine(fs[k][c]) && fs[k][c].clock < clock
  }

  /** The proof has seen the frontiers `fs`, which bring nothing back. */
  ghost predicate HasSeen(b: Proof, fs: seq<Frontier>) {
    Registered(b) && fs != [] && AbaFree(fs) && Receipts(b.vv, fs, |fs| - 1)
  }

  function Latest(fs: seq<Frontier>): Frontier
    requires fs != []
  {
    fs[|fs| - 1]
  }

  /** A frontier that can follow `fs`, with every receipt path live, and a listing of what changed. */
  ghost predicate CanFollow(b: Proof, fs: seq<Frontier>, f: Frontier, order: seq<string>) {
    AbaFree(fs + [f]) && (forall c <- b.vv.Keys :: c in f) && Lists(order, Changed(b.vv, f))
  }

  ghost predicate NextReadsExact(b: Proof, fs: seq<Frontier>, ap: Applier) {
    forall f, order :: CanFollow(b, fs, f, order) ==> Read(b, f, order, ap).res == Eval(b.tree, Exprs(f), ap)
  }

  lemma MintedDiffers(fs: seq<Frontier>, k: nat, c: string, e: Expr, clock: nat, now: int)
    requires Before(fs, clock) && k < |fs| && c in fs[k]
    ensures F.MintAtom(e, c, clock, now, Never).hash != fs[k][c].hash
  {
    var a := F.MintAtom(e, c, clock, now, Never);
    if a.hash == fs[k][c].hash { EqualHashEqualClock(a, fs[k][c]); }
  }

  /** Fresh atoms bring nothing back. */
  lemma SurroundAbaFree(b: Proof, q: Pos, fs: seq<Frontier>, clock: nat, now: int)
    requires fs != [] && AbaFree(fs) && Before(fs, clock)
    ensures AbaFree(fs + [Surround(b, q, Latest(fs), clock, now)])
  {
    hide Genuine, Before;
    var last := |fs| - 1;
    var f2 := Surround(b, q, fs[last], clock, now);
    var all := fs + [f2];
    forall i, j, k, c ensures NoReturn(all, i, j, k, c) {
      if 0 <= i <= j <= k < |all| && c in all[i] && Current(c, all[i][c].hash, all[k]) {
        if k < |fs| {
          assert NoReturn(fs, i, j, k, c);
        } else if i < |fs| {
          if c in b.ix && !(q <= b.ix[c]) {
            MintedDiffers(fs, i, c, if b.ix[c] < q then ECompose([]) else EConst(VNull), clock, now);
          }
          assert NoReturn(fs, i, last, last, c) && NoReturn(fs, i, if j < |fs| then j else last, last, c);
        }
      }
    }
  }

  lemma SameAbaFree(fs: seq<Frontier>)
    requires fs != [] && AbaFree(fs)
    ensures AbaFree(fs + [Latest(fs)])
  {
    var last := |fs| - 1;
    var all := fs + [Latest(fs)];
    forall i, j, k, c ensures NoReturn(all, i, j, k, c) {
      assert NoReturn(fs, if i <= last then i else last, if j <= last then j else last, if k <= last then k else last, c);
    }
  }

  /** A freshly minted atom is on no receipt. */
  lemma MintedIsNew(b: Proof, q: Pos, fs: seq<Frontier>, clock: nat, now: int, c: string)
    requires HasSeen(b, fs) && Before(fs, clock) && c in b.vv && c in b.ix && !(q <= b.ix[c])
    ensures !Current(c, b.vv[c], Surround(b, q, Latest(fs), clock, now))
  {
    hide Before, Registered, AbaFree;
    var k :| k <= |fs| - 1 && Issued(c, b.vv[c], fs, k);
    MintedDiffers(fs, k, c, if b.ix[c] < q then ECompose([]) else EConst(VNull), clock, now);
  }

  lemma {:induction false} SurroundQuiet(b: Proof, q: Pos, f: Frontier, clock: nat, now: int, t: Tree, pos: Pos)
    requires Indexed(t, pos, b.ix, b.vv) && q <= pos && Quiet(t, b.vv, f)
    ensures var f2 := Surround(b, q, f, clock, now); Quiet(t, b.vv, f2) && SameOn(t, Exprs(f), Exprs(f2))
  {
    hide Genuine;
    var f2 := Surround(b, q, f, clock, now);
    forall i | 0 <= i < |t.kids| ensures Quiet(t.kids[i], b.vv, f2) && SameOn(t.kids[i], Exprs(f), Exprs(f2)) {
      assert q <= pos + [i];
      SurroundQuiet(b, q, f, clock, now, t.kids[i], pos + [i]);
    }
  }

  lemma {:induction false} SurroundRewrites(b: Proof, fs: seq<Frontier>, clock: nat, now: int, t: Tree, pos: Pos, q: Pos)
    requires HasSeen(b, fs) && Before(fs, clock) && Indexed(t, pos, b.ix, b.vv)
    requires InTree(t, q) && Quiet(Sub(t, q), b.vv, Latest(fs))
    ensures var f2 := Surround(b, pos + q, Latest(fs), clock, now);
            Rewritten(t, q, b.vv, f2) && ConstantsBeside(t, q, b.vv, f2)
    decreases t
  {
    hide Genuine, Before, AbaFree, Receipts, Quiet, Registered;
    var f2 := Surround(b, pos + q, Latest(fs), clock, now);
    if q == [] {
      assert pos + q == pos;
      SurroundQuiet(b, pos, Latest(fs), clock, now, t, pos);
    } else {
      assert pos < pos + q && pos + [q[0]] + q[1..] == pos + q;
      MintedIsNew(b, pos + q, fs, clock, now, t.path);
      forall j | 0 <= j < |t.kids| && j != q[0] ensures NewConstant(t.kids[j].path, b.vv, f2) {
        assert (pos + [j])[|pos|] == j && (pos + q)[|pos|] == q[0];
        assert !(pos + q <= pos + [j]) && !(pos + [j] < pos + q);
        assert Indexed(t.kids[j], pos + [j], b.ix, b.vv);
        MintedIsNew(b, pos + q, fs, clock, now, t.kids[j].path);
      }
      SurroundRewrites(b, fs, clock, now, t.kids[q[0]], pos + [q[0]], q[1..]);
    }
  }

  lemma SurroundAlive(b: Proof, q: Pos, f: Frontier, clock: nat, now: int)
    requires Registered(b) && InTree(b.tree, q) && Quiet(Sub(b.tree, q), b.vv, f)
    ensures forall c <- b.vv.Keys :: c in Surround(b, q, f, clock, now)
  {
    hide Indexed;
    forall c | c in b.vv && q <= b.ix[c] ensures c in f {
      PrefixInTree(b.tree, q, b.ix[c]);
      QuietInside(Sub(b.tree, q), b.vv, f, b.ix[c][|q|..]);
    }
  }

  /** Wherever a node does not hold its plain value, some next read is stale. */
  lemma StaleFollower(b: Proof, fs: seq<Frontier>, clock: nat, now: int, ap: Applier, q: Pos) returns (f2: Frontier, order: seq<string>)
    requires HasSeen(b, fs) && Before(fs, clock) && !HoldsPlainAt(b, Latest(fs), ap, q)
    ensures CanFollow(b, fs, f2, order) && Read(b, f2, order, ap).res != Eval(b.tree, Exprs(f2), ap)
  {
    hide Read, Eval, Held, AbaFree, Before, Surround, Rewritten, ConstantsBeside, Quiet, Indexed, Grounded;
    var f := Latest(fs);
    f2 := Surround(b, q, f, clock, now);
    order := Listing(Changed(b.vv, f2));
    SurroundAbaFree(b, q, fs, clock, now);
    SurroundAlive(b, q, f, clock, now);
    assert [] + q == q;
    SurroundRewrites(b, fs, clock, now, b.tree, [], q);
    IndexedAt(b, q);
    SurroundQuiet(b, q, f, clock, now, Sub(b.tree, q), q);
    EvalAgrees(Sub(b.tree, q), Exprs(f), Exprs(f2), ap);
    StaleNodeSurfaces(b, f2, order, ap, q);
  }

  ghost function Listing(s: set<string>): (order: seq<string>)
    ensures Lists(order, s)
  {
    if s == {} then [] else
      var c :| c in s;
      [c] + Listing(s - {c})
  }

  lemma SeenFollows(b: Proof, fs: seq<Frontier>, f: Frontier)
    requires HasSeen(b, fs) && AbaFree(fs + [f])
    ensures Follows(b.vv, Latest(fs), f)
  {
    hide AbaFree, Registered;
    var all := fs + [f];
    forall c | c in b.vv ensures exists k :: k <= |fs| - 1 && Issued(c, b.vv[c], all, k) {
      var k :| k <= |fs| - 1 && Issued(c, b.vv[c], fs, k);
      assert Issued(c, b.vv[c], all, k);
    }
    ReceiptsFollow(b.vv, all, |fs| - 1);
  }

  /** The next reads of a proof in any state are exact if and only if it holds its plain values. */
  lemma ExactIffHoldsPlain(b: Proof, fs: seq<Frontier>, clock: nat, now: int, ap: Applier)
    requires HasSeen(b, fs) && Before(fs, clock)
    ensures NextReadsExact(b, fs, ap) <==> HoldsPlain(b, Latest(fs), ap)
  {
    hide Read, Eval, AbaFree, Before, HoldsPlainAt;
    var f := Latest(fs);
    if HoldsPlain(b, f, ap) {
      forall f2, order | CanFollow(b, fs, f2, order) ensures Read(b, f2, order, ap).res == Eval(b.tree, Exprs(f2), ap) {
        SeenFollows(b, fs, f2);
        PlainReadIsExact(b, f, f2, order, ap);
      }
    } else if Verified(b.vv, f) && Eval(b.tree, Exprs(f), ap) != Ok(b.value) {
      SameAbaFree(fs);
      assert Changed(b.vv, f) == {};
      assert CanFollow(b, fs, f, []);
      FastPath(b, f, ap);
    } else {
      var q :| !HoldsPlainAt(b, f, ap, q);
      var f2, order := StaleFollower(b, fs, clock, now, ap, q);
    }
  }

  lemma FastPath(b: Proof, f: Frontier, ap: Applier)
    requires Verified(b.vv, f)
    ensures Read(b, f, [], ap).res == Ok(b.value)
  {
    hide Reduce;
  }
}
