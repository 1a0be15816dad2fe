/**
 Exactly when a read after leaf overwrites is fresh, on every tree of constants and compositions: paths may repeat and
 may be empty (internal/engine/compose.go, incremental.go).
 */
module ProofLimits {
  import opened Core
  import opened ProofSpec
  import opened ProofReads
  import opened ProofWork
  import opened ProofRuns
  import opened ProofCost
  import opened PathIndex

  // ---------------------------------------------------------------- values by position

  /** The value of a tree whose leaf at position `q` holds `g(q)`; the paths in `leaves` are constants. */
  function Shown(t: Tree, pos: Pos, leaves: set<string>, g: Pos -> Value): Value
    decreases t
  {
    if t.path in leaves then g(pos) else VRecord(Fields(t, pos, |t.kids|, leaves, g))
  }

  /** The record of the first `k` children: the last child of a path wins. */
  function Fields(t: Tree, pos: Pos, k: nat, leaves: set<string>, g: Pos -> Value): map<string, Value>
    requires k <= |t.kids|
    decreases t, k
  {
    if k == 0 then map[]
    else Fields(t, pos, k - 1, leaves, g)[t.kids[k - 1].path := Shown(t.kids[k - 1], pos + [k - 1], leaves, g)]
  }

  /** No child from `i` up to `k` repeats the path of child `i`. */
  predicate LastOf(t: Tree, i: nat, k: nat)
    requires k <= |t.kids|
  {
    i < k && forall j :: i < j < k ==> t.kids[j].path != t.kids[i].path
  }

  /** No node on the way down to `q` has a later sibling with its path. */
  predicate Visible(t: Tree, q: Pos) {
    q == [] || (q[0] < |t.kids| && LastOf(t, q[0], |t.kids|) && Visible(t.kids[q[0]], q[1..]))
  }

  lemma {:induction false} FieldOf(t: Tree, pos: Pos, k: nat, leaves: set<string>, g: Pos -> Value, i: nat)
    requires k <= |t.kids| && LastOf(t, i, k)
    ensures t.kids[i].path in Fields(t, pos, k, leaves, g)
    ensures Fields(t, pos, k, leaves, g)[t.kids[i].path] == Shown(t.kids[i], pos + [i], leaves, g)
  {
    hide Shown;
    if i < k - 1 { FieldOf(t, pos, k - 1, leaves, g, i); }
  }

  lemma {:induction false} FieldFrom(t: Tree, pos: Pos, k: nat, leaves: set<string>, g: Pos -> Value, c: string) returns (i: nat)
    requires k <= |t.kids| && c in Fields(t, pos, k, leaves, g)
    ensures LastOf(t, i, k) && t.kids[i].path == c
  {
    hide Shown;
    if t.kids[k - 1].path == c {
      i := k - 1;
    } else {
      i := FieldFrom(t, pos, k - 1, leaves, g, c);
    }
  }

  lemma {:induction false} FieldPaths(t: Tree, pos: Pos, k: nat, leaves: set<string>, g: Pos -> Value, h: Pos -> Value)
    requires k <= |t.kids|
    ensures Fields(t, pos, k, leaves, g).Keys == Fields(t, pos, k, leaves, h).Keys
  {
    hide Shown;
    if k > 0 { FieldPaths(t, pos, k - 1, leaves, g, h); }
  }

  /** Constants are leaves. */
  predicate Leafy(t: Tree, leaves: set<string>) {
    (t.path in leaves ==> t.kids == []) && forall i :: 0 <= i < |t.kids| ==> Leafy(t.kids[i], leaves)
  }

  predicate LeafAt(t: Tree, leaves: set<string>, q: Pos) {
    InTree(t, q) && Sub(t, q).path in leaves
  }

  predicate SameAt(t: Tree, pos: Pos, leaves: set<string>, g: Pos -> Value, h: Pos -> Value, q: Pos) {
    LeafAt(t, leaves, q) && Visible(t, q) ==> g(pos + q) == h(pos + q)
  }

  lemma SameAtKid(t: Tree, pos: Pos, leaves: set<string>, g: Pos -> Value, h: Pos -> Value, i: nat, q: Pos)
    requires i < |t.kids| && LastOf(t, i, |t.kids|)
    ensures SameAt(t, pos, leaves, g, h, [i] + q) <==> SameAt(t.kids[i], pos + [i], leaves, g, h, q)
  {
    var r := [i] + q;
    assert r[0] == i && r[1..] == q && pos + r == pos + [i] + q;
  }

  /** Two readings of a tree agree exactly when they agree at every visible leaf. */
  lemma {:induction false} ShownEqualIff(t: Tree, pos: Pos, leaves: set<string>, g: Pos -> Value, h: Pos -> Value)
    requires Leafy(t, leaves)
    ensures Shown(t, pos, leaves, g) == Shown(t, pos, leaves, h) <==> forall q :: SameAt(t, pos, leaves, g, h, q)
    decreases t
  {
    hide SameAt;
    if t.path in leaves {
      LeafDecides(t, pos, leaves, g, h);
    } else {
      var a, b := Fields(t, pos, |t.kids|, leaves, g), Fields(t, pos, |t.kids|, leaves, h);
      if a == b {
        forall q ensures SameAt(t, pos, leaves, g, h, q) { AgreesBelow(t, pos, leaves, g, h, q); }
      }
      if forall q :: SameAt(t, pos, leaves, g, h, q) {
        FieldPaths(t, pos, |t.kids|, leaves, g, h);
        forall c | c in a ensures a[c] == b[c] {
          var i := FieldFrom(t, pos, |t.kids|, leaves, g, c);
          FieldOf(t, pos, |t.kids|, leaves, g, i);
          FieldOf(t, pos, |t.kids|, leaves, h, i);
          forall q ensures SameAt(t.kids[i], pos + [i], leaves, g, h, q) { SameAtKid(t, pos, leaves, g, h, i, q); }
          ShownEqualIff(t.kids[i], pos + [i], leaves, g, h);
        }
      }
    }
  }

  lemma LeafDecides(t: Tree, pos: Pos, leaves: set<string>, g: Pos -> Value, h: Pos -> Value)
    requires t.path in leaves && t.kids == []
    ensures g(pos) == h(pos) <==> forall q :: SameAt(t, pos, leaves, g, h, q)
  {
    assert pos + [] == pos;
    assert SameAt(t, pos, leaves, g, h, []) <==> g(pos) == h(pos);
    forall q ensures g(pos) == h(pos) ==> SameAt(t, pos, leaves, g, h, q) {
      if q == [] { assert pos + q == pos; }
    }
  }

  lemma {:induction false} AgreesBelow(t: Tree, pos: Pos, leaves: set<string>, g: Pos -> Value, h: Pos -> Value, q: Pos)
    requires Leafy(t, leaves) && t.path !in leaves
    requires Fields(t, pos, |t.kids|, leaves, g) == Fields(t, pos, |t.kids|, leaves, h)
    ensures SameAt(t, pos, leaves, g, h, q)
    decreases t, 0
  {
    if LeafAt(t, leaves, q) && Visible(t, q) {
      var i := q[0];
      FieldOf(t, pos, |t.kids|, leaves, g, i);
      FieldOf(t, pos, |t.kids|, leaves, h, i);
      ShownEqualIff(t.kids[i], pos + [i], leaves, g, h);
      assert SameAt(t.kids[i], pos + [i], leaves, g, h, q[1..]);
      assert q == [i] + q[1..];
      SameAtKid(t, pos, leaves, g, h, i, q[1..]);
    }
  }

  // ---------------------------------------------------------------- plain evaluation

  /** `x` gives every leaf the constant `g` has at its position, and every other node a composition. */
  predicate Values(t: Tree, pos: Pos, leaves: set<string>, x: map<string, Expr>, g: Pos -> Value) {
    && t.path in x
    && (if t.path in leaves then t.kids == [] && x[t.path] == EConst(g(pos)) && g(pos) != Nil else x[t.path].ECompose?)
    && forall i :: 0 <= i < |t.kids| ==> Values(t.kids[i], pos + [i], leaves, x, g)
  }

  lemma {:induction false} EvalIsShown(t: Tree, pos: Pos, leaves: set<string>, x: map<string, Expr>, g: Pos -> Value, ap: Applier)
    requires Values(t, pos, leaves, x, g)
    ensures Eval(t, x, ap) == Ok(Shown(t, pos, leaves, g))
    decreases t, |t.kids| + 1
  {
    hide EvalKids, Fields;
    if t.path !in leaves {
      EvalKidsIsShown(t, pos, 0, leaves, x, g, ap);
      assert Fields(t, pos, 0, leaves, g) == map[] by { NoFields(t, pos, leaves, g); }
    }
  }

  lemma NoFields(t: Tree, pos: Pos, leaves: set<string>, g: Pos -> Value)
    ensures Fields(t, pos, 0, leaves, g) == map[]
  {
  }

  lemma {:induction false} EvalKidsIsShown(t: Tree, pos: Pos, i: nat, leaves: set<string>, x: map<string, Expr>, g: Pos -> Value,
                                           ap: Applier)
    requires Values(t, pos, leaves, x, g) && i <= |t.kids|
    ensures EvalKids(t, i, Fields(t, pos, i, leaves, g), x, ap) == Ok(VRecord(Fields(t, pos, |t.kids|, leaves, g)))
    decreases t, |t.kids| - i
  {
    hide Eval, Shown;
    if i < |t.kids| {
      EvalIsShown(t.kids[i], pos + [i], leaves, x, g, ap);
      EvalKidsIsShown(t, pos, i + 1, leaves, x, g, ap);
    }
  }

  // ---------------------------------------------------------------- reduceDirty

  /** Every node is clean and caches its part of what `g` shows; inner nodes hold compositions. */
  predicate AllShown(t: Tree, pos: Pos, st: States, leaves: set<string>, g: Pos -> Value) {
    ShownNode(t, pos, Node(st, pos), leaves, g) &&
    forall i :: 0 <= i < |t.kids| ==> AllShown(t.kids[i], pos + [i], st, leaves, g)
  }

  predicate ShownNode(t: Tree, pos: Pos, n: NodeState, leaves: set<string>, g: Pos -> Value) {
    && !n.dirty && n.cached == Shown(t, pos, leaves, g) && n.cached != Nil
    && (if t.path in leaves then t.kids == [] else n.expr.ECompose?)
  }

  /** Clean nodes show `g` already; dirty leaves come to hold it, and dirty compositions stay compositions. */
  predicate Ready(t: Tree, pos: Pos, st: States, leaves: set<string>, g: Pos -> Value, f: Frontier) {
    if !Node(st, pos).dirty then AllShown(t, pos, st, leaves, g)
    else
      && ReadyNode(t, pos, Node(st, pos), leaves, g, f)
      && forall i :: 0 <= i < |t.kids| ==> Ready(t.kids[i], pos + [i], st, leaves, g, f)
  }

  predicate ReadyNode(t: Tree, pos: Pos, n: NodeState, leaves: set<string>, g: Pos -> Value, f: Frontier) {
    if t.path in leaves then t.kids == [] && Refreshed(n, t.path, f).expr == EConst(g(pos)) && g(pos) != Nil
    else Refreshed(n, t.path, f).expr.ECompose?
  }

  lemma {:induction false} AllShownFrame(t: Tree, pos: Pos, st: States, st': States, leaves: set<string>, g: Pos -> Value)
    requires AllShown(t, pos, st, leaves, g) && SameUnder(t, pos, st, st')
    ensures AllShown(t, pos, st', leaves, g)
  {
    hide ShownNode;
    forall i | 0 <= i < |t.kids| ensures AllShown(t.kids[i], pos + [i], st', leaves, g) {
      AllShownFrame(t.kids[i], pos + [i], st, st', leaves, g);
    }
  }

  lemma {:induction false} ReadyFrame(t: Tree, pos: Pos, st: States, st': States, leaves: set<string>, g: Pos -> Value, f: Frontier)
    requires Ready(t, pos, st, leaves, g, f) && SameUnder(t, pos, st, st')
    ensures Ready(t, pos, st', leaves, g, f)
  {
    hide ReadyNode, AllShown;
    if !Node(st, pos).dirty {
      AllShownFrame(t, pos, st, st', leaves, g);
    } else {
      forall i | 0 <= i < |t.kids| ensures Ready(t.kids[i], pos + [i], st', leaves, g, f) {
        ReadyFrame(t.kids[i], pos + [i], st, st', leaves, g, f);
      }
    }
  }

  lemma ShownParent(t: Tree, pos: Pos, st: States, n: NodeState, leaves: set<string>, g: Pos -> Value)
    requires ShownNode(t, pos, n, leaves, g)
    requires forall j :: 0 <= j < |t.kids| ==> AllShown(t.kids[j], pos + [j], st, leaves, g)
    ensures AllShown(t, pos, st[pos := n], leaves, g)
  {
    hide ShownNode;
    ParentChangeUnder(t, pos, st, n);
    forall j | 0 <= j < |t.kids| ensures AllShown(t.kids[j], pos + [j], st[pos := n], leaves, g) {
      AllShownFrame(t.kids[j], pos + [j], st, st[pos := n], leaves, g);
    }
  }

  /** `reduceDirty` answers what `g` shows, and leaves every node showing it. */
  lemma {:induction false} ReduceShows(t: Tree, pos: Pos, st: States, leaves: set<string>, g: Pos -> Value, f: Frontier, ap: Applier)
    requires Ready(t, pos, st, leaves, g, f)
    ensures Reduce(t, pos, st, f, ap).res == Ok(Shown(t, pos, leaves, g))
    ensures AllShown(t, pos, Reduce(t, pos, st, f, ap).st, leaves, g)
    decreases t, |t.kids| + 2
  {
    hide Compute, Shown, Ready;
    ReadyParts(t, pos, st, leaves, g, f);
    if Node(st, pos).dirty {
      var n := Refreshed(Node(st, pos), t.path, f);
      var st1 := st[pos := n];
      ParentChangeUnder(t, pos, st, n);
      forall j | 0 <= j < |t.kids| ensures Ready(t.kids[j], pos + [j], st1, leaves, g, f) {
        ReadyFrame(t.kids[j], pos + [j], st, st1, leaves, g, f);
      }
      ComputeShows(t, pos, n.expr, st1, leaves, g, f, ap);
      var o := Compute(t, pos, n.expr, st1, f, ap);
      ShownParent(t, pos, o.st, n.(cached := o.res.value, dirty := false), leaves, g);
    }
  }

  lemma ReadyParts(t: Tree, pos: Pos, st: States, leaves: set<string>, g: Pos -> Value, f: Frontier)
    requires Ready(t, pos, st, leaves, g, f)
    ensures !Node(st, pos).dirty ==> AllShown(t, pos, st, leaves, g) && ShownNode(t, pos, Node(st, pos), leaves, g)
    ensures Node(st, pos).dirty ==>
              && ReadyNode(t, pos, Node(st, pos), leaves, g, f)
              && forall i :: 0 <= i < |t.kids| ==> Ready(t.kids[i], pos + [i], st, leaves, g, f)
  {
  }

  lemma {:induction false} ComputeShows(t: Tree, pos: Pos, e: Expr, st: States, leaves: set<string>, g: Pos -> Value, f: Frontier, ap: Applier)
    requires if t.path in leaves then t.kids == [] && e == EConst(g(pos)) && g(pos) != Nil else e.ECompose?
    requires forall j :: 0 <= j < |t.kids| ==> Ready(t.kids[j], pos + [j], st, leaves, g, f)
    ensures var o := Compute(t, pos, e, st, f, ap);
            && o.res == Ok(Shown(t, pos, leaves, g)) && o.res.value != Nil
            && forall j :: 0 <= j < |t.kids| ==> AllShown(t.kids[j], pos + [j], o.st, leaves, g)
    decreases t, |t.kids| + 1
  {
    hide Fields, ReduceKids, Ready;
    if t.path !in leaves {
      ReduceKidsShow(t, pos, 0, st, leaves, g, f, ap);
      NoFields(t, pos, leaves, g);
    }
  }

  lemma {:induction false} ReduceKidsShow(t: Tree, pos: Pos, i: nat, st: States, leaves: set<string>, g: Pos -> Value, f: Frontier,
                                          ap: Applier)
    requires i <= |t.kids|
    requires forall j :: 0 <= j < i ==> AllShown(t.kids[j], pos + [j], st, leaves, g)
    requires forall j :: i <= j < |t.kids| ==> Ready(t.kids[j], pos + [j], st, leaves, g, f)
    ensures var o := ReduceKids(t, pos, i, Fields(t, pos, i, leaves, g), st, f, ap);
            && o.res == Ok(VRecord(Fields(t, pos, |t.kids|, leaves, g)))
            && forall j :: 0 <= j < |t.kids| ==> AllShown(t.kids[j], pos + [j], o.st, leaves, g)
    decreases t, |t.kids| - i
  {
    hide Reduce, Shown, Ready, AllShown, SameUnder;
    if i < |t.kids| {
      ReduceShows(t.kids[i], pos + [i], st, leaves, g, f, ap);
      var o := Reduce(t.kids[i], pos + [i], st, f, ap);
      forall j | 0 <= j < |t.kids| && j != i
        ensures j < i ==> AllShown(t.kids[j], pos + [j], o.st, leaves, g)
        ensures i < j ==> Ready(t.kids[j], pos + [j], o.st, leaves, g, f)
      {
        SiblingUnder(t, pos, i, j, st, f, ap);
        if j < i {
          AllShownFrame(t.kids[j], pos + [j], st, o.st, leaves, g);
        } else {
          ReadyFrame(t.kids[j], pos + [j], st, o.st, leaves, g, f);
        }
      }
      ReduceKidsShow(t, pos, i + 1, o.st, leaves, g, f, ap);
    }
  }

  // ---------------------------------------------------------------- a proof as composed

  /** What `ComposeProof` makes of a tree at `f`, whatever its paths are. */
  predicate AsComposed(p: Proof, st: States, f: Frontier, ap: Applier) {
    && p.ix == IndexTree(p.tree, [], map[]) && p.vv == Receipt(p.tree, f)
    && Cold(p.tree, [], st, f)
    && Reduce(p.tree, [], st, f, ap).res == Ok(p.value)
    && p.st == Reduce(p.tree, [], st, f, ap).st
  }

  /** A proof of distinct named paths, as composed, is a fresh proof in the sense of the run theorems. */
  lemma DistinctIsComposed(p: Proof, st: States, f: Frontier, ap: Applier)
    requires AsComposed(p, st, f, ap) && Distinct(p.tree)
    ensures Composed(p, st, f, ap) && p.vv.Keys <= p.ix.Keys
  {
    hide Reduce, IndexTree;
    GroundedIndex(p.tree);
    forall q | InTree(p.tree, q) ensures Sub(p.tree, q).path in f { ColdIsLive(p.tree, [], st, f, q); }
    DistinctIsIndexed(p.tree, p.tree, [], f);
  }

  lemma {:induction false} ColdIsLive(t: Tree, pos: Pos, st: States, f: Frontier, q: Pos)
    requires Cold(t, pos, st, f) && InTree(t, q)
    ensures Sub(t, q).path in f
  {
    if q != [] { ColdIsLive(t.kids[q[0]], pos + [q[0]], st, f, q[1..]); }
  }

  /** The constants of a frontier. */
  function Constants(f: Frontier): set<string> {
    set q | q in f && f[q].expr.EConst?
  }

  /** The constant of the leaf at a position. */
  function LeafValue(t: Tree, f: Frontier, q: Pos): Value {
    if InTree(t, q) && Sub(t, q).path in f && f[Sub(t, q).path].expr.EConst? then f[Sub(t, q).path].expr.v else Nil
  }

  /** Leaves hold constants, inner nodes compositions. */
  predicate Plain(t: Tree, leaves: set<string>, f: Frontier) {
    && t.path in f
    && (if t.path in leaves then t.kids == [] && f[t.path].expr.EConst? && f[t.path].expr.v != Nil
        else f[t.path].expr.ECompose?)
    && forall i :: 0 <= i < |t.kids| ==> Plain(t.kids[i], leaves, f)
  }

  lemma {:induction false} PlainAtStart(t: Tree, f: Frontier)
    requires PlainTree(t, Exprs(f))
    ensures Plain(t, Constants(f), f)
  {
    forall i | 0 <= i < |t.kids| ensures Plain(t.kids[i], Constants(f), f) { PlainAtStart(t.kids[i], f); }
  }

  lemma {:induction false} PlainIsLeafy(t: Tree, leaves: set<string>, f: Frontier)
    requires Plain(t, leaves, f)
    ensures Leafy(t, leaves)
  {
    forall i | 0 <= i < |t.kids| ensures Leafy(t.kids[i], leaves) { PlainIsLeafy(t.kids[i], leaves, f); }
  }

  lemma {:induction false} PlainAt(t: Tree, leaves: set<string>, f: Frontier, q: Pos)
    requires Plain(t, leaves, f) && InTree(t, q)
    ensures Plain(Sub(t, q), leaves, f)
  {
    if q != [] { PlainAt(t.kids[q[0]], leaves, f, q[1..]); }
  }

  lemma {:induction false} ValuesOf(root: Tree, t: Tree, pos: Pos, leaves: set<string>, f: Frontier, g: Pos -> Value)
    requires InTree(root, pos) && t == Sub(root, pos) && Plain(t, leaves, f)
    requires forall q :: g(q) == LeafValue(root, f, q)
    ensures Values(t, pos, leaves, Exprs(f), g)
    decreases t
  {
    forall i | 0 <= i < |t.kids| ensures Values(t.kids[i], pos + [i], leaves, Exprs(f), g) {
      SubKid(root, pos, i);
      ValuesOf(root, t.kids[i], pos + [i], leaves, f, g);
    }
  }

  /** Plain evaluation shows the current constant of every leaf. */
  lemma EvalShows(root: Tree, t: Tree, pos: Pos, leaves: set<string>, f: Frontier, g: Pos -> Value, ap: Applier)
    requires InTree(root, pos) && t == Sub(root, pos) && Plain(t, leaves, f)
    requires forall q :: g(q) == LeafValue(root, f, q)
    ensures Eval(t, Exprs(f), ap) == Ok(Shown(t, pos, leaves, g))
  {
    hide Eval, Shown, Plain;
    ValuesOf(root, t, pos, leaves, f, g);
    EvalIsShown(t, pos, leaves, Exprs(f), g, ap);
  }

  // ---------------------------------------------------------------- what a proof serves

  /** The index leads from the node's path back to the node, under a name that is on the receipt. */
  predicate Tracked(p: Proof, q: Pos) {
    InTree(p.tree, q) && var c := Sub(p.tree, q).path; c != "" && c in p.ix && p.ix[c] == q
  }

  /** The constant served for the leaf at `q` at frontier `f`: the current one if tracked, else the one composed at `f0`. */
  function ServedAt(p: Proof, f0: Frontier, f: Frontier, q: Pos): Value {
    LeafValue(p.tree, if Tracked(p, q) then f else f0, q)
  }

  function Serving(p: Proof, f0: Frontier, f: Frontier): Pos -> Value {
    q => ServedAt(p, f0, f, q)
  }

  /** A proof after a read at `f`: its receipts are current and its nodes show what it serves. */
  predicate UpToDate(p: Proof, b: Proof, f0: Frontier, f: Frontier) {
    && b.tree == p.tree && b.ix == p.ix && b.vv.Keys == p.vv.Keys && Verified(b.vv, f)
    && AllShown(p.tree, [], b.st, Constants(f0), Serving(p, f0, f))
    && b.value == Shown(p.tree, [], Constants(f0), Serving(p, f0, f))
  }

  lemma {:induction false} ComposedShows(root: Tree, t: Tree, pos: Pos, st: States, f0: Frontier, g: Pos -> Value, ap: Applier)
    requires InTree(root, pos) && t == Sub(root, pos) && Plain(t, Constants(f0), f0)
    requires Good(t, pos, st, Exprs(f0), f0, ap) && AllClean(t, pos, st) && Filled(t, pos, st)
    requires forall q :: g(q) == LeafValue(root, f0, q)
    ensures AllShown(t, pos, st, Constants(f0), g)
    decreases t
  {
    hide Eval, Shown;
    EvalShows(root, t, pos, Constants(f0), f0, g, ap);
    forall i | 0 <= i < |t.kids| ensures AllShown(t.kids[i], pos + [i], st, Constants(f0), g) {
      SubKid(root, pos, i);
      ComposedShows(root, t.kids[i], pos + [i], st, f0, g, ap);
    }
  }

  /** What composing leaves in the nodes. */
  lemma ComposedStates(p: Proof, st: States, f0: Frontier, ap: Applier)
    requires AsComposed(p, st, f0, ap) && PlainTree(p.tree, Exprs(f0))
    ensures Good(p.tree, [], p.st, Exprs(f0), f0, ap) && AllClean(p.tree, [], p.st) && Filled(p.tree, [], p.st)
    ensures Eval(p.tree, Exprs(f0), ap) == Ok(p.value)
  {
    hide Good, Eval, PlainTree, Reduce, IndexTree;
    ColdIsGood(p.tree, [], st, f0, ap);
    ReduceExact(p.tree, [], st, Exprs(f0), f0, ap);
    forall q ensures Node(p.st, q).dirty ==> Node(st, q).dirty { NeverDirties(p.tree, [], st, f0, ap, q); }
    CleanStays(p.tree, [], st, p.st);
    ComposeFills(p.tree, [], st, f0, ap);
  }

  lemma UpToDateAtStart(p: Proof, st: States, f0: Frontier, ap: Applier)
    requires AsComposed(p, st, f0, ap) && PlainTree(p.tree, Exprs(f0))
    ensures UpToDate(p, p, f0, f0)
  {
    hide Good, Eval, PlainTree, Reduce, IndexTree, AllShown, Plain, Cold;
    ComposedStates(p, st, f0, ap);
    PlainAtStart(p.tree, f0);
    var g := Serving(p, f0, f0);
    ComposedShows(p.tree, p.tree, [], p.st, f0, g, ap);
    EvalShows(p.tree, p.tree, [], Constants(f0), f0, g, ap);
  }

  // ---------------------------------------------------------------- one read

  /** Compositions are untouched; a leaf is untouched or holds a new atom with a constant. */
  predicate LeafStep(t: Tree, f: Frontier, f': Frontier) {
    && t.path in f && t.path in f' && (f'[t.path] == f[t.path] || NewConstant(t.path, f, f'))
    && forall i :: 0 <= i < |t.kids| ==> LeafStep(t.kids[i], f, f')
  }

  predicate NewConstant(c: string, f: Frontier, f': Frontier)
    requires c in f && c in f'
  {
    f[c].hash != f'[c].hash && f[c].expr.EConst? && f'[c].expr.EConst? && f'[c].expr.v != Nil
  }

  lemma {:induction false} LeafStepAt(t: Tree, f: Frontier, f': Frontier, q: Pos)
    requires LeafStep(t, f, f') && InTree(t, q)
    ensures LeafStep(Sub(t, q), f, f')
  {
    if q != [] { LeafStepAt(t.kids[q[0]], f, f', q[1..]); }
  }

  lemma {:induction false} StaysPlain(t: Tree, leaves: set<string>, f: Frontier, f': Frontier)
    requires Plain(t, leaves, f) && LeafStep(t, f, f')
    ensures Plain(t, leaves, f')
  {
    forall i | 0 <= i < |t.kids| ensures Plain(t.kids[i], leaves, f') { StaysPlain(t.kids[i], leaves, f, f'); }
  }

  lemma BelowPrefix(pos: Pos, q: Pos, ps: seq<Pos>)
    requires Below(pos + q, ps)
    ensures Below(pos, ps)
  {
    var k :| 0 <= k < |ps| && pos + q <= ps[k];
    assert pos <= ps[k];
  }

  /** A leaf is marked exactly if it is tracked and its path changed. */
  lemma MarkedLeaf(p: Proof, b: Proof, f': Frontier, order: seq<string>, pos: Pos)
    requires b.tree == p.tree && b.ix == p.ix && Grounded(b.tree, b.ix) && Lists(order, Changed(b.vv, f')) && "" !in b.vv
    requires InTree(p.tree, pos) && Sub(p.tree, pos).kids == []
    ensures Below(pos, Marks(order, b.ix)) <==> Tracked(p, pos) && Sub(p.tree, pos).path in Changed(b.vv, f')
  {
    var marks := Marks(order, b.ix);
    var c := Sub(p.tree, pos).path;
    MarksOf(order, b.ix);
    if Below(pos, marks) {
      var k :| 0 <= k < |marks| && pos <= marks[k];
      assert marks[k] in marks;
      var c' :| c' in order && c' in b.ix && b.ix[c'] == marks[k];
      PrefixInTree(b.tree, pos, b.ix[c']);
      assert b.ix[c'][|pos|..] == [];
      assert b.ix[c'] == pos;
    }
    if Tracked(p, pos) && c in Changed(b.vv, f') {
      assert pos in marks;
      BelowElement(pos, marks, pos);
    }
  }

  /** What every lemma about one read assumes: the proof is up to date at `f`, and leaves were written since. */
  ghost predicate Step(p: Proof, b: Proof, f0: Frontier, f: Frontier, f': Frontier, order: seq<string>) {
    && p.ix == IndexTree(p.tree, [], map[]) && p.vv == Receipt(p.tree, f0)
    && UpToDate(p, b, f0, f) && Plain(p.tree, Constants(f0), f) && LeafStep(p.tree, f, f')
    && Lists(order, Changed(b.vv, f'))
  }

  /** A leaf that was not marked serves what it served before. */
  lemma UnmarkedSame(p: Proof, b: Proof, f0: Frontier, f: Frontier, f': Frontier, order: seq<string>, q: Pos)
    requires Step(p, b, f0, f, f', order) && LeafAt(p.tree, Constants(f0), q) && !Below(q, Marks(order, b.ix))
    ensures ServedAt(p, f0, f', q) == ServedAt(p, f0, f, q)
  {
    hide AllShown, Shown, IndexTree, Marks, LeafStep, Plain;
    if Tracked(p, q) {
      var c := Sub(p.tree, q).path;
      LeafFacts(p, f0, f, f', q);
      GroundedIndex(p.tree);
      MarkedLeaf(p, b, f', order, q);
      assert c in b.vv && Current(c, b.vv[c], f);
    }
  }

  lemma LeafFacts(p: Proof, f0: Frontier, f: Frontier, f': Frontier, q: Pos)
    requires Plain(p.tree, Constants(f0), f) && LeafStep(p.tree, f, f') && LeafAt(p.tree, Constants(f0), q)
    ensures var t := Sub(p.tree, q);
            && t.kids == [] && t.path in f0 && t.path in f && t.path in f'
            && f[t.path].expr.EConst? && f'[t.path].expr.EConst? && f'[t.path].expr.v != Nil
            && (f'[t.path].hash == f[t.path].hash ==> f'[t.path] == f[t.path])
  {
    PlainAt(p.tree, Constants(f0), f, q);
    LeafStepAt(p.tree, f, f', q);
  }

  /** Below an unmarked node nothing changes: it shows at `f'` what it showed at `f`. */
  lemma UnmarkedShows(p: Proof, b: Proof, f0: Frontier, f: Frontier, f': Frontier, order: seq<string>, t: Tree, pos: Pos)
    requires Step(p, b, f0, f, f', order) && InTree(p.tree, pos) && t == Sub(p.tree, pos) && !Below(pos, Marks(order, b.ix))
    ensures Shown(t, pos, Constants(f0), Serving(p, f0, f)) == Shown(t, pos, Constants(f0), Serving(p, f0, f'))
  {
    hide Shown, Step, Marks, ServedAt, Visible;
    var g, h := Serving(p, f0, f), Serving(p, f0, f');
    assert Leafy(t, Constants(f0)) by { StepLeafy(p, b, f0, f, f', order, pos); }
    forall q ensures SameAt(t, pos, Constants(f0), g, h, q) {
      if LeafAt(t, Constants(f0), q) {
        SubAppend(p.tree, pos, q);
        if Below(pos + q, Marks(order, b.ix)) { BelowPrefix(pos, q, Marks(order, b.ix)); }
        UnmarkedSame(p, b, f0, f, f', order, pos + q);
      }
    }
    ShownEqualIff(t, pos, Constants(f0), g, h);
  }

  lemma StepLeafy(p: Proof, b: Proof, f0: Frontier, f: Frontier, f': Frontier, order: seq<string>, pos: Pos)
    requires Step(p, b, f0, f, f', order) && InTree(p.tree, pos)
    ensures Leafy(Sub(p.tree, pos), Constants(f0))
  {
    PlainAt(p.tree, Constants(f0), f, pos);
    PlainIsLeafy(Sub(p.tree, pos), Constants(f0), f);
  }

  lemma {:induction false} UnmarkedAllShown(p: Proof, b: Proof, f0: Frontier, f: Frontier, f': Frontier, order: seq<string>, t: Tree, pos: Pos)
    requires Step(p, b, f0, f, f', order) && InTree(p.tree, pos) && t == Sub(p.tree, pos) && !Below(pos, Marks(order, b.ix))
    requires AllShown(t, pos, b.st, Constants(f0), Serving(p, f0, f))
    ensures AllShown(t, pos, Marked(b, order), Constants(f0), Serving(p, f0, f'))
    decreases t
  {
    hide Marked, Marks, Shown, Step;
    MarkedState(b, order, pos);
    UnmarkedShows(p, b, f0, f, f', order, t, pos);
    forall i | 0 <= i < |t.kids| ensures AllShown(t.kids[i], pos + [i], Marked(b, order), Constants(f0), Serving(p, f0, f')) {
      SubKid(p.tree, pos, i);
      if Below(pos + [i], Marks(order, b.ix)) { BelowPrefix(pos, [i], Marks(order, b.ix)); }
      UnmarkedAllShown(p, b, f0, f, f', order, t.kids[i], pos + [i]);
    }
  }

  lemma MarkedNodeIsReady(p: Proof, b: Proof, f0: Frontier, f: Frontier, f': Frontier, order: seq<string>, t: Tree, pos: Pos)
    requires Step(p, b, f0, f, f', order) && InTree(p.tree, pos) && t == Sub(p.tree, pos) && Below(pos, Marks(order, b.ix))
    requires ShownNode(t, pos, Node(b.st, pos), Constants(f0), Serving(p, f0, f))
    ensures ReadyNode(t, pos, Node(Marked(b, order), pos), Constants(f0), Serving(p, f0, f'), f')
  {
    hide Marked, Marks, Shown, AllShown, IndexTree, LeafStep, Plain;
    MarkedState(b, order, pos);
    if t.path in Constants(f0) {
      LeafFacts(p, f0, f, f', pos);
      GroundedIndex(p.tree);
      MarkedLeaf(p, b, f', order, pos);
    } else {
      InnerFacts(p, f0, f, f', pos);
    }
  }

  lemma InnerFacts(p: Proof, f0: Frontier, f: Frontier, f': Frontier, q: Pos)
    requires Plain(p.tree, Constants(f0), f) && LeafStep(p.tree, f, f') && InTree(p.tree, q) && Sub(p.tree, q).path !in Constants(f0)
    ensures Sub(p.tree, q).path in f' && f'[Sub(p.tree, q).path].expr.ECompose?
  {
    PlainAt(p.tree, Constants(f0), f, q);
    LeafStepAt(p.tree, f, f', q);
  }

  lemma {:induction false} MarkedIsReady(p: Proof, b: Proof, f0: Frontier, f: Frontier, f': Frontier, order: seq<string>, t: Tree, pos: Pos)
    requires Step(p, b, f0, f, f', order) && InTree(p.tree, pos) && t == Sub(p.tree, pos)
    requires AllShown(t, pos, b.st, Constants(f0), Serving(p, f0, f))
    ensures Ready(t, pos, Marked(b, order), Constants(f0), Serving(p, f0, f'), f')
    decreases t
  {
    hide Marked, Marks, Step, ShownNode, ReadyNode;
    MarkedState(b, order, pos);
    if !Below(pos, Marks(order, b.ix)) {
      UnmarkedAllShown(p, b, f0, f, f', order, t, pos);
    } else {
      MarkedNodeIsReady(p, b, f0, f, f', order, t, pos);
      forall i | 0 <= i < |t.kids| ensures Ready(t.kids[i], pos + [i], Marked(b, order), Constants(f0), Serving(p, f0, f'), f') {
        SubKid(p.tree, pos, i);
        MarkedIsReady(p, b, f0, f, f', order, t.kids[i], pos + [i]);
      }
    }
  }

  lemma EmptyListing(order: seq<string>)
    requires Lists(order, {})
    ensures order == []
  {
    forall q ensures multiset(order)[q] == 0 { assert q !in order; }
    assert multiset(order) == multiset{};
    assert |multiset(order)| == |order|;
  }

  lemma ReceiptLive(p: Proof, f0: Frontier, f: Frontier, f': Frontier)
    requires p.vv == Receipt(p.tree, f0) && LeafStep(p.tree, f, f')
    ensures forall c <- p.vv.Keys :: c in f'
  {
    hide LeafStep;
    GroundedIndex(p.tree);
    forall c | c in p.vv ensures c in f' {
      LeafStepAt(p.tree, f, f', IndexTree(p.tree, [], map[])[c]);
      LeafStepHere(Sub(p.tree, IndexTree(p.tree, [], map[])[c]), f, f');
    }
  }

  lemma LeafStepHere(t: Tree, f: Frontier, f': Frontier)
    requires LeafStep(t, f, f')
    ensures t.path in f'
  {
  }

  lemma {:induction false} ShownIsClean(t: Tree, pos: Pos, st: States, leaves: set<string>, g: Pos -> Value)
    requires AllShown(t, pos, st, leaves, g)
    ensures AllClean(t, pos, st)
  {
    hide Shown;
    forall i | 0 <= i < |t.kids| ensures AllClean(t.kids[i], pos + [i], st) { ShownIsClean(t.kids[i], pos + [i], st, leaves, g); }
  }

  /** A read answers what the proof serves at that moment, and leaves it up to date. */
  lemma ReadServes(p: Proof, b: Proof, f0: Frontier, f: Frontier, f': Frontier, order: seq<string>, ap: Applier)
    requires Step(p, b, f0, f, f', order)
    ensures Read(b, f', order, ap).res == Ok(Shown(p.tree, [], Constants(f0), Serving(p, f0, f')))
    ensures UpToDate(p, Read(b, f', order, ap).proof, f0, f')
  {
    hide Marked, Shown, AllShown, Reduce, IndexTree, LeafStep, Plain;
    if Verified(b.vv, f') {
      assert Changed(b.vv, f') == {};
      EmptyListing(order);
      assert !Below([], Marks(order, b.ix));
      UnmarkedShows(p, b, f0, f, f', order, p.tree, []);
      UnmarkedAllShown(p, b, f0, f, f', order, p.tree, []);
      ShownIsClean(p.tree, [], b.st, Constants(f0), Serving(p, f0, f));
      MarkNothing(b, p.tree, [], Constants(f0), Serving(p, f0, f'));
    } else {
      MarkedIsReady(p, b, f0, f, f', order, p.tree, []);
      ReduceShows(p.tree, [], Marked(b, order), Constants(f0), Serving(p, f0, f'), f', ap);
      assert forall c <- b.vv.Keys :: c in f' by { ReceiptLive(p, f0, f, f'); }
    }
  }

  /** Marking nothing leaves clean nodes as they are. */
  lemma {:induction false} MarkNothing(b: Proof, t: Tree, pos: Pos, leaves: set<string>, g: Pos -> Value)
    requires AllShown(t, pos, Marked(b, []), leaves, g) && AllClean(t, pos, b.st)
    ensures AllShown(t, pos, b.st, leaves, g)
    decreases t
  {
    hide Marked, Shown;
    MarkedState(b, [], pos);
    forall i | 0 <= i < |t.kids| ensures AllShown(t.kids[i], pos + [i], b.st, leaves, g) {
      MarkNothing(b, t.kids[i], pos + [i], leaves, g);
    }
  }

  // ---------------------------------------------------------------- whole runs

  /** A run of leaf overwrites with a read at each frontier but the first, where the proof was composed. */
  ghost predicate LeafOverwrites(p: Proof, st: States, fs: seq<Frontier>, orders: seq<seq<string>>, n: nat, ap: Applier)
    requires n < |fs| == |orders|
  {
    && AsComposed(p, st, fs[0], ap) && PlainTree(p.tree, Exprs(fs[0]))
    && (forall i :: 0 < i <= n ==> LeafStep(p.tree, fs[i - 1], fs[i]))
    && (forall i :: 0 < i <= n ==> Lists(orders[i], Changed(After(p, fs, orders, i - 1, ap).vv, fs[i])))
  }

  lemma {:induction false} RunIsUpToDate(p: Proof, st: States, fs: seq<Frontier>, orders: seq<seq<string>>, n: nat, ap: Applier)
    requires n < |fs| == |orders| && LeafOverwrites(p, st, fs, orders, n, ap)
    ensures UpToDate(p, After(p, fs, orders, n, ap), fs[0], fs[n]) && Plain(p.tree, Constants(fs[0]), fs[n])
    ensures 0 < n ==> Step(p, After(p, fs, orders, n - 1, ap), fs[0], fs[n - 1], fs[n], orders[n])
  {
    hide UpToDate, Plain, PlainTree, LeafStep, IndexTree, Receipt, Cold, Reduce, Read;
    if n == 0 {
      UpToDateAtStart(p, st, fs[0], ap);
      PlainAtStart(p.tree, fs[0]);
    } else {
      RunIsUpToDate(p, st, fs, orders, n - 1, ap);
      var b := After(p, fs, orders, n - 1, ap);
      assert LeafStep(p.tree, fs[n - 1], fs[n]);
      StaysPlain(p.tree, Constants(fs[0]), fs[n - 1], fs[n]);
      ReadServes(p, b, fs[0], fs[n - 1], fs[n], orders[n], ap);
    }
  }

  /** A visible leaf whose constant is not the one it was composed with. */
  ghost predicate SeenChanged(p: Proof, f0: Frontier, f: Frontier, q: Pos) {
    LeafAt(p.tree, Constants(f0), q) && Visible(p.tree, q) && LeafValue(p.tree, f, q) != LeafValue(p.tree, f0, q)
  }

  /**
   The exact condition for freshness. On every tree of constants and compositions, with repeated and empty paths, and in
   every run of leaf overwrites and reads, a read answers plain evaluation if and only if every leaf that can be seen and
   does not hold the constant it was composed with is the node its path is indexed under, and the path is not empty. A
   leaf can be seen if no node on the way down to it has a later sibling of the same path.
   */
  lemma FreshIffTracked(p: Proof, st: States, fs: seq<Frontier>, orders: seq<seq<string>>, n: nat, ap: Applier)
    requires 0 < n < |fs| == |orders| && LeafOverwrites(p, st, fs, orders, n, ap)
    ensures Answer(p, fs, orders, n, ap) == Eval(p.tree, Exprs(fs[n]), ap) <==>
            forall q :: SeenChanged(p, fs[0], fs[n], q) ==> Tracked(p, q)
  {
    hide Read, Shown, Eval, Plain, Step, UpToDate, LeafOverwrites, Visible, LeafValue;
    var f0, f := fs[0], fs[n];
    var g, now := Serving(p, f0, f), (q => LeafValue(p.tree, f, q));
    RunIsUpToDate(p, st, fs, orders, n, ap);
    ReadServes(p, After(p, fs, orders, n - 1, ap), f0, fs[n - 1], f, orders[n], ap);
    EvalShows(p.tree, p.tree, [], Constants(f0), f, now, ap);
    PlainIsLeafy(p.tree, Constants(f0), f);
    ShownEqualIff(p.tree, [], Constants(f0), g, now);
    forall q ensures SameAt(p.tree, [], Constants(f0), g, now, q) <==> (SeenChanged(p, f0, f, q) ==> Tracked(p, q)) {
      assert [] + q == q;
    }
  }

  /** The same for the first read. */
  lemma FirstReadFreshIff(p: Proof, st: States, f0: Frontier, f: Frontier, order: seq<string>, ap: Applier)
    requires AsComposed(p, st, f0, ap) && PlainTree(p.tree, Exprs(f0)) && LeafStep(p.tree, f0, f)
    requires Lists(order, Changed(p.vv, f))
    ensures Read(p, f, order, ap).res == Eval(p.tree, Exprs(f), ap) <==>
            forall q :: SeenChanged(p, f0, f, q) ==> Tracked(p, q)
  {
    hide Read, Eval, AsComposed, PlainTree, LeafStep, SeenChanged, Tracked;
    var fs, orders := [f0, f], [[], order];
    assert After(p, fs, orders, 0, ap) == p;
    FreshIffTracked(p, st, fs, orders, 1, ap);
  }
}
