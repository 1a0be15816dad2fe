/**
 What an incremental read computes (internal/engine/incremental.go, proof.go), on values.

 A proof's node graph is a fixed tree; the part that a read changes is a map from node
 positions to node states. The heap objects of module ProofEngine are proved to follow the
 functions of this module step by step.
 */
module ProofSpec {
  import opened Core

  /** The child indices leading from the root to a node. */
  type Pos = seq<nat>

  datatype Tree = Tree(path: string, kids: seq<Tree>)

  /** `cached == Nil` is a node that holds no value yet. */
  datatype NodeState = NodeState(expr: Expr, hash: Hash, cached: Value, dirty: bool)

  type States = map<Pos, NodeState>

  /** The live atom of every path, as `GetCurrent` answers at one instant. */
  type Frontier = map<string, Atom>

  /** What applyCombinator answers; calls on which it never returns are not modelled here. */
  type Applier = (Value, Value) -> Value

  datatype Error = MissingChildren | Unsupported
  datatype Outcome = Ok(value: Value) | Err(error: Error)

  function Node(st: States, pos: Pos): NodeState {
    if pos in st then st[pos] else NodeState(EOpaque([]), Sha3([]), Nil, false)
  }

  function ExtractField(field: string, v: Value): Value {
    if v.VRecord? && field in v.fields then v.fields[field] else VNull
  }

  // ---------------------------------------------------------------- plain evaluation

  /** The value of a proof's node tree when each path holds the expression `x` gives it. */
  function Eval(t: Tree, x: map<string, Expr>, ap: Applier): Outcome
    decreases t
  {
    if t.path !in x then Err(Unsupported) else
    match x[t.path]
    case EConst(v) => Ok(v)
    case EFieldAccess(field, _) =>
      if t.kids == [] then Err(MissingChildren) else
        var r := Eval(t.kids[0], x, ap);
        if r.Err? then r else Ok(ExtractField(field, r.value))
    case ECompose(_) => EvalKids(t, 0, map[], x, ap)
    case EApply(_, _) =>
      if |t.kids| < 2 then Err(MissingChildren) else
        var f := Eval(t.kids[0], x, ap);
        var a := Eval(t.kids[1], x, ap);
        if f.Err? then f else if a.Err? then a else Ok(ap(f.value, a.value))
    case EOpaque(_) => Err(Unsupported)
  }

  function EvalKids(t: Tree, i: nat, rec: map<string, Value>, x: map<string, Expr>, ap: Applier): Outcome
    requires i <= |t.kids|
    decreases t, |t.kids| - i
  {
    if i == |t.kids| then Ok(VRecord(rec)) else
      var r := Eval(t.kids[i], x, ap);
      if r.Err? then r else EvalKids(t, i + 1, rec[t.kids[i].path := r.value], x, ap)
  }

  // ---------------------------------------------------------------- reduceDirty

  datatype Out = Out(res: Outcome, st: States, hits: nat, misses: nat)

  /** A dirty node takes over the current expression of its path; a dead path keeps the old one. */
  function Refreshed(n: NodeState, path: string, f: Frontier): NodeState {
    if path != "" && n.dirty && path in f then n.(expr := f[path].expr, hash := f[path].hash) else n
  }

  /** The result of evaluating a node is kept in it, unless the evaluation failed. */
  function Stored(pos: Pos, n: NodeState, o: Out): Out {
    if o.res.Err? then o.(misses := o.misses + 1)
    else Out(o.res, o.st[pos := n.(cached := o.res.value, dirty := false)], o.hits, o.misses + 1)
  }

  /** `reduceDirty` on the node at `pos`: a clean value is a hit, otherwise the node is brought up to date and evaluated. */
  function Reduce(t: Tree, pos: Pos, st: States, f: Frontier, ap: Applier): Out
    decreases t, |t.kids| + 2
  {
    if !Node(st, pos).dirty && Node(st, pos).cached != Nil then
      Out(Ok(Node(st, pos).cached), st, 1, 0)
    else
      var n := Refreshed(Node(st, pos), t.path, f);
      Stored(pos, n, Compute(t, pos, n.expr, st[pos := n], f, ap))
  }

  /** The evaluation of a node that holds `e`, by the kind of the expression. */
  function Compute(t: Tree, pos: Pos, e: Expr, st: States, f: Frontier, ap: Applier): Out
    decreases t, |t.kids| + 1
  {
    match e
    case EConst(v) => Out(Ok(v), st, 0, 0)
    case EFieldAccess(field, _) =>
      if t.kids == [] then Out(Err(MissingChildren), st, 0, 0) else
        var o := Reduce(t.kids[0], pos + [0], st, f, ap);
        if o.res.Err? then o else o.(res := Ok(ExtractField(field, o.res.value)))
    case ECompose(_) => ReduceKids(t, pos, 0, map[], st, f, ap)
    case EApply(_, _) =>
      if |t.kids| < 2 then Out(Err(MissingChildren), st, 0, 0) else
        var o := Reduce(t.kids[0], pos + [0], st, f, ap);
        if o.res.Err? then o else
          var o' := Plus(o, Reduce(t.kids[1], pos + [1], o.st, f, ap));
          if o'.res.Err? then o' else o'.(res := Ok(ap(o.res.value, o'.res.value)))
    case EOpaque(_) => Out(Err(Unsupported), st, 0, 0)
  }

  /** The record built from the children `i` and up, in order, stopping at the first failure. */
  function ReduceKids(t: Tree, pos: Pos, i: nat, rec: map<string, Value>, st: States, f: Frontier, ap: Applier): Out
    requires i <= |t.kids|
    decreases t, |t.kids| - i
  {
    if i == |t.kids| then Out(Ok(VRecord(rec)), st, 0, 0) else
      var o := Reduce(t.kids[i], pos + [i], st, f, ap);
      if o.res.Err? then o else
        Plus(o, ReduceKids(t, pos, i + 1, rec[t.kids[i].path := o.res.value], o.st, f, ap))
  }

  function Plus(before: Out, after: Out): Out {
    after.(hits := before.hits + after.hits, misses := before.misses + after.misses)
  }

  // ---------------------------------------------------------------- dirty flags

  function Cleared(st: States): States {
    map q | q in st :: st[q].(dirty := false)
  }

  /** `PropagateDirtyUp`: stops at the first node that is dirty already. */
  function PropagateDirtyUp(st: States, pos: Pos): States
    decreases |pos|
  {
    if Node(st, pos).dirty then st else
      var marked := st[pos := Node(st, pos).(dirty := true)];
      if pos == [] then marked else PropagateDirtyUp(marked, pos[..|pos| - 1])
  }

  function PropagateAll(st: States, ps: seq<Pos>): States {
    if ps == [] then st else PropagateDirtyUp(PropagateAll(st, ps[..|ps| - 1]), ps[|ps| - 1])
  }

  predicate UpClosed(st: States, q: Pos, r: Pos) {
    Node(st, r).dirty && q <= r ==> Node(st, q).dirty
  }

  lemma {:induction false} PropagateFrom(st0: States, from: Pos, st: States, pos: Pos)
    requires forall q, r :: UpClosed(st0, q, r)
    requires pos <= from
    requires forall q :: Node(st, q) == Node(st0, q).(dirty := Node(st0, q).dirty || (pos < q && q <= from))
    ensures forall q :: Node(PropagateDirtyUp(st, pos), q) == Node(st0, q).(dirty := Node(st0, q).dirty || q <= from)
    decreases |pos|
  {
    if Node(st, pos).dirty {
      forall q | q <= from && !(pos < q)
        ensures Node(st0, q).dirty
      {
        assert q <= pos;
        assert UpClosed(st0, q, pos);
      }
    } else {
      var marked := st[pos := Node(st, pos).(dirty := true)];
      if pos != [] {
        var up := pos[..|pos| - 1];
        assert up < pos;
        forall q
          ensures Node(marked, q) == Node(st0, q).(dirty := Node(st0, q).dirty || (up < q && q <= from))
        {
          if up < q && q <= from && q != pos {
            assert q[|pos| - 1] == from[|pos| - 1];
            assert pos < q;
          }
        }
        PropagateFrom(st0, from, marked, up);
      }
    }
  }

  ghost predicate Below(q: Pos, ps: seq<Pos>) {
    exists i :: 0 <= i < |ps| && q <= ps[i]
  }

  /**
   From a graph with no dirty node, whatever the order of the calls and in spite of the early
   return, the dirty nodes are exactly the marked ones and their ancestors; nothing else changes.
   */
  lemma {:induction false} DirtySetExact(st: States, ps: seq<Pos>)
    requires forall q :: !Node(st, q).dirty
    ensures forall q :: Node(PropagateAll(st, ps), q) == Node(st, q).(dirty := Below(q, ps))
  {
    if ps != [] {
      var init, last := ps[..|ps| - 1], ps[|ps| - 1];
      DirtySetExact(st, init);
      var mid := PropagateAll(st, init);
      forall q, r
        ensures UpClosed(mid, q, r)
      {
        if Node(mid, r).dirty && q <= r {
          var i :| 0 <= i < |init| && r <= init[i];
          assert q <= init[i];
        }
      }
      PropagateFrom(mid, last, mid, last);
      forall q
        ensures Below(q, ps) <==> Below(q, init) || q <= last
      {
        if Below(q, init) {
          var i :| 0 <= i < |init| && q <= init[i];
          assert q <= ps[i];
        }
        if q <= last {
          assert q <= ps[|ps| - 1];
        }
      }
    }
  }

  // ---------------------------------------------------------------- exactness of reduceDirty

  lemma {:induction false} ReduceFrame(t: Tree, pos: Pos, st: States, f: Frontier, ap: Applier, q: Pos)
    requires !(pos <= q)
    ensures Node(Reduce(t, pos, st, f, ap).st, q) == Node(st, q)
    decreases t, |t.kids| + 2
  {
    hide Compute;
    var n := Refreshed(Node(st, pos), t.path, f);
    forall i | 0 <= i < |t.kids| ensures !(pos + [i] <= q) {
      if pos + [i] <= q { KidBelow(pos, i, q); }
    }
    ComputeFrame(t, pos, n.expr, st[pos := n], f, ap, q);
  }

  lemma KidBelow(pos: Pos, i: nat, q: Pos)
    requires pos + [i] <= q
    ensures pos < q && q[|pos|] == i
  {
  }

  lemma {:induction false} ComputeFrame(t: Tree, pos: Pos, e: Expr, st: States, f: Frontier, ap: Applier, q: Pos)
    requires forall j :: 0 <= j < |t.kids| ==> !(pos + [j] <= q)
    ensures Node(Compute(t, pos, e, st, f, ap).st, q) == Node(st, q)
    decreases t, |t.kids| + 1
  {
    hide Reduce, ReduceKids;
    match e
    case EFieldAccess(_, _) =>
      if t.kids != [] { ReduceFrame(t.kids[0], pos + [0], st, f, ap, q); }
    case ECompose(_) => ReduceKidsFrame(t, pos, 0, map[], st, f, ap, q);
    case EApply(_, _) =>
      if |t.kids| >= 2 {
        ReduceFrame(t.kids[0], pos + [0], st, f, ap, q);
        ReduceFrame(t.kids[1], pos + [1], Reduce(t.kids[0], pos + [0], st, f, ap).st, f, ap, q);
      }
    case _ =>
  }

  lemma {:induction false} ReduceKidsFrame(t: Tree, pos: Pos, i: nat, rec: map<string, Value>, st: States,
                                           f: Frontier, ap: Applier, q: Pos)
    requires i <= |t.kids|
    requires forall j :: i <= j < |t.kids| ==> !(pos + [j] <= q)
    ensures Node(ReduceKids(t, pos, i, rec, st, f, ap).st, q) == Node(st, q)
    decreases t, |t.kids| - i
  {
    hide Reduce;
    if i < |t.kids| {
      var o := Reduce(t.kids[i], pos + [i], st, f, ap);
      ReduceFrame(t.kids[i], pos + [i], st, f, ap, q);
      if o.res.Ok? {
        ReduceKidsFrame(t, pos, i + 1, rec[t.kids[i].path := o.res.value], o.st, f, ap, q);
      }
    }
  }

  /** Every clean cached value is right for `x`, and `x` is what each node would evaluate. */
  predicate Good(t: Tree, pos: Pos, st: States, x: map<string, Expr>, f: Frontier, ap: Applier) {
    GoodNode(t, Node(st, pos), x, f, ap) &&
    forall i :: 0 <= i < |t.kids| ==> Good(t.kids[i], pos + [i], st, x, f, ap)
  }

  predicate GoodNode(t: Tree, n: NodeState, x: map<string, Expr>, f: Frontier, ap: Applier) {
    && t.path in x
    && Refreshed(n, t.path, f).expr == x[t.path]
    && (!n.dirty && n.cached != Nil ==> Eval(t, x, ap) == Ok(n.cached))
  }

  predicate GoodKids(t: Tree, pos: Pos, st: States, x: map<string, Expr>, f: Frontier, ap: Applier) {
    forall i :: 0 <= i < |t.kids| ==> Good(t.kids[i], pos + [i], st, x, f, ap)
  }

  predicate Agree(st: States, st': States, pos: Pos, q: Pos) {
    pos <= q ==> Node(st, q) == Node(st', q)
  }

  lemma {:induction false} GoodFrame(t: Tree, pos: Pos, st: States, st': States, x: map<string, Expr>, f: Frontier, ap: Applier)
    requires Good(t, pos, st, x, f, ap)
    requires forall q :: Agree(st, st', pos, q)
    ensures Good(t, pos, st', x, f, ap)
  {
    assert Agree(st, st', pos, pos);
    forall i | 0 <= i < |t.kids|
      ensures Good(t.kids[i], pos + [i], st', x, f, ap)
    {
      forall q
        ensures Agree(st, st', pos + [i], q)
      {
        assert Agree(st, st', pos, q);
      }
      GoodFrame(t.kids[i], pos + [i], st, st', x, f, ap);
    }
  }

  /** Working on one child leaves the others good. */
  lemma SiblingsStayGood(t: Tree, pos: Pos, i: nat, st: States, x: map<string, Expr>, f: Frontier, ap: Applier)
    requires i < |t.kids| && GoodKids(t, pos, st, x, f, ap)
    requires Good(t.kids[i], pos + [i], Reduce(t.kids[i], pos + [i], st, f, ap).st, x, f, ap)
    ensures GoodKids(t, pos, Reduce(t.kids[i], pos + [i], st, f, ap).st, x, f, ap)
  {
    hide Good, Reduce;
    var st' := Reduce(t.kids[i], pos + [i], st, f, ap).st;
    forall j | 0 <= j < |t.kids| && j != i
      ensures Good(t.kids[j], pos + [j], st', x, f, ap)
    {
      forall q
        ensures Agree(st, st', pos + [j], q)
      {
        if pos + [j] <= q {
          assert q[|pos|] == j;
          ReduceFrame(t.kids[i], pos + [i], st, f, ap, q);
        }
      }
      GoodFrame(t.kids[j], pos + [j], st, st', x, f, ap);
    }
  }

  /** A change to a node alone does not matter to its children. */
  lemma ParentChangeKeepsGood(t: Tree, pos: Pos, st: States, n: NodeState, x: map<string, Expr>, f: Frontier, ap: Applier)
    requires GoodKids(t, pos, st, x, f, ap)
    ensures GoodKids(t, pos, st[pos := n], x, f, ap)
  {
    hide Good;
    var st' := st[pos := n];
    forall j | 0 <= j < |t.kids|
      ensures Good(t.kids[j], pos + [j], st', x, f, ap)
    {
      forall q
        ensures Agree(st, st', pos + [j], q)
      {
        if pos + [j] <= q {
          assert q != pos;
        }
      }
      GoodFrame(t.kids[j], pos + [j], st, st', x, f, ap);
    }
  }

  lemma GoodParts(t: Tree, pos: Pos, st: States, x: map<string, Expr>, f: Frontier, ap: Applier)
    ensures Good(t, pos, st, x, f, ap) <==> GoodNode(t, Node(st, pos), x, f, ap) && GoodKids(t, pos, st, x, f, ap)
  {
  }

  /** A node just evaluated is good again, and one that failed is as good as before. */
  lemma StoredIsGood(t: Tree, pos: Pos, o: Out, n: NodeState, x: map<string, Expr>, f: Frontier, ap: Applier)
    requires GoodKids(t, pos, o.st, x, f, ap) && GoodNode(t, n, x, f, ap)
    requires n.expr == x[t.path] && Eval(t, x, ap) == o.res && Node(o.st, pos) == n
    ensures Good(t, pos, Stored(pos, n, o).st, x, f, ap)
  {
    hide Good, GoodKids, Eval;
    GoodParts(t, pos, o.st, x, f, ap);
    if o.res.Ok? {
      var k := n.(cached := o.res.value, dirty := false);
      ParentChangeKeepsGood(t, pos, o.st, k, x, f, ap);
      GoodParts(t, pos, o.st[pos := k], x, f, ap);
    }
  }

  /** A read of a good node answers what plain evaluation answers, failures included, and stays good. */
  lemma {:induction false} ReduceExact(t: Tree, pos: Pos, st: States, x: map<string, Expr>, f: Frontier, ap: Applier)
    requires Good(t, pos, st, x, f, ap)
    ensures Reduce(t, pos, st, f, ap).res == Eval(t, x, ap)
    ensures Good(t, pos, Reduce(t, pos, st, f, ap).st, x, f, ap)
    decreases t, |t.kids| + 3
  {
    hide Good, GoodKids, Compute, Eval;
    GoodParts(t, pos, st, x, f, ap);
    if Node(st, pos).dirty || Node(st, pos).cached == Nil {
      var n := Refreshed(Node(st, pos), t.path, f);
      ParentChangeKeepsGood(t, pos, st, n, x, f, ap);
      ComputeExact(t, pos, st[pos := n], x, f, ap);
      StoredIsGood(t, pos, Compute(t, pos, n.expr, st[pos := n], f, ap), n, x, f, ap);
    }
  }

  lemma {:induction false} ComputeExact(t: Tree, pos: Pos, st: States, x: map<string, Expr>, f: Frontier, ap: Applier)
    requires t.path in x && GoodKids(t, pos, st, x, f, ap)
    ensures var o := Compute(t, pos, x[t.path], st, f, ap);
            o.res == Eval(t, x, ap) && GoodKids(t, pos, o.st, x, f, ap) && Node(o.st, pos) == Node(st, pos)
    decreases t, |t.kids| + 2
  {
    hide GoodKids, Reduce, ReduceKids, EvalKids;
    match x[t.path]
    case EFieldAccess(_, _) =>
      if t.kids != [] { ReduceKidExact(t, pos, 0, st, x, f, ap); }
    case ECompose(_) =>
      ReduceKidsExact(t, pos, 0, map[], st, x, f, ap);
      ReduceKidsFrame(t, pos, 0, map[], st, f, ap, pos);
    case EApply(_, _) =>
      if |t.kids| >= 2 {
        ReduceKidExact(t, pos, 0, st, x, f, ap);
        ReduceKidExact(t, pos, 1, Reduce(t.kids[0], pos + [0], st, f, ap).st, x, f, ap);
      }
    case _ =>
  }

  lemma {:induction false} ReduceKidExact(t: Tree, pos: Pos, i: nat, st: States, x: map<string, Expr>, f: Frontier, ap: Applier)
    requires i < |t.kids| && GoodKids(t, pos, st, x, f, ap)
    ensures var o := Reduce(t.kids[i], pos + [i], st, f, ap);
            o.res == Eval(t.kids[i], x, ap) && GoodKids(t, pos, o.st, x, f, ap) && Node(o.st, pos) == Node(st, pos)
    decreases t, 0
  {
    hide Good;
    ReduceExact(t.kids[i], pos + [i], st, x, f, ap);
    SiblingsStayGood(t, pos, i, st, x, f, ap);
    ReduceFrame(t.kids[i], pos + [i], st, f, ap, pos);
  }

  lemma {:induction false} ReduceKidsExact(t: Tree, pos: Pos, i: nat, rec: map<string, Value>, st: States,
                                           x: map<string, Expr>, f: Frontier, ap: Applier)
    requires i <= |t.kids| && GoodKids(t, pos, st, x, f, ap)
    ensures ReduceKids(t, pos, i, rec, st, f, ap).res == EvalKids(t, i, rec, x, ap)
    ensures GoodKids(t, pos, ReduceKids(t, pos, i, rec, st, f, ap).st, x, f, ap)
    decreases t, |t.kids| - i + 1
  {
    hide GoodKids, Reduce, Eval;
    if i < |t.kids| {
      var o := Reduce(t.kids[i], pos + [i], st, f, ap);
      ReduceKidExact(t, pos, i, st, x, f, ap);
      if o.res.Ok? {
        ReduceKidsExact(t, pos, i + 1, rec[t.kids[i].path := o.res.value], o.st, x, f, ap);
      }
    }
  }
}
