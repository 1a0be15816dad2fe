/** What `reduceDirty` leaves behind and what it costs (internal/engine/incremental.go, reduceDirty). */
module ProofWork {
  import opened Core
  import opened ProofSpec

  predicate AllClean(t: Tree, pos: Pos, st: States) {
    !Node(st, pos).dirty && forall i :: 0 <= i < |t.kids| ==> AllClean(t.kids[i], pos + [i], st)
  }

  predicate KidsClean(t: Tree, pos: Pos, st: States) {
    forall i :: 0 <= i < |t.kids| ==> AllClean(t.kids[i], pos + [i], st)
  }

  /** How many children `reduceDirty` enters from a node holding `e`. */
  function Fanout(e: Expr, kids: nat): nat {
    match e
    case EFieldAccess(_, _) => if kids >= 1 then 1 else 0
    case ECompose(_) => kids
    case EApply(_, _) => if kids >= 2 then 2 else 0
    case _ => 0
  }

  /** `reduceDirty` enters child `i` of a node that is to be evaluated. */
  predicate Enters(t: Tree, i: nat, x: map<string, Expr>) {
    t.path in x && i < Fanout(x[t.path], |t.kids|)
  }

  /** Dirty nodes lie below dirty nodes that enter them, so `reduceDirty` comes to every one of them. */
  predicate Ripe(t: Tree, pos: Pos, st: States, x: map<string, Expr>) {
    forall i :: 0 <= i < |t.kids| ==>
      && (AllClean(t.kids[i], pos + [i], st) || (Node(st, pos).dirty && Enters(t, i, x)))
      && Ripe(t.kids[i], pos + [i], st, x)
  }

  /** Clean nodes hold a value. */
  predicate Warm(t: Tree, pos: Pos, st: States) {
    && (Node(st, pos).dirty || Node(st, pos).cached != Nil)
    && forall i :: 0 <= i < |t.kids| ==> Warm(t.kids[i], pos + [i], st)
  }

  // ---------------------------------------------------------------- counting

  /** The number of dirty nodes. */
  function Dirt(t: Tree, pos: Pos, st: States): nat
    decreases t
  {
    (if Node(st, pos).dirty then 1 else 0) + DirtFrom(t, pos, 0, st)
  }

  function DirtFrom(t: Tree, pos: Pos, i: nat, st: States): nat
    requires i <= |t.kids|
    decreases t, |t.kids| - i
  {
    if i == |t.kids| then 0 else Dirt(t.kids[i], pos + [i], st) + DirtFrom(t, pos, i + 1, st)
  }

  /** The number of children entered from dirty nodes. */
  function Calls(t: Tree, pos: Pos, st: States, x: map<string, Expr>): nat
    decreases t
  {
    (if Node(st, pos).dirty && t.path in x then Fanout(x[t.path], |t.kids|) else 0) + CallsFrom(t, pos, 0, st, x)
  }

  function CallsFrom(t: Tree, pos: Pos, i: nat, st: States, x: map<string, Expr>): nat
    requires i <= |t.kids|
    decreases t, |t.kids| - i
  {
    if i == |t.kids| then 0 else Calls(t.kids[i], pos + [i], st, x) + CallsFrom(t, pos, i + 1, st, x)
  }

  lemma {:induction false} CleanCountsNothing(t: Tree, pos: Pos, i: nat, st: States, x: map<string, Expr>)
    requires i <= |t.kids| && forall j :: i <= j < |t.kids| ==> AllClean(t.kids[j], pos + [j], st)
    ensures DirtFrom(t, pos, i, st) == 0 && CallsFrom(t, pos, i, st, x) == 0
    decreases t, |t.kids| - i
  {
    if i < |t.kids| {
      CleanCountsNothing(t.kids[i], pos + [i], 0, st, x);
      CleanCountsNothing(t, pos, i + 1, st, x);
    }
  }

  // ---------------------------------------------------------------- framing

  /** All that the counting of a subtree looks at. */
  predicate SameUnder(t: Tree, pos: Pos, st: States, st': States) {
    Node(st, pos) == Node(st', pos) && forall i :: 0 <= i < |t.kids| ==> SameUnder(t.kids[i], pos + [i], st, st')
  }

  lemma {:induction false} AgreeIsSame(t: Tree, pos: Pos, st: States, st': States)
    requires forall q :: Agree(st, st', pos, q)
    ensures SameUnder(t, pos, st, st')
  {
    assert Agree(st, st', pos, pos);
    forall i | 0 <= i < |t.kids|
      ensures SameUnder(t.kids[i], pos + [i], st, st')
    {
      forall q
        ensures Agree(st, st', pos + [i], q)
      {
        assert Agree(st, st', pos, q);
      }
      AgreeIsSame(t.kids[i], pos + [i], st, st');
    }
  }

  lemma {:induction false} CleanFrame(t: Tree, pos: Pos, st: States, st': States)
    requires SameUnder(t, pos, st, st') && AllClean(t, pos, st)
    ensures AllClean(t, pos, st')
  {
    forall i | 0 <= i < |t.kids|
      ensures AllClean(t.kids[i], pos + [i], st')
    {
      CleanFrame(t.kids[i], pos + [i], st, st');
    }
  }

  lemma {:induction false} RipeFrame(t: Tree, pos: Pos, st: States, st': States, x: map<string, Expr>)
    requires SameUnder(t, pos, st, st') && Ripe(t, pos, st, x)
    ensures Ripe(t, pos, st', x)
  {
    forall i | 0 <= i < |t.kids|
      ensures Ripe(t.kids[i], pos + [i], st', x)
      ensures AllClean(t.kids[i], pos + [i], st) ==> AllClean(t.kids[i], pos + [i], st')
    {
      RipeFrame(t.kids[i], pos + [i], st, st', x);
      if AllClean(t.kids[i], pos + [i], st) {
        CleanFrame(t.kids[i], pos + [i], st, st');
      }
    }
  }

  lemma {:induction false} WarmFrame(t: Tree, pos: Pos, st: States, st': States)
    requires SameUnder(t, pos, st, st') && Warm(t, pos, st)
    ensures Warm(t, pos, st')
  {
    forall i | 0 <= i < |t.kids|
      ensures Warm(t.kids[i], pos + [i], st')
    {
      WarmFrame(t.kids[i], pos + [i], st, st');
    }
  }

  lemma {:induction false} CountFrame(t: Tree, pos: Pos, i: nat, st: States, st': States, x: map<string, Expr>)
    requires i <= |t.kids|
    requires forall j :: i <= j < |t.kids| ==> SameUnder(t.kids[j], pos + [j], st, st')
    ensures DirtFrom(t, pos, i, st) == DirtFrom(t, pos, i, st')
    ensures CallsFrom(t, pos, i, st, x) == CallsFrom(t, pos, i, st', x)
    decreases t, |t.kids| - i
  {
    hide Dirt, Calls, SameUnder;
    if i < |t.kids| {
      SubtreeFrame(t.kids[i], pos + [i], st, st', x);
      CountFrame(t, pos, i + 1, st, st', x);
    }
  }

  lemma {:induction false} SubtreeFrame(t: Tree, pos: Pos, st: States, st': States, x: map<string, Expr>)
    requires SameUnder(t, pos, st, st')
    ensures Dirt(t, pos, st) == Dirt(t, pos, st') && Calls(t, pos, st, x) == Calls(t, pos, st', x)
    decreases t, |t.kids| + 1
  {
    hide DirtFrom, CallsFrom;
    CountFrame(t, pos, 0, st, st', x);
  }

  lemma ParentChangeUnder(t: Tree, pos: Pos, st: States, n: NodeState)
    ensures forall j :: 0 <= j < |t.kids| ==> SameUnder(t.kids[j], pos + [j], st, st[pos := n])
  {
    var st' := st[pos := n];
    forall j | 0 <= j < |t.kids|
      ensures SameUnder(t.kids[j], pos + [j], st, st')
    {
      forall q
        ensures Agree(st, st', pos + [j], q)
      {
        if pos + [j] <= q {
          assert q != pos;
        }
      }
      AgreeIsSame(t.kids[j], pos + [j], st, st');
    }
  }

  lemma SiblingUnder(t: Tree, pos: Pos, i: nat, j: nat, st: States, f: Frontier, ap: Applier)
    requires i < |t.kids| && j < |t.kids| && i != j
    ensures SameUnder(t.kids[j], pos + [j], st, Reduce(t.kids[i], pos + [i], st, f, ap).st)
  {
    hide Reduce;
    var st' := Reduce(t.kids[i], pos + [i], st, f, ap).st;
    forall q
      ensures Agree(st, st', pos + [j], q)
    {
      if pos + [j] <= q {
        assert q[|pos|] == j;
        ReduceFrame(t.kids[i], pos + [i], st, f, ap, q);
      }
    }
    AgreeIsSame(t.kids[j], pos + [j], st, st');
  }

  // ---------------------------------------------------------------- nothing becomes dirty

  lemma {:induction false} NeverDirties(t: Tree, pos: Pos, st: States, f: Frontier, ap: Applier, q: Pos)
    ensures Node(Reduce(t, pos, st, f, ap).st, q).dirty ==> Node(st, q).dirty
    decreases t, |t.kids| + 2
  {
    hide Compute;
    var n := Refreshed(Node(st, pos), t.path, f);
    ComputeNeverDirties(t, pos, n.expr, st[pos := n], f, ap, q);
  }

  lemma {:induction false} ComputeNeverDirties(t: Tree, pos: Pos, e: Expr, st: States, f: Frontier, ap: Applier, q: Pos)
    ensures Node(Compute(t, pos, e, st, f, ap).st, q).dirty ==> Node(st, q).dirty
    decreases t, |t.kids| + 1
  {
    hide Reduce, ReduceKids;
    match e
    case EFieldAccess(_, _) =>
      if t.kids != [] { NeverDirties(t.kids[0], pos + [0], st, f, ap, q); }
    case ECompose(_) => KidsNeverDirty(t, pos, 0, map[], st, f, ap, q);
    case EApply(_, _) =>
      if |t.kids| >= 2 {
        NeverDirties(t.kids[0], pos + [0], st, f, ap, q);
        NeverDirties(t.kids[1], pos + [1], Reduce(t.kids[0], pos + [0], st, f, ap).st, f, ap, q);
      }
    case _ =>
  }

  lemma {:induction false} KidsNeverDirty(t: Tree, pos: Pos, i: nat, rec: map<string, Value>, st: States,
                                          f: Frontier, ap: Applier, q: Pos)
    requires i <= |t.kids|
    ensures Node(ReduceKids(t, pos, i, rec, st, f, ap).st, q).dirty ==> Node(st, q).dirty
    decreases t, |t.kids| - i
  {
    hide Reduce;
    if i < |t.kids| {
      var o := Reduce(t.kids[i], pos + [i], st, f, ap);
      NeverDirties(t.kids[i], pos + [i], st, f, ap, q);
      if o.res.Ok? {
        KidsNeverDirty(t, pos, i + 1, rec[t.kids[i].path := o.res.value], o.st, f, ap, q);
      }
    }
  }

  lemma {:induction false} CleanStays(t: Tree, pos: Pos, st: States, st': States)
    requires AllClean(t, pos, st)
    requires forall q :: Node(st', q).dirty ==> Node(st, q).dirty
    ensures AllClean(t, pos, st')
  {
    forall i | 0 <= i < |t.kids|
      ensures AllClean(t.kids[i], pos + [i], st')
    {
      CleanStays(t.kids[i], pos + [i], st, st');
    }
  }

  // ---------------------------------------------------------------- the main lemma

  predicate WorkDone(t: Tree, pos: Pos, st: States, x: map<string, Expr>, o: Out) {
    && AllClean(t, pos, o.st)
    && (Warm(t, pos, st) ==>
          && o.misses == Dirt(t, pos, st)
          && o.hits + o.misses == 1 + Calls(t, pos, st, x))
  }

  /** The children before `i` are done; the others are due, or clean if they are not among the first `k`. */
  predicate Pending(t: Tree, pos: Pos, i: nat, k: nat, st: States, x: map<string, Expr>) {
    && (forall j :: 0 <= j < i && j < |t.kids| ==> AllClean(t.kids[j], pos + [j], st))
    && (forall j :: i <= j < |t.kids| ==> Ripe(t.kids[j], pos + [j], st, x))
    && (forall j :: k <= j < |t.kids| ==> AllClean(t.kids[j], pos + [j], st))
  }

  predicate WarmFrom(t: Tree, pos: Pos, i: nat, st: States) {
    forall j :: i <= j < |t.kids| ==> Warm(t.kids[j], pos + [j], st)
  }

  /** The work on the children from `i` on, when `calls` of them are entered. */
  predicate KidsWorkDone(t: Tree, pos: Pos, i: nat, calls: nat, st: States, x: map<string, Expr>, o: Out)
    requires i <= |t.kids|
  {
    && KidsClean(t, pos, o.st)
    && (WarmFrom(t, pos, i, st) ==>
          && o.misses == DirtFrom(t, pos, i, st)
          && o.hits + o.misses == calls + CallsFrom(t, pos, i, st, x))
  }

  /**
   A successful `reduceDirty` leaves no dirty node. If the clean nodes hold values it misses once
   per dirty node, and the root and the children entered from dirty nodes account for all its calls.
   */
  lemma {:induction false} ReduceWork(t: Tree, pos: Pos, st: States, x: map<string, Expr>, f: Frontier, ap: Applier)
    requires Good(t, pos, st, x, f, ap) && Ripe(t, pos, st, x)
    requires Reduce(t, pos, st, f, ap).res.Ok?
    ensures WorkDone(t, pos, st, x, Reduce(t, pos, st, f, ap))
    decreases t, |t.kids| + 3
  {
    hide Good, GoodKids, Compute;
    GoodParts(t, pos, st, x, f, ap);
    if !Node(st, pos).dirty && Node(st, pos).cached != Nil {
      CleanCountsNothing(t, pos, 0, st, x);
    } else {
      var n := Refreshed(Node(st, pos), t.path, f);
      var st1 := st[pos := n];
      ParentChangeUnder(t, pos, st, n);
      ParentChangeKeepsGood(t, pos, st, n, x, f, ap);
      PendingFrame(t, pos, st, st1, x);
      CountFrame(t, pos, 0, st, st1, x);
      ComputeWork(t, pos, st1, x, f, ap);
      var o := Compute(t, pos, n.expr, st1, f, ap);
      StoredIsClean(t, pos, o, n);
    }
  }

  lemma StoredIsClean(t: Tree, pos: Pos, o: Out, n: NodeState)
    requires KidsClean(t, pos, o.st) && o.res.Ok?
    ensures AllClean(t, pos, Stored(pos, n, o).st)
  {
    var k := n.(cached := o.res.value, dirty := false);
    ParentChangeUnder(t, pos, o.st, k);
    forall j | 0 <= j < |t.kids|
      ensures AllClean(t.kids[j], pos + [j], o.st[pos := k])
    {
      CleanFrame(t.kids[j], pos + [j], o.st, o.st[pos := k]);
    }
  }

  /** Before a node is evaluated all its children are due. */
  lemma PendingFrame(t: Tree, pos: Pos, st: States, st': States, x: map<string, Expr>)
    requires Ripe(t, pos, st, x) && t.path in x
    requires forall j :: 0 <= j < |t.kids| ==> SameUnder(t.kids[j], pos + [j], st, st')
    ensures Pending(t, pos, 0, Fanout(x[t.path], |t.kids|), st', x)
    ensures WarmFrom(t, pos, 0, st) ==> WarmFrom(t, pos, 0, st')
  {
    hide SameUnder, Warm, AllClean;
    forall j | 0 <= j < |t.kids|
      ensures Ripe(t.kids[j], pos + [j], st', x)
      ensures Fanout(x[t.path], |t.kids|) <= j ==> AllClean(t.kids[j], pos + [j], st')
      ensures Warm(t.kids[j], pos + [j], st) ==> Warm(t.kids[j], pos + [j], st')
    {
      RipeFrame(t.kids[j], pos + [j], st, st', x);
      if Warm(t.kids[j], pos + [j], st) { WarmFrame(t.kids[j], pos + [j], st, st'); }
      if AllClean(t.kids[j], pos + [j], st) { CleanFrame(t.kids[j], pos + [j], st, st'); }
    }
  }

  lemma {:induction false} ComputeWork(t: Tree, pos: Pos, st: States, x: map<string, Expr>, f: Frontier, ap: Applier)
    requires t.path in x && GoodKids(t, pos, st, x, f, ap)
    requires Pending(t, pos, 0, Fanout(x[t.path], |t.kids|), st, x)
    requires Compute(t, pos, x[t.path], st, f, ap).res.Ok?
    ensures KidsWorkDone(t, pos, 0, Fanout(x[t.path], |t.kids|), st, x, Compute(t, pos, x[t.path], st, f, ap))
    decreases t, |t.kids| + 2
  {
    hide Reduce, ReduceKids, Pending, GoodKids, DirtFrom, CallsFrom, WarmFrom, KidsClean;
    var k := Fanout(x[t.path], |t.kids|);
    match x[t.path]
    case ECompose(_) => KidsWork(t, pos, 0, map[], st, x, f, ap);
    case EFieldAccess(_, _) =>
      KidWork(t, pos, 0, k, st, x, f, ap);
      Finished(t, pos, 1, 1, Reduce(t.kids[0], pos + [0], st, f, ap).st, x);
    case EApply(_, _) =>
      PairWork(t, pos, st, x, f, ap);
    case EConst(_) => Finished(t, pos, 0, 0, st, x);
    case EOpaque(_) =>
  }

  /** The work on a function and its argument. */
  lemma {:induction false} PairWork(t: Tree, pos: Pos, st: States, x: map<string, Expr>, f: Frontier, ap: Applier)
    requires 2 <= |t.kids| && GoodKids(t, pos, st, x, f, ap) && Pending(t, pos, 0, 2, st, x)
    requires var o := Reduce(t.kids[0], pos + [0], st, f, ap); o.res.Ok? && Reduce(t.kids[1], pos + [1], o.st, f, ap).res.Ok?
    ensures var o := Reduce(t.kids[0], pos + [0], st, f, ap);
            KidsWorkDone(t, pos, 0, 2, st, x, Plus(o, Reduce(t.kids[1], pos + [1], o.st, f, ap)))
    decreases t, 2
  {
    hide Reduce, Pending, GoodKids, DirtFrom, CallsFrom, WarmFrom, KidsClean;
    KidWork(t, pos, 0, 2, st, x, f, ap);
    var o := Reduce(t.kids[0], pos + [0], st, f, ap);
    KidWork(t, pos, 1, 2, o.st, x, f, ap);
    Finished(t, pos, 2, 2, Reduce(t.kids[1], pos + [1], o.st, f, ap).st, x);
  }

  /** Once the first `k` children are done nothing is left to do or to count. */
  lemma Finished(t: Tree, pos: Pos, i: nat, k: nat, st: States, x: map<string, Expr>)
    requires k <= i <= |t.kids| && Pending(t, pos, i, k, st, x)
    ensures KidsClean(t, pos, st) && DirtFrom(t, pos, i, st) == 0 && CallsFrom(t, pos, i, st, x) == 0
  {
    hide AllClean, Ripe;
    CleanCountsNothing(t, pos, i, st, x);
  }

  /** The work on child `i` alone. */
  lemma {:induction false} KidWork(t: Tree, pos: Pos, i: nat, k: nat, st: States, x: map<string, Expr>, f: Frontier, ap: Applier)
    requires i < |t.kids| && i < k && GoodKids(t, pos, st, x, f, ap) && Pending(t, pos, i, k, st, x)
    requires Reduce(t.kids[i], pos + [i], st, f, ap).res.Ok?
    ensures var o := Reduce(t.kids[i], pos + [i], st, f, ap);
            && GoodKids(t, pos, o.st, x, f, ap) && Pending(t, pos, i + 1, k, o.st, x)
            && DirtFrom(t, pos, i + 1, st) == DirtFrom(t, pos, i + 1, o.st)
            && CallsFrom(t, pos, i + 1, st, x) == CallsFrom(t, pos, i + 1, o.st, x)
            && (WarmFrom(t, pos, i, st) ==>
                  && WarmFrom(t, pos, i + 1, o.st)
                  && o.misses + DirtFrom(t, pos, i + 1, st) == DirtFrom(t, pos, i, st)
                  && o.hits + o.misses + CallsFrom(t, pos, i + 1, st, x) == 1 + CallsFrom(t, pos, i, st, x))
    decreases t, 1
  {
    hide Good, Reduce, Ripe, Warm, AllClean, Dirt, Calls, SameUnder;
    assert Good(t.kids[i], pos + [i], st, x, f, ap);
    ReduceWork(t.kids[i], pos + [i], st, x, f, ap);
    ReduceKidExact(t, pos, i, st, x, f, ap);
    OthersUnchanged(t, pos, i, k, st, x, f, ap);
  }

  /** Working on child `i` leaves the others as they were. */
  lemma OthersUnchanged(t: Tree, pos: Pos, i: nat, k: nat, st: States, x: map<string, Expr>, f: Frontier, ap: Applier)
    requires i < |t.kids| && i < k && Pending(t, pos, i, k, st, x)
    requires AllClean(t.kids[i], pos + [i], Reduce(t.kids[i], pos + [i], st, f, ap).st)
    ensures var st' := Reduce(t.kids[i], pos + [i], st, f, ap).st;
            && Pending(t, pos, i + 1, k, st', x)
            && (WarmFrom(t, pos, i + 1, st) ==> WarmFrom(t, pos, i + 1, st'))
            && DirtFrom(t, pos, i + 1, st) == DirtFrom(t, pos, i + 1, st')
            && CallsFrom(t, pos, i + 1, st, x) == CallsFrom(t, pos, i + 1, st', x)
  {
    hide Reduce, Ripe, Warm, AllClean, DirtFrom, CallsFrom, SameUnder;
    var st' := Reduce(t.kids[i], pos + [i], st, f, ap).st;
    forall j | 0 <= j < |t.kids| && j != i
      ensures SameUnder(t.kids[j], pos + [j], st, st')
      ensures AllClean(t.kids[j], pos + [j], st) ==> AllClean(t.kids[j], pos + [j], st')
      ensures Warm(t.kids[j], pos + [j], st) ==> Warm(t.kids[j], pos + [j], st')
      ensures Ripe(t.kids[j], pos + [j], st, x) ==> Ripe(t.kids[j], pos + [j], st', x)
    {
      SiblingUnder(t, pos, i, j, st, f, ap);
      if AllClean(t.kids[j], pos + [j], st) { CleanFrame(t.kids[j], pos + [j], st, st'); }
      if Warm(t.kids[j], pos + [j], st) { WarmFrame(t.kids[j], pos + [j], st, st'); }
      if Ripe(t.kids[j], pos + [j], st, x) { RipeFrame(t.kids[j], pos + [j], st, st', x); }
    }
    CountFrame(t, pos, i + 1, st, st', x);
  }

  lemma {:induction false} KidsWork(t: Tree, pos: Pos, i: nat, rec: map<string, Value>, st: States,
                                    x: map<string, Expr>, f: Frontier, ap: Applier)
    requires i <= |t.kids| && GoodKids(t, pos, st, x, f, ap) && Pending(t, pos, i, |t.kids|, st, x)
    requires ReduceKids(t, pos, i, rec, st, f, ap).res.Ok?
    ensures KidsWorkDone(t, pos, i, |t.kids| - i, st, x, ReduceKids(t, pos, i, rec, st, f, ap))
    decreases t, 2, |t.kids| - i
  {
    hide GoodKids, Reduce, Pending, Dirt, Calls, WarmFrom, KidsClean;
    if i < |t.kids| {
      var o := Reduce(t.kids[i], pos + [i], st, f, ap);
      KidWork(t, pos, i, |t.kids|, st, x, f, ap);
      KidsWork(t, pos, i + 1, rec[t.kids[i].path := o.res.value], o.st, x, f, ap);
    } else {
      Finished(t, pos, i, i, st, x);
    }
  }
}
