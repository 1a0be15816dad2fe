/**
 What a node of a proof answers as it stands, and what `reduceDirty` does to it (internal/engine/incremental.go): every
 node is visited once or left alone.
 */
module HeldValues {
  import opened Core
  import opened ProofSpec
  import opened ProofReads
  import opened ProofWork

  /** What the node at `pos` answers if nothing below it has changed: its value, or what the nodes below make of it. */
  function Held(t: Tree, pos: Pos, st: States, ap: Applier): Outcome {
    Reduce(t, pos, Cleared(st), map[], ap).res
  }

  // ---------------------------------------------------------------- framing

  lemma {:induction false} SameTrans(t: Tree, pos: Pos, st: States, st': States, st'': States)
    requires SameUnder(t, pos, st, st') && SameUnder(t, pos, st', st'')
    ensures SameUnder(t, pos, st, st'')
  {
    forall i | 0 <= i < |t.kids| ensures SameUnder(t.kids[i], pos + [i], st, st'') {
      SameTrans(t.kids[i], pos + [i], st, st', st'');
    }
  }

  lemma {:induction false} SameBack(t: Tree, pos: Pos, st: States, st': States)
    requires SameUnder(t, pos, st, st')
    ensures SameUnder(t, pos, st', st)
  {
    forall i | 0 <= i < |t.kids| ensures SameUnder(t.kids[i], pos + [i], st', st) {
      SameBack(t.kids[i], pos + [i], st, st');
    }
  }

  lemma SameSelf(t: Tree, pos: Pos, st: States)
    ensures SameUnder(t, pos, st, st)
  {
    AgreeIsSame(t, pos, st, st);
  }

  lemma {:induction false} SameInside(t: Tree, pos: Pos, st: States, st': States, q: Pos)
    requires SameUnder(t, pos, st, st') && InTree(t, q)
    ensures SameUnder(Sub(t, q), pos + q, st, st')
  {
    if q == [] {
      assert pos + q == pos;
    } else {
      SameInside(t.kids[q[0]], pos + [q[0]], st, st', q[1..]);
      assert pos + [q[0]] + q[1..] == pos + q;
    }
  }

  lemma {:induction false} ClearedSame(t: Tree, pos: Pos, st: States, st': States)
    requires SameUnder(t, pos, st, st')
    ensures SameUnder(t, pos, Cleared(st), Cleared(st'))
  {
    forall i | 0 <= i < |t.kids| ensures SameUnder(t.kids[i], pos + [i], Cleared(st), Cleared(st')) {
      ClearedSame(t.kids[i], pos + [i], st, st');
    }
  }

  lemma {:induction false} ClearedIsClean(t: Tree, pos: Pos, st: States)
    ensures AllClean(t, pos, Cleared(st))
    ensures AllClean(t, pos, st) ==> SameUnder(t, pos, st, Cleared(st))
  {
    forall i | 0 <= i < |t.kids|
      ensures AllClean(t.kids[i], pos + [i], Cleared(st))
      ensures AllClean(t.kids[i], pos + [i], st) ==> SameUnder(t.kids[i], pos + [i], st, Cleared(st))
    {
      ClearedIsClean(t.kids[i], pos + [i], st);
    }
  }

  // ---------------------------------------------------------------- clean nodes do not look at the frontier

  /** The children from `i` on are clean in `st` and the same in `st'`. */
  predicate CleanAlike(t: Tree, pos: Pos, i: nat, st: States, st': States) {
    forall j :: i <= j < |t.kids| ==> SameUnder(t.kids[j], pos + [j], st, st') && AllClean(t.kids[j], pos + [j], st)
  }

  lemma CleanAlikeAfter(t: Tree, pos: Pos, i: nat, st: States, st': States, f: Frontier, f': Frontier, ap: Applier)
    requires i < |t.kids| && CleanAlike(t, pos, i, st, st')
    ensures CleanAlike(t, pos, i + 1, Reduce(t.kids[i], pos + [i], st, f, ap).st, Reduce(t.kids[i], pos + [i], st', f', ap).st)
  {
    hide Reduce, SameUnder, AllClean;
    var s, s' := Reduce(t.kids[i], pos + [i], st, f, ap).st, Reduce(t.kids[i], pos + [i], st', f', ap).st;
    forall j | i + 1 <= j < |t.kids|
      ensures SameUnder(t.kids[j], pos + [j], s, s') && AllClean(t.kids[j], pos + [j], s)
    {
      SiblingUnder(t, pos, i, j, st, f, ap);
      SiblingUnder(t, pos, i, j, st', f', ap);
      CleanFrame(t.kids[j], pos + [j], st, s);
      SameBack(t.kids[j], pos + [j], st, s);
      SameTrans(t.kids[j], pos + [j], s, st, st');
      SameTrans(t.kids[j], pos + [j], s, st', s');
    }
  }

  lemma {:induction false} ReduceClean(t: Tree, pos: Pos, st: States, st': States, f: Frontier, f': Frontier, ap: Applier)
    requires SameUnder(t, pos, st, st') && AllClean(t, pos, st)
    ensures Reduce(t, pos, st, f, ap).res == Reduce(t, pos, st', f', ap).res
    decreases t, |t.kids| + 2
  {
    hide Compute;
    var n := Node(st, pos);
    if n.cached == Nil {
      var s, s' := st[pos := n], st'[pos := n];
      ParentChangeUnder(t, pos, st, n);
      ParentChangeUnder(t, pos, st', n);
      forall j | 0 <= j < |t.kids| ensures SameUnder(t.kids[j], pos + [j], s, s') && AllClean(t.kids[j], pos + [j], s) {
        CleanFrame(t.kids[j], pos + [j], st, s);
        SameBack(t.kids[j], pos + [j], st, s);
        SameTrans(t.kids[j], pos + [j], s, st, st');
        SameTrans(t.kids[j], pos + [j], s, st', s');
      }
      ComputeClean(t, pos, n.expr, s, s', f, f', ap);
    }
  }

  lemma {:induction false} ComputeClean(t: Tree, pos: Pos, e: Expr, st: States, st': States, f: Frontier, f': Frontier, ap: Applier)
    requires CleanAlike(t, pos, 0, st, st')
    ensures Compute(t, pos, e, st, f, ap).res == Compute(t, pos, e, st', f', ap).res
    decreases t, |t.kids| + 1
  {
    hide Reduce, ReduceKids, CleanAlike;
    match e
    case EFieldAccess(_, _) =>
      if t.kids != [] { KidClean(t, pos, 0, st, st', f, f', ap); }
    case ECompose(_) => KidsReduceClean(t, pos, 0, map[], st, st', f, f', ap);
    case EApply(_, _) =>
      if |t.kids| >= 2 {
        KidClean(t, pos, 0, st, st', f, f', ap);
        KidClean(t, pos, 1, Reduce(t.kids[0], pos + [0], st, f, ap).st, Reduce(t.kids[0], pos + [0], st', f', ap).st, f, f', ap);
      }
    case _ =>
  }

  lemma {:induction false} KidClean(t: Tree, pos: Pos, i: nat, st: States, st': States, f: Frontier, f': Frontier, ap: Applier)
    requires i < |t.kids| && CleanAlike(t, pos, i, st, st')
    ensures var o, o' := Reduce(t.kids[i], pos + [i], st, f, ap), Reduce(t.kids[i], pos + [i], st', f', ap);
            o.res == o'.res && CleanAlike(t, pos, i + 1, o.st, o'.st)
    decreases t, 0
  {
    hide Reduce;
    ReduceClean(t.kids[i], pos + [i], st, st', f, f', ap);
    CleanAlikeAfter(t, pos, i, st, st', f, f', ap);
  }

  lemma {:induction false} KidsReduceClean(t: Tree, pos: Pos, i: nat, rec: map<string, Value>, st: States, st': States,
                                           f: Frontier, f': Frontier, ap: Applier)
    requires i <= |t.kids| && CleanAlike(t, pos, i, st, st')
    ensures ReduceKids(t, pos, i, rec, st, f, ap).res == ReduceKids(t, pos, i, rec, st', f', ap).res
    decreases t, 1, |t.kids| - i
  {
    hide Reduce, CleanAlike;
    if i < |t.kids| {
      KidClean(t, pos, i, st, st', f, f', ap);
      var o, o' := Reduce(t.kids[i], pos + [i], st, f, ap), Reduce(t.kids[i], pos + [i], st', f', ap);
      if o.res.Ok? {
        KidsReduceClean(t, pos, i + 1, rec[t.kids[i].path := o.res.value], o.st, o'.st, f, f', ap);
      }
    }
  }

  /** A clean subtree answers what its root holds, at every frontier. */
  lemma HeldIsAnswered(t: Tree, pos: Pos, st: States, f: Frontier, ap: Applier)
    requires AllClean(t, pos, st)
    ensures Reduce(t, pos, st, f, ap).res == Held(t, pos, st, ap)
  {
    hide Reduce;
    ClearedIsClean(t, pos, st);
    ReduceClean(t, pos, st, Cleared(st), f, map[], ap);
  }

  lemma HeldSame(t: Tree, pos: Pos, st: States, st': States, ap: Applier)
    requires SameUnder(t, pos, st, st')
    ensures Held(t, pos, st, ap) == Held(t, pos, st', ap)
  {
    hide Reduce;
    ClearedSame(t, pos, st, st');
    ClearedIsClean(t, pos, st);
    ReduceClean(t, pos, Cleared(st), Cleared(st'), map[], map[], ap);
  }

  // ---------------------------------------------------------------- a node just reduced holds what it answered

  /** From child `i` on, `st'` has what `st` has, with the dirty flags cleared. */
  predicate ClearedAlike(t: Tree, pos: Pos, i: nat, st: States, st': States) {
    forall j :: i <= j < |t.kids| ==> SameUnder(t.kids[j], pos + [j], Cleared(st), st')
  }

  predicate CleanFrom(t: Tree, pos: Pos, i: nat, st: States) {
    forall j :: i <= j < |t.kids| ==> AllClean(t.kids[j], pos + [j], st)
  }

  lemma {:induction false} Again(t: Tree, pos: Pos, st: States, f: Frontier, st': States, f': Frontier, ap: Applier)
    requires var o := Reduce(t, pos, st, f, ap);
             SameUnder(t, pos, Cleared(o.st), st') && (o.res.Ok? || AllClean(t, pos, st))
    ensures Reduce(t, pos, st', f', ap).res == Reduce(t, pos, st, f, ap).res
    decreases t, |t.kids| + 2
  {
    hide Compute;
    var o := Reduce(t, pos, st, f, ap);
    var n' := Node(st', pos);
    assert n' == Node(o.st, pos).(dirty := false);
    if Node(st, pos).dirty || Node(st, pos).cached == Nil {
      var n := Refreshed(Node(st, pos), t.path, f);
      var s, s' := st[pos := n], st'[pos := n'];
      var c := Compute(t, pos, n.expr, s, f, ap);
      SelfKept(t, pos, n.expr, s, f, ap);
      if n'.cached == Nil {
        StoredKids(t, pos, n, c);
        AgainKidsBelow(t, pos, o, c, st', n');
        if AllClean(t, pos, st) { CleanBelow(t, pos, st, n); }
        AgainCompute(t, pos, n.expr, s, f, s', f', ap);
      }
    }
  }

  lemma SelfKept(t: Tree, pos: Pos, e: Expr, st: States, f: Frontier, ap: Applier)
    ensures Node(Compute(t, pos, e, st, f, ap).st, pos) == Node(st, pos)
  {
    hide Compute;
    ComputeFrame(t, pos, e, st, f, ap, pos);
  }

  lemma StoredKids(t: Tree, pos: Pos, n: NodeState, c: Out)
    ensures forall j :: 0 <= j < |t.kids| ==> SameUnder(t.kids[j], pos + [j], c.st, Stored(pos, n, c).st)
  {
    hide SameUnder;
    if c.res.Ok? {
      ParentChangeUnder(t, pos, c.st, n.(cached := c.res.value, dirty := false));
    } else {
      forall j | 0 <= j < |t.kids| ensures SameUnder(t.kids[j], pos + [j], c.st, c.st) { SameSelf(t.kids[j], pos + [j], c.st); }
    }
  }

  lemma AgainKidsBelow(t: Tree, pos: Pos, o: Out, c: Out, st': States, n': NodeState)
    requires SameUnder(t, pos, Cleared(o.st), st')
    requires forall j :: 0 <= j < |t.kids| ==> SameUnder(t.kids[j], pos + [j], c.st, o.st)
    ensures ClearedAlike(t, pos, 0, c.st, st'[pos := n'])
  {
    ParentChangeUnder(t, pos, st', n');
    forall j | 0 <= j < |t.kids| ensures SameUnder(t.kids[j], pos + [j], Cleared(c.st), st'[pos := n']) {
      ClearedSame(t.kids[j], pos + [j], c.st, o.st);
      SameTrans(t.kids[j], pos + [j], Cleared(c.st), Cleared(o.st), st');
      SameTrans(t.kids[j], pos + [j], Cleared(c.st), st', st'[pos := n']);
    }
  }

  lemma CleanBelow(t: Tree, pos: Pos, st: States, n: NodeState)
    requires AllClean(t, pos, st)
    ensures CleanFrom(t, pos, 0, st[pos := n])
  {
    ParentChangeUnder(t, pos, st, n);
    forall j | 0 <= j < |t.kids| ensures AllClean(t.kids[j], pos + [j], st[pos := n]) {
      CleanFrame(t.kids[j], pos + [j], st, st[pos := n]);
    }
  }

  lemma {:induction false} AgainCompute(t: Tree, pos: Pos, e: Expr, st: States, f: Frontier, st': States, f': Frontier, ap: Applier)
    requires var c := Compute(t, pos, e, st, f, ap);
             ClearedAlike(t, pos, 0, c.st, st') && (c.res.Ok? || CleanFrom(t, pos, 0, st))
    ensures Compute(t, pos, e, st', f', ap).res == Compute(t, pos, e, st, f, ap).res
    decreases t, |t.kids| + 1
  {
    hide Reduce, ReduceKids, ClearedAlike, CleanFrom;
    match e
    case EFieldAccess(_, _) =>
      if t.kids != [] {
        AlikeSelf(t, pos, 0, Reduce(t.kids[0], pos + [0], st, f, ap).st);
        AgainKid(t, pos, 0, st, f, Reduce(t.kids[0], pos + [0], st, f, ap).st, st', f', ap);
      }
    case ECompose(_) => AgainKids(t, pos, 0, map[], st, f, st', f', ap);
    case EApply(_, _) =>
      if |t.kids| >= 2 { AgainPair(t, pos, st, f, st', f', ap); }
    case _ =>
  }

  /** Reducing a function and its argument again. */
  lemma {:induction false} AgainPair(t: Tree, pos: Pos, st: States, f: Frontier, st': States, f': Frontier, ap: Applier)
    requires 2 <= |t.kids|
    requires var o := Reduce(t.kids[0], pos + [0], st, f, ap);
             var o1 := Reduce(t.kids[1], pos + [1], o.st, f, ap);
             && ClearedAlike(t, pos, 0, if o.res.Ok? then o1.st else o.st, st')
             && ((o.res.Ok? && o1.res.Ok?) || CleanFrom(t, pos, 0, st))
    ensures var o, o' := Reduce(t.kids[0], pos + [0], st, f, ap), Reduce(t.kids[0], pos + [0], st', f', ap);
            && o'.res == o.res
            && (o.res.Ok? ==> Reduce(t.kids[1], pos + [1], o'.st, f', ap).res == Reduce(t.kids[1], pos + [1], o.st, f, ap).res)
    decreases t, 1
  {
    hide *;
    var o := Reduce(t.kids[0], pos + [0], st, f, ap);
    if o.res.Ok? {
      var o1 := Reduce(t.kids[1], pos + [1], o.st, f, ap);
      SiblingUnder(t, pos, 1, 0, o.st, f, ap);
      AgainKid(t, pos, 0, st, f, o1.st, st', f', ap);
      SameSelf(t.kids[1], pos + [1], o1.st);
      AgainKid(t, pos, 1, o.st, f, o1.st, Reduce(t.kids[0], pos + [0], st', f', ap).st, f', ap);
    } else {
      SameSelf(t.kids[0], pos + [0], o.st);
      AgainKid(t, pos, 0, st, f, o.st, st', f', ap);
    }
  }

  lemma AlikeSelf(t: Tree, pos: Pos, i: nat, st: States)
    requires i < |t.kids|
    ensures SameUnder(t.kids[i], pos + [i], st, st)
  {
    SameSelf(t.kids[i], pos + [i], st);
  }

  /** Reducing child `i` again, where `last` is the state after all the children. */
  lemma {:induction false} AgainKid(t: Tree, pos: Pos, i: nat, st: States, f: Frontier, last: States, st': States, f': Frontier, ap: Applier)
    requires i < |t.kids| && ClearedAlike(t, pos, i, last, st')
    requires var o := Reduce(t.kids[i], pos + [i], st, f, ap);
             SameUnder(t.kids[i], pos + [i], o.st, last) && (o.res.Ok? || CleanFrom(t, pos, i, st))
    ensures Reduce(t.kids[i], pos + [i], st', f', ap).res == Reduce(t.kids[i], pos + [i], st, f, ap).res
    ensures ClearedAlike(t, pos, i + 1, last, Reduce(t.kids[i], pos + [i], st', f', ap).st)
    ensures CleanFrom(t, pos, i, st) ==> CleanFrom(t, pos, i + 1, Reduce(t.kids[i], pos + [i], st, f, ap).st)
    decreases t, 0
  {
    hide Reduce, SameUnder, AllClean;
    var o, o' := Reduce(t.kids[i], pos + [i], st, f, ap), Reduce(t.kids[i], pos + [i], st', f', ap);
    ClearedSame(t.kids[i], pos + [i], o.st, last);
    SameTrans(t.kids[i], pos + [i], Cleared(o.st), Cleared(last), st');
    Again(t.kids[i], pos + [i], st, f, st', f', ap);
    forall j | i + 1 <= j < |t.kids|
      ensures SameUnder(t.kids[j], pos + [j], Cleared(last), o'.st)
      ensures AllClean(t.kids[j], pos + [j], st) ==> AllClean(t.kids[j], pos + [j], o.st)
    {
      SiblingUnder(t, pos, i, j, st', f', ap);
      SiblingUnder(t, pos, i, j, st, f, ap);
      SameTrans(t.kids[j], pos + [j], Cleared(last), st', o'.st);
      if AllClean(t.kids[j], pos + [j], st) { CleanFrame(t.kids[j], pos + [j], st, o.st); }
    }
  }

  lemma {:induction false} AgainKids(t: Tree, pos: Pos, i: nat, rec: map<string, Value>, st: States, f: Frontier, st': States,
                                     f': Frontier, ap: Applier)
    requires i <= |t.kids|
    requires var c := ReduceKids(t, pos, i, rec, st, f, ap);
             ClearedAlike(t, pos, i, c.st, st') && (c.res.Ok? || CleanFrom(t, pos, i, st))
    ensures ReduceKids(t, pos, i, rec, st', f', ap).res == ReduceKids(t, pos, i, rec, st, f, ap).res
    decreases t, 1, |t.kids| - i
  {
    hide Reduce, ClearedAlike, CleanFrom;
    if i < |t.kids| {
      var o := Reduce(t.kids[i], pos + [i], st, f, ap);
      if o.res.Ok? {
        var rec' := rec[t.kids[i].path := o.res.value];
        var last := ReduceKids(t, pos, i + 1, rec', o.st, f, ap).st;
        KidsLeave(t, pos, i + 1, rec', o.st, f, ap, i);
        AgainKid(t, pos, i, st, f, last, st', f', ap);
        AgainKids(t, pos, i + 1, rec', o.st, f, Reduce(t.kids[i], pos + [i], st', f', ap).st, f', ap);
      } else {
        SameSelf(t.kids[i], pos + [i], o.st);
        AgainKid(t, pos, i, st, f, o.st, st', f', ap);
      }
    }
  }

  /** The children before `i` are left alone. */
  lemma {:induction false} KidsLeave(t: Tree, pos: Pos, i: nat, rec: map<string, Value>, st: States, f: Frontier, ap: Applier, k: nat)
    requires k < i <= |t.kids|
    ensures SameUnder(t.kids[k], pos + [k], st, ReduceKids(t, pos, i, rec, st, f, ap).st)
    decreases |t.kids| - i
  {
    hide Reduce, SameUnder;
    if i < |t.kids| {
      var o := Reduce(t.kids[i], pos + [i], st, f, ap);
      SiblingUnder(t, pos, i, k, st, f, ap);
      if o.res.Ok? {
        var rec' := rec[t.kids[i].path := o.res.value];
        KidsLeave(t, pos, i + 1, rec', o.st, f, ap, k);
        SameTrans(t.kids[k], pos + [k], st, o.st, ReduceKids(t, pos, i + 1, rec', o.st, f, ap).st);
      }
    } else {
      SameSelf(t.kids[k], pos + [k], st);
    }
  }

  /** A node that was reduced holds what it answered, if it answered a value or had nothing to bring up to date. */
  lemma HeldAfter(t: Tree, pos: Pos, st: States, f: Frontier, ap: Applier)
    requires Reduce(t, pos, st, f, ap).res.Ok? || AllClean(t, pos, st)
    ensures Held(t, pos, Reduce(t, pos, st, f, ap).st, ap) == Reduce(t, pos, st, f, ap).res
  {
    hide Reduce;
    var after := Reduce(t, pos, st, f, ap).st;
    SameSelf(t, pos, Cleared(after));
    Again(t, pos, st, f, Cleared(after), map[], ap);
  }

  // ---------------------------------------------------------------- visited once or left alone

  /** What became of a subtree: reduced once, from what it was at the start, or not touched. */
  predicate OnceOrNever(t: Tree, pos: Pos, st: States, f: Frontier, ap: Applier, after: States, visited: bool, s: States) {
    && SameUnder(t, pos, st, s)
    && SameUnder(t, pos, if visited then Reduce(t, pos, s, f, ap).st else st, after)
  }

  lemma KidVisited(t: Tree, pos: Pos, st: States, f: Frontier, ap: Applier, i: nat) returns (visited: bool, s: States)
    requires i < |t.kids|
    ensures OnceOrNever(t.kids[i], pos + [i], st, f, ap, Reduce(t, pos, st, f, ap).st, visited, s)
    ensures Node(st, pos).dirty && Reduce(t, pos, st, f, ap).res.Ok? ==>
              && (visited <==> i < Fanout(Refreshed(Node(st, pos), t.path, f).expr, |t.kids|))
              && (visited ==> Reduce(t.kids[i], pos + [i], s, f, ap).res.Ok?)
  {
    hide Compute, SameUnder;
    if !Node(st, pos).dirty && Node(st, pos).cached != Nil {
      visited, s := false, st;
      SameSelf(t.kids[i], pos + [i], st);
    } else {
      var n := Refreshed(Node(st, pos), t.path, f);
      var c := Compute(t, pos, n.expr, st[pos := n], f, ap);
      ParentChangeUnder(t, pos, st, n);
      StoredKids(t, pos, n, c);
      visited, s := KidComputed(t, pos, n.expr, st[pos := n], f, ap, i);
      OnceMore(t.kids[i], pos + [i], st, st[pos := n], f, ap, c.st, Stored(pos, n, c).st, visited, s);
      if !visited { s := st; SameSelf(t.kids[i], pos + [i], st); }
    }
  }

  /** More untouched steps before and after change nothing. */
  lemma OnceMore(t: Tree, pos: Pos, st: States, st': States, f: Frontier, ap: Applier, after: States, after': States, visited: bool, s: States)
    requires SameUnder(t, pos, st, st') && OnceOrNever(t, pos, st', f, ap, after, visited, s) && SameUnder(t, pos, after, after')
    ensures OnceOrNever(t, pos, st, f, ap, after', visited, s)
  {
    hide SameUnder, Reduce;
    SameTrans(t, pos, st, st', s);
    if visited {
      SameTrans(t, pos, Reduce(t, pos, s, f, ap).st, after, after');
    } else {
      SameTrans(t, pos, st, st', after);
      SameTrans(t, pos, st, after, after');
    }
  }

  lemma KidComputed(t: Tree, pos: Pos, e: Expr, st: States, f: Frontier, ap: Applier, i: nat) returns (visited: bool, s: States)
    requires i < |t.kids|
    ensures OnceOrNever(t.kids[i], pos + [i], st, f, ap, Compute(t, pos, e, st, f, ap).st, visited, s)
    ensures Compute(t, pos, e, st, f, ap).res.Ok? ==>
              (visited <==> i < Fanout(e, |t.kids|)) && (visited ==> Reduce(t.kids[i], pos + [i], s, f, ap).res.Ok?)
  {
    hide Reduce, ReduceKids, SameUnder;
    visited, s := false, st;
    SameSelf(t.kids[i], pos + [i], st);
    match e {
      case EFieldAccess(_, _) =>
        var after := Reduce(t.kids[0], pos + [0], st, f, ap).st;
        if i == 0 {
          visited := true;
          SameSelf(t.kids[0], pos + [0], after);
        } else {
          SiblingUnder(t, pos, 0, i, st, f, ap);
        }
      case ECompose(_) => visited, s := KidsVisited(t, pos, 0, map[], st, f, ap, i);
      case EApply(_, _) => if |t.kids| >= 2 { visited, s := PairVisited(t, pos, st, f, ap, i); }
      case _ =>
    }
  }

  lemma PairVisited(t: Tree, pos: Pos, st: States, f: Frontier, ap: Applier, i: nat) returns (visited: bool, s: States)
    requires i < |t.kids| && 2 <= |t.kids|
    ensures var o := Reduce(t.kids[0], pos + [0], st, f, ap);
            var o' := Reduce(t.kids[1], pos + [1], o.st, f, ap);
            && OnceOrNever(t.kids[i], pos + [i], st, f, ap, if o.res.Ok? then o'.st else o.st, visited, s)
            && (o.res.Ok? && o'.res.Ok? ==> (visited <==> i < 2) && (visited ==> Reduce(t.kids[i], pos + [i], s, f, ap).res.Ok?))
  {
    hide Reduce, SameUnder;
    var o := Reduce(t.kids[0], pos + [0], st, f, ap);
    var o' := Reduce(t.kids[1], pos + [1], o.st, f, ap);
    visited, s := i == 0, st;
    SameSelf(t.kids[i], pos + [i], st);
    SameSelf(t.kids[i], pos + [i], o.st);
    SameSelf(t.kids[i], pos + [i], o'.st);
    if i != 0 { SiblingUnder(t, pos, 0, i, st, f, ap); }
    if i != 1 { SiblingUnder(t, pos, 1, i, o.st, f, ap); }
    if o.res.Ok? {
      if i == 1 {
        visited, s := true, o.st;
      } else if i > 1 {
        SameTrans(t.kids[i], pos + [i], st, o.st, o'.st);
      }
    }
  }

  lemma {:induction false} KidsVisited(t: Tree, pos: Pos, k: nat, rec: map<string, Value>, st: States, f: Frontier, ap: Applier, i: nat)
    returns (visited: bool, s: States)
    requires k <= i < |t.kids|
    ensures OnceOrNever(t.kids[i], pos + [i], st, f, ap, ReduceKids(t, pos, k, rec, st, f, ap).st, visited, s)
    ensures ReduceKids(t, pos, k, rec, st, f, ap).res.Ok? ==> visited && Reduce(t.kids[i], pos + [i], s, f, ap).res.Ok?
    decreases i - k
  {
    hide Reduce, SameUnder;
    var o := Reduce(t.kids[k], pos + [k], st, f, ap);
    SameSelf(t.kids[i], pos + [i], st);
    if k == i {
      visited, s := true, st;
      SameSelf(t.kids[i], pos + [i], o.st);
      if o.res.Ok? { KidsLeave(t, pos, k + 1, rec[t.kids[k].path := o.res.value], o.st, f, ap, k); }
    } else {
      SiblingUnder(t, pos, k, i, st, f, ap);
      visited, s := false, st;
      if o.res.Ok? {
        var rec' := rec[t.kids[k].path := o.res.value];
        visited, s := KidsVisited(t, pos, k + 1, rec', o.st, f, ap, i);
        var after := ReduceKids(t, pos, k + 1, rec', o.st, f, ap).st;
        SameSelf(t.kids[i], pos + [i], after);
        OnceMore(t.kids[i], pos + [i], st, o.st, f, ap, after, after, visited, s);
      }
    }
  }

  /** The way down to `q` goes through dirty nodes, which `x` describes. */
  predicate OnTheWay(t: Tree, pos: Pos, st: States, x: map<string, Expr>, f: Frontier, q: Pos) {
    q == [] || (
      && q[0] < |t.kids| && Node(st, pos).dirty && t.path in x && Refreshed(Node(st, pos), t.path, f).expr == x[t.path]
      && OnTheWay(t.kids[q[0]], pos + [q[0]], st, x, f, q[1..]))
  }

  lemma {:induction false} OnTheWayFrame(t: Tree, pos: Pos, st: States, st': States, x: map<string, Expr>, f: Frontier, q: Pos)
    requires OnTheWay(t, pos, st, x, f, q) && SameUnder(t, pos, st, st')
    ensures OnTheWay(t, pos, st', x, f, q)
  {
    if q != [] { OnTheWayFrame(t.kids[q[0]], pos + [q[0]], st, st', x, f, q[1..]); }
  }

  /** Evaluation with the expressions `x` comes to the node at `q`. */
  predicate Reached(t: Tree, q: Pos, x: map<string, Expr>) {
    q == [] || (q[0] < |t.kids| && Enters(t, q[0], x) && Reached(t.kids[q[0]], q[1..], x))
  }

  /**
   Every node is visited once or left alone. If the read succeeds and everything above the node is dirty, it is visited if
   and only if evaluation comes to it, and then it succeeds too.
   */
  lemma {:induction false} Visits(t: Tree, pos: Pos, st: States, x: map<string, Expr>, f: Frontier, ap: Applier, q: Pos)
    returns (visited: bool, s: States)
    requires InTree(t, q)
    ensures OnceOrNever(Sub(t, q), pos + q, st, f, ap, Reduce(t, pos, st, f, ap).st, visited, s)
    ensures OnTheWay(t, pos, st, x, f, q) && Reduce(t, pos, st, f, ap).res.Ok? ==>
              (visited <==> Reached(t, q, x)) && (visited ==> Reduce(Sub(t, q), pos + q, s, f, ap).res.Ok?)
    decreases t
  {
    hide Reduce, SameUnder;
    var after := Reduce(t, pos, st, f, ap).st;
    if q == [] {
      assert pos + q == pos;
      visited, s := true, st;
      SameSelf(t, pos, st);
      SameSelf(t, pos, after);
    } else {
      var k := t.kids[q[0]];
      assert pos + [q[0]] + q[1..] == pos + q;
      visited, s := KidVisited(t, pos, st, f, ap, q[0]);
      if visited {
        var s0 := s;
        visited, s := Visits(k, pos + [q[0]], s0, x, f, ap, q[1..]);
        SameInside(k, pos + [q[0]], st, s0, q[1..]);
        SameInside(k, pos + [q[0]], Reduce(k, pos + [q[0]], s0, f, ap).st, after, q[1..]);
        OnceMore(Sub(t, q), pos + q, st, s0, f, ap, Reduce(k, pos + [q[0]], s0, f, ap).st, after, visited, s);
        if OnTheWay(t, pos, st, x, f, q) { OnTheWayFrame(k, pos + [q[0]], st, s0, x, f, q[1..]); }
      } else {
        SameInside(k, pos + [q[0]], st, after, q[1..]);
        s := st;
        SameSelf(Sub(t, q), pos + q, st);
      }
    }
  }
}
