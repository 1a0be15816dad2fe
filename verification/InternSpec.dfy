/**
 * Hash-consing (internal/core/intern.go): expressions are compared by their own fields and the IDs of their children,
 * never deeper, and the result is still structural equality of whole expressions.
 */
module InternSpec {
  import opened Core

  /** One expression node as the intern table sees it: children are the IDs of interned nodes. */
  datatype Shape =
    | Const(text: string)
    | Field(field: string, source: nat)
    | Compose(atoms: seq<Hash>)
    | Apply(fn: nat, arg: nat)

  function Kids(s: Shape): set<nat> {
    match s
    case Const(_) => {}
    case Field(_, src) => {src}
    case Compose(_) => {}
    case Apply(f, a) => {f, a}
  }

  type Nodes = map<nat, Shape>

  /** Children were interned first, so their IDs are smaller. */
  predicate Founded(nodes: Nodes) {
    forall id <- nodes :: KidsBelow(nodes, nodes[id], id)
  }

  predicate KidsBelow(nodes: Nodes, s: Shape, id: nat) {
    forall k <- Kids(s) :: k in nodes && k < id
  }

  /** No shape has two IDs. */
  predicate Unique(nodes: Nodes) {
    forall a <- nodes, b <- nodes :: nodes[a] == nodes[b] ==> a == b
  }

  /** The whole expression behind an ID. */
  ghost function Deep(nodes: Nodes, id: nat): Expr
    requires Founded(nodes) && id in nodes
    decreases id
  {
    match nodes[id]
    case Const(t) => EConst(VString(t))
    case Field(f, src) => assert src in Kids(nodes[id]); EFieldAccess(f, Deep(nodes, src))
    case Compose(hs) => ECompose(hs)
    case Apply(f, a) => assert f in Kids(nodes[id]) && a in Kids(nodes[id]); EApply(Deep(nodes, f), Deep(nodes, a))
  }

  /** Shallow comparison is deep equality: two IDs agree exactly when the expressions behind them do. */
  lemma {:induction false} SameIdIffDeeplyEqual(nodes: Nodes, a: nat, b: nat)
    requires Founded(nodes) && Unique(nodes) && a in nodes && b in nodes
    ensures a == b <==> Deep(nodes, a) == Deep(nodes, b)
    decreases a
  {
    if Deep(nodes, a) == Deep(nodes, b) {
      match nodes[a] {
        case Const(_) => assert nodes[a] == nodes[b];
        case Compose(_) => assert nodes[a] == nodes[b];
        case Field(f, src) =>
          assert KidsBelow(nodes, nodes[a], a) && KidsBelow(nodes, nodes[b], b);
          assert src in Kids(nodes[a]) && nodes[b].source in Kids(nodes[b]);
          SameIdIffDeeplyEqual(nodes, src, nodes[b].source);
          assert nodes[a] == nodes[b];
        case Apply(f, x) =>
          assert KidsBelow(nodes, nodes[a], a) && KidsBelow(nodes, nodes[b], b);
          assert f in Kids(nodes[a]) && x in Kids(nodes[a]);
          assert nodes[b].fn in Kids(nodes[b]) && nodes[b].arg in Kids(nodes[b]);
          SameIdIffDeeplyEqual(nodes, f, nodes[b].fn);
          SameIdIffDeeplyEqual(nodes, x, nodes[b].arg);
          assert nodes[a] == nodes[b];
      }
    }
  }

  /** Interning more nodes never changes the expression behind an ID already given out. */
  lemma {:induction false} DeepStable(nodes: Nodes, later: Nodes, id: nat)
    requires Founded(nodes) && Founded(later) && id in nodes
    requires forall k <- nodes :: k in later && later[k] == nodes[k]
    ensures Deep(nodes, id) == Deep(later, id)
    decreases id
  {
    match nodes[id] {
      case Const(_) =>
      case Compose(_) =>
      case Field(_, src) =>
        assert KidsBelow(nodes, nodes[id], id) && src in Kids(nodes[id]);
        DeepStable(nodes, later, src);
      case Apply(f, a) =>
        assert KidsBelow(nodes, nodes[id], id) && f in Kids(nodes[id]) && a in Kids(nodes[id]);
        DeepStable(nodes, later, f);
        DeepStable(nodes, later, a);
    }
  }

  /** Adding an unknown shape under a new larger ID keeps both invariants. */
  lemma AddKeeps(nodes: Nodes, id: nat, s: Shape)
    requires Founded(nodes) && Unique(nodes)
    requires id !in nodes && s !in nodes.Values && KidsBelow(nodes, s, id)
    ensures Founded(nodes[id := s]) && Unique(nodes[id := s])
  {
    hide Kids;
    var nodes' := nodes[id := s];
    forall a | a in nodes ensures nodes'[a] != s { assert nodes[a] in nodes.Values; }
  }

  // ---------------------------------------------------------------- concurrent callers

  /** Where one call of `Intern` stands. */
  datatype Phase =
    | Missed(s: Shape)              // the read probe found nothing
    | Holding(s: Shape, id: nat)    // the locked re-check found nothing; the ID is taken, the append is due
    | Done(s: Shape, id: nat)

  datatype State = State(nodes: Nodes, next: nat, calls: map<nat, Phase>)

  const SHARDS := 256

  function ShardOf(hash: Shape -> nat, s: Shape): nat {
    hash(s) % SHARDS
  }

  /** No writer is inside the shard. */
  ghost predicate Free(st: State, hash: Shape -> nat, shard: nat) {
    forall c <- st.calls :: st.calls[c].Holding? ==> ShardOf(hash, st.calls[c].s) != shard
  }

  predicate Returned(st: State, id: nat) {
    exists c <- st.calls :: st.calls[c].Done? && st.calls[c].id == id
  }

  /** A call starts with a probe under the read lock; its children are results of finished calls. */
  ghost predicate Probe(st: State, st': State, hash: Shape -> nat, c: nat, s: Shape) {
    && c !in st.calls && Free(st, hash, ShardOf(hash, s))
    && (forall k <- Kids(s) :: Returned(st, k))
    && (if s in st.nodes.Values
        then exists id <- st.nodes :: st.nodes[id] == s && st' == st.(calls := st.calls[c := Done(s, id)])
        else st' == st.(calls := st.calls[c := Missed(s)]))
  }

  /** The write lock is taken and the bucket is searched again; on a miss the next ID is drawn. */
  ghost predicate Recheck(st: State, st': State, hash: Shape -> nat, c: nat) {
    && c in st.calls && st.calls[c].Missed?
    && var s := st.calls[c].s;
       && Free(st, hash, ShardOf(hash, s))
       && (if s in st.nodes.Values
           then exists id <- st.nodes :: st.nodes[id] == s && st' == st.(calls := st.calls[c := Done(s, id)])
           else st' == st.(next := st.next + 1, calls := st.calls[c := Holding(s, st.next + 1)]))
  }

  /** The append, after which the lock is released. */
  ghost predicate Publish(st: State, st': State, c: nat) {
    && c in st.calls && st.calls[c].Holding?
    && st' == st.(nodes := st.nodes[st.calls[c].id := st.calls[c].s],
                  calls := st.calls[c := Done(st.calls[c].s, st.calls[c].id)])
  }

  ghost predicate Next(st: State, st': State, hash: Shape -> nat) {
    || (exists c, s :: Probe(st, st', hash, c, s))
    || (exists c :: Recheck(st, st', hash, c))
    || (exists c :: Publish(st, st', c))
  }

  /** What one call's phase promises about the table. */
  predicate PhaseOk(st: State, p: Phase) {
    match p
    case Missed(s) => KidsIn(st.nodes, s)
    case Holding(s, id) =>
      KidsBelow(st.nodes, s, id) && id !in st.nodes && id <= st.next && s !in st.nodes.Values
    case Done(s, id) => id in st.nodes && st.nodes[id] == s
  }

  predicate KidsIn(nodes: Nodes, s: Shape) {
    forall k <- Kids(s) :: k in nodes
  }

  /** At most one writer per shard, and no two writers with one ID. */
  ghost predicate WritersApart(st: State, hash: Shape -> nat) {
    forall c <- st.calls, d <- st.calls ::
      c != d && st.calls[c].Holding? && st.calls[d].Holding? ==>
        ShardOf(hash, st.calls[c].s) != ShardOf(hash, st.calls[d].s) && st.calls[c].id != st.calls[d].id
  }

  ghost predicate Inv(st: State, hash: Shape -> nat) {
    && Founded(st.nodes) && Unique(st.nodes)
    && (forall id <- st.nodes :: id <= st.next)
    && (forall c <- st.calls :: PhaseOk(st, st.calls[c]))
    && WritersApart(st, hash)
  }

  lemma InitInv(hash: Shape -> nat)
    ensures Inv(State(map[], 0, map[]), hash)
  {
  }

  lemma ReturnedIn(st: State, hash: Shape -> nat, s: Shape)
    requires Inv(st, hash) && forall k <- Kids(s) :: Returned(st, k)
    ensures KidsIn(st.nodes, s)
  {
    hide Founded, Unique, WritersApart;
    forall k | k in Kids(s) ensures k in st.nodes {
      assert Returned(st, k);
      var c :| c in st.calls && st.calls[c].Done? && st.calls[c].id == k;
      assert PhaseOk(st, st.calls[c]);
    }
  }

  /** A call that only reads leaves every other promise as it was. */
  lemma QuietStep(st: State, st': State, hash: Shape -> nat, c: nat, p: Phase)
    requires Inv(st, hash) && st' == st.(calls := st.calls[c := p])
    requires !p.Holding? && PhaseOk(st, p)
    ensures Inv(st', hash)
  {
    hide Founded, Unique;
    forall d | d in st'.calls ensures PhaseOk(st', st'.calls[d]) {
      if d != c { assert PhaseOk(st, st.calls[d]); }
    }
  }

  lemma ProbeKeeps(st: State, st': State, hash: Shape -> nat, c: nat, s: Shape)
    requires Inv(st, hash) && Probe(st, st', hash, c, s)
    ensures Inv(st', hash)
  {
    hide Inv;
    if s in st.nodes.Values {
      var id :| id in st.nodes && st.nodes[id] == s && st' == st.(calls := st.calls[c := Done(s, id)]);
      QuietStep(st, st', hash, c, Done(s, id));
    } else {
      ReturnedIn(st, hash, s);
      QuietStep(st, st', hash, c, Missed(s));
    }
  }

  lemma DrawKeeps(st: State, st': State, hash: Shape -> nat, c: nat, s: Shape)
    requires Inv(st, hash) && c in st.calls && st.calls[c] == Missed(s)
    requires Free(st, hash, ShardOf(hash, s)) && s !in st.nodes.Values
    requires st' == st.(next := st.next + 1, calls := st.calls[c := Holding(s, st.next + 1)])
    ensures Inv(st', hash)
  {
    hide Founded, Unique;
    assert PhaseOk(st, st.calls[c]);
    forall d | d in st'.calls ensures PhaseOk(st', st'.calls[d]) {
      if d != c { assert PhaseOk(st, st.calls[d]); }
    }
    forall d, e | d in st'.calls && e in st'.calls && d != e && st'.calls[d].Holding? && st'.calls[e].Holding?
      ensures ShardOf(hash, st'.calls[d].s) != ShardOf(hash, st'.calls[e].s) && st'.calls[d].id != st'.calls[e].id
    {
      if d != c { assert PhaseOk(st, st.calls[d]); }
      if e != c { assert PhaseOk(st, st.calls[e]); }
    }
  }

  lemma RecheckKeeps(st: State, st': State, hash: Shape -> nat, c: nat)
    requires Inv(st, hash) && Recheck(st, st', hash, c)
    ensures Inv(st', hash)
  {
    hide Inv, Free;
    var s := st.calls[c].s;
    if s in st.nodes.Values {
      var id :| id in st.nodes && st.nodes[id] == s && st' == st.(calls := st.calls[c := Done(s, id)]);
      QuietStep(st, st', hash, c, Done(s, id));
    } else {
      DrawKeeps(st, st', hash, c, s);
    }
  }

  lemma PublishKeeps(st: State, st': State, hash: Shape -> nat, c: nat)
    requires Inv(st, hash) && Publish(st, st', c)
    ensures Inv(st', hash)
  {
    hide Founded, Unique;
    var s, id := st.calls[c].s, st.calls[c].id;
    assert PhaseOk(st, st.calls[c]);
    AddKeeps(st.nodes, id, s);
    forall d | d in st'.calls ensures PhaseOk(st', st'.calls[d]) {
      if d != c {
        assert PhaseOk(st, st.calls[d]);
        OthersKeep(st, st', hash, c, d);
      }
    }
  }

  /** Another call's promise survives the append: its shape lives in another shard. */
  lemma OthersKeep(st: State, st': State, hash: Shape -> nat, c: nat, d: nat)
    requires WritersApart(st, hash) && Publish(st, st', c)
    requires d in st.calls && d != c && PhaseOk(st, st.calls[d]) && PhaseOk(st, st.calls[c])
    ensures PhaseOk(st', st.calls[d])
  {
    match st.calls[d] {
      case Missed(_) =>
      case Done(_, _) =>
      case Holding(s, id) =>
        assert ShardOf(hash, st.calls[c].s) != ShardOf(hash, s) && st.calls[c].id != id;
        NewValues(st.nodes, st.calls[c].id, st.calls[c].s, s);
    }
  }

  lemma NewValues(nodes: Nodes, id: nat, s: Shape, t: Shape)
    requires t !in nodes.Values && s != t
    ensures t !in nodes[id := s].Values
  {
    var nodes' := nodes[id := s];
    forall k | k in nodes' ensures nodes'[k] != t {
      if k != id { assert nodes[k] in nodes.Values; }
    }
  }

  /** Every state of every interleaving keeps the invariant. */
  lemma {:induction false} RunKeepsInv(run: seq<State>, hash: Shape -> nat)
    requires run != [] && run[0] == State(map[], 0, map[])
    requires forall i :: 0 <= i < |run| - 1 ==> Next(run[i], run[i + 1], hash)
    ensures Inv(run[|run| - 1], hash)
  {
    hide Next, Inv;
    if |run| == 1 {
      InitInv(hash);
    } else {
      RunKeepsInv(run[..|run| - 1], hash);
      assert Next(run[|run| - 2], run[|run| - 1], hash);
      NextKeeps(run[|run| - 2], run[|run| - 1], hash);
    }
  }

  lemma NextKeeps(st: State, st': State, hash: Shape -> nat)
    requires Inv(st, hash) && Next(st, st', hash)
    ensures Inv(st', hash)
  {
    hide Inv, Probe, Recheck, Publish;
    if c, s :| Probe(st, st', hash, c, s) {
      ProbeKeeps(st, st', hash, c, s);
    } else if c :| Recheck(st, st', hash, c) {
      RecheckKeeps(st, st', hash, c);
    } else {
      var c :| Publish(st, st', c);
      PublishKeeps(st, st', hash, c);
    }
  }

  /**
   * Hash-consing is exact under every interleaving: two finished calls hold the same ID if and only if the
   * expressions they asked for are deeply equal.
   */
  lemma InterleavedCallsAgree(run: seq<State>, hash: Shape -> nat, c: nat, d: nat)
    requires run != [] && run[0] == State(map[], 0, map[])
    requires forall i :: 0 <= i < |run| - 1 ==> Next(run[i], run[i + 1], hash)
    requires var st := run[|run| - 1]; c in st.calls && d in st.calls && st.calls[c].Done? && st.calls[d].Done?
    ensures var st := run[|run| - 1];
            && Founded(st.nodes) && st.calls[c].id in st.nodes && st.calls[d].id in st.nodes
            && (st.calls[c].id == st.calls[d].id <==>
                Deep(st.nodes, st.calls[c].id) == Deep(st.nodes, st.calls[d].id))
            && st.nodes[st.calls[c].id] == st.calls[c].s
  {
    hide Next, Deep;
    RunKeepsInv(run, hash);
    var st := run[|run| - 1];
    assert PhaseOk(st, st.calls[c]) && PhaseOk(st, st.calls[d]);
    SameIdIffDeeplyEqual(st.nodes, st.calls[c].id, st.calls[d].id);
  }

  /** No step takes a result back. */
  lemma ResultsAreFinal(st: State, st': State, hash: Shape -> nat, c: nat)
    requires Inv(st, hash) && Next(st, st', hash) && c in st.calls && st.calls[c].Done?
    ensures c in st'.calls && st'.calls[c] == st.calls[c]
    ensures Founded(st.nodes) && Founded(st'.nodes) && st.calls[c].id in st.nodes && st.calls[c].id in st'.nodes
    ensures Deep(st.nodes, st.calls[c].id) == Deep(st'.nodes, st.calls[c].id)
  {
    hide Deep;
    NextKeeps(st, st', hash);
    assert PhaseOk(st, st.calls[c]);
    NodesGrow(st, st', hash);
    DeepStable(st.nodes, st'.nodes, st.calls[c].id);
    CallStays(st, st', hash, c);
  }

  lemma CallStays(st: State, st': State, hash: Shape -> nat, c: nat)
    requires Next(st, st', hash) && c in st.calls && st.calls[c].Done?
    ensures c in st'.calls && st'.calls[c] == st.calls[c]
  {
    hide Free;
    if d, s :| Probe(st, st', hash, d, s) {
    } else if d :| Recheck(st, st', hash, d) {
    } else {
      var d :| Publish(st, st', d);
    }
  }

  lemma NodesGrow(st: State, st': State, hash: Shape -> nat)
    requires Inv(st, hash) && Next(st, st', hash)
    ensures forall k <- st.nodes :: k in st'.nodes && st'.nodes[k] == st.nodes[k]
  {
    hide Free, Founded, Unique;
    if d, s :| Probe(st, st', hash, d, s) {
    } else if d :| Recheck(st, st', hash, d) {
    } else {
      var d :| Publish(st, st', d);
      assert PhaseOk(st, st.calls[d]);
    }
  }
}
