/** Proofs read over the crystal: its frontiers meet what the engine's theorems ask for. */
module CrystalReads {
  import opened Core
  import C = CrystalSpec
  import R = CrystalRuns
  import opened ProofSpec
  import opened ProofReads
  import opened ProofRuns
  import opened Composition
  import opened Evaluators

  /** The current atom of every path after a history of appends. */
  function FrontierAt(history: seq<Atom>): Frontier {
    map p | p in C.Replay(history).frontier && C.LastAt(history, p).Some? :: C.LastAt(history, p).value
  }

  /** The crystal as a store that has evicted nothing. */
  function StoreAt(history: seq<Atom>): Store {
    Store(FrontierAt(history), C.Replay(history).atoms)
  }

  lemma FrontierIsLast(history: seq<Atom>, p: string)
    requires C.Ordered(history)
    ensures p in FrontierAt(history) <==> C.LastAt(history, p).Some?
    ensures p in FrontierAt(history) ==> FrontierAt(history)[p] == C.LastAt(history, p).value
    ensures p in FrontierAt(history) ==> FrontierAt(history)[p] in history && FrontierAt(history)[p].path == p
  {
    hide Genuine;
    C.ReplayCurrent(history, p);
  }

  // ---------------------------------------------------------------- no atom comes back

  /** The last atom of a path only moves forward in the log. */
  lemma {:induction false} LastMoves(history: seq<Atom>, i: nat, j: nat, p: string)
    requires C.Ordered(history) && i <= j <= |history| && C.LastAt(history[..i], p).Some?
    ensures C.LastAt(history[..j], p).Some?
    ensures var a, b := C.LastAt(history[..i], p).value, C.LastAt(history[..j], p).value;
            a == b || a.clock < b.clock
    decreases j
  {
    hide Genuine, C.LastAt;
    if i < j {
      LastMoves(history, i, j - 1, p);
      LastStep(history, j, p);
      C.LastIsMember(history[..j - 1]);
      var b := C.LastAt(history[..j - 1], p).value;
      var x :| 0 <= x < j - 1 && history[..j - 1][x] == b;
      assert history[x].clock < history[j - 1].clock;
    }
  }

  lemma LastStays(history: seq<Atom>, i: nat, j: nat, k: nat, p: string)
    requires C.Ordered(history) && i <= j <= k <= |history| && C.LastAt(history[..i], p).Some?
    requires C.LastAt(history[..k], p).Some? && C.LastAt(history[..k], p).value.hash == C.LastAt(history[..i], p).value.hash
    ensures C.LastAt(history[..j], p) == C.LastAt(history[..i], p) == C.LastAt(history[..k], p)
  {
    hide Genuine;
    LastMoves(history, i, j, p);
    LastMoves(history, j, k, p);
    C.LastIsMember(history[..i]);
    C.LastIsMember(history[..k]);
    var a, c := C.LastAt(history[..i], p).value, C.LastAt(history[..k], p).value;
    var x :| 0 <= x < i && history[x] == a;
    var y :| 0 <= y < k && history[y] == c;
    EqualHashEqualClock(a, c);
  }

  predicate Forward(ks: seq<nat>, n: nat) {
    && (forall i :: 0 <= i < |ks| ==> ks[i] <= n)
    && (forall i, j :: 0 <= i <= j < |ks| ==> ks[i] <= ks[j])
  }

  /** The stores at the moments of the reads. */
  function Stores(history: seq<Atom>, ks: seq<nat>): (ss: seq<Store>)
    requires Forward(ks, |history|)
    ensures |ss| == |ks| && forall i :: 0 <= i < |ks| ==> ss[i] == StoreAt(history[..ks[i]])
  {
    seq(|ks|, i requires 0 <= i < |ks| => StoreAt(history[..ks[i]]))
  }

  /** Frontiers along any history of the crystal are free of ABA. */
  lemma CrystalFrontiersAbaFree(history: seq<Atom>, ks: seq<nat>)
    requires C.Ordered(history) && Forward(ks, |history|)
    ensures AbaFree(Frontiers(Stores(history, ks)))
  {
    hide Genuine, FrontierAt;
    var fs := Frontiers(Stores(history, ks));
    forall i, j, k, q
      ensures NoReturn(fs, i, j, k, q)
    {
      if 0 <= i <= j <= k < |fs| && q in fs[i] && Current(q, fs[i][q].hash, fs[k]) {
        C.OrderedPrefix(history, ks[i]);
        C.OrderedPrefix(history, ks[j]);
        C.OrderedPrefix(history, ks[k]);
        FrontierIsLast(history[..ks[i]], q);
        FrontierIsLast(history[..ks[j]], q);
        FrontierIsLast(history[..ks[k]], q);
        LastStays(history, ks[i], ks[j], ks[k], q);
      }
    }
  }

  // ---------------------------------------------------------------- leaf writes

  /** String constants and compositions of earlier atoms, at named paths. */
  ghost predicate PlainHistory(history: seq<Atom>) {
    forall i :: 0 <= i < |history| ==>
      && history[i].path != "" && Plain(history[i].expr)
      && forall h <- HashesOf(history[i].expr) :: h in C.Replay(history[..i]).atoms
  }

  /** From position `k` on, only constants are written, and only where constants were. */
  predicate LeafWritesFrom(history: seq<Atom>, k: nat) {
    forall j :: k <= j < |history| ==>
      && !history[j].expr.ECompose?
      && (C.LastAt(history[..j], history[j].path).Some? ==> !C.LastAt(history[..j], history[j].path).value.expr.ECompose?)
  }

  lemma AtomsGrow(history: seq<Atom>, i: nat, j: nat)
    requires C.Ordered(history) && i <= j <= |history|
    ensures forall h <- C.Replay(history[..i]).atoms.Keys ::
              h in C.Replay(history[..j]).atoms && C.Replay(history[..j]).atoms[h] == C.Replay(history[..i]).atoms[h]
  {
    hide Genuine, C.Ordered, C.Replay;
    C.OrderedPrefix(history, i);
    C.OrderedPrefix(history, j);
    C.ReplayIndexes(history[..i]);
    C.ReplayIndexes(history[..j]);
    forall h | h in C.Replay(history[..i]).atoms ensures C.Replay(history[..i]).atoms[h] in history[..j] {
      LongerPrefix(history, i, j, C.Replay(history[..i]).atoms[h]);
    }
  }

  lemma LongerPrefix(history: seq<Atom>, i: nat, j: nat, a: Atom)
    requires i <= j <= |history| && a in history[..i]
    ensures a in history[..j]
  {
    var x :| 0 <= x < i && history[x] == a;
    assert history[..j][x] == a;
  }

  lemma PlainIsComplete(history: seq<Atom>, k: nat)
    requires C.Ordered(history) && PlainHistory(history) && k <= |history|
    ensures Complete(StoreAt(history[..k]))
  {
    hide Genuine, C.Replay, FrontierAt;
    var past := history[..k];
    var s := StoreAt(past);
    C.OrderedPrefix(history, k);
    C.ReplayIndexes(past);
    forall p | p in s.frontier
      ensures p != "" && s.frontier[p].path == p && Plain(s.frontier[p].expr)
      ensures forall h <- HashesOf(s.frontier[p].expr) :: h in s.index
    {
      FrontierIsLast(past, p);
      var x :| 0 <= x < k && history[x] == s.frontier[p];
      AtomsGrow(history, x, k);
    }
    forall h | h in s.index ensures s.index[h].path in s.frontier {
      var a := s.index[h];
      LastExists(past, a);
      FrontierIsLast(past, a.path);
    }
  }

  lemma {:induction false} LastExists(log: seq<Atom>, a: Atom)
    requires a in log
    ensures C.LastAt(log, a.path).Some?
  {
    var n := |log| - 1;
    if log[n].path != a.path {
      assert log == log[..n] + [log[n]];
      LastExists(log[..n], a);
    }
  }

  lemma {:induction false} LeafLast(history: seq<Atom>, k: nat, i: nat, j: nat, p: string)
    requires k <= i <= j <= |history| && LeafWritesFrom(history, k) && C.LastAt(history[..i], p).Some?
    ensures C.LastAt(history[..j], p).Some?
    ensures var a, b := C.LastAt(history[..i], p).value, C.LastAt(history[..j], p).value;
            if a.expr.ECompose? then b == a else !b.expr.ECompose?
    decreases j
  {
    hide Genuine, C.LastAt, LeafWritesFrom;
    if i < j {
      LeafLast(history, k, i, j - 1, p);
      LeafWriteAt(history, k, j - 1);
      LastStep(history, j, p);
    }
  }

  lemma LastStep(history: seq<Atom>, j: nat, p: string)
    requires 0 < j <= |history|
    ensures C.LastAt(history[..j], p) == if history[j - 1].path == p then Some(history[j - 1]) else C.LastAt(history[..j - 1], p)
  {
    assert history[..j][..j - 1] == history[..j - 1];
  }

  lemma LeafWriteAt(history: seq<Atom>, k: nat, j: nat)
    requires LeafWritesFrom(history, k) && k <= j < |history|
    ensures !history[j].expr.ECompose?
    ensures C.LastAt(history[..j], history[j].path).Some? ==> !C.LastAt(history[..j], history[j].path).value.expr.ECompose?
  {
    hide C.LastAt;
  }

  lemma LeafStep(history: seq<Atom>, k: nat, i: nat, j: nat)
    requires C.Ordered(history) && k <= i <= j <= |history| && LeafWritesFrom(history, k)
    ensures LeafWrites(StoreAt(history[..i]), StoreAt(history[..j]))
  {
    hide Genuine, FrontierAt, C.Replay;
    AtomsGrow(history, i, j);
    C.OrderedPrefix(history, i);
    C.OrderedPrefix(history, j);
    forall p | p in FrontierAt(history[..i])
      ensures p in FrontierAt(history[..j])
      ensures if FrontierAt(history[..i])[p].expr.ECompose? then FrontierAt(history[..j])[p] == FrontierAt(history[..i])[p]
              else !FrontierAt(history[..j])[p].expr.ECompose?
    {
      FrontierIsLast(history[..i], p);
      FrontierIsLast(history[..j], p);
      LeafLast(history, k, i, j, p);
    }
  }

  /** The crystal along a history of leaf writes is a run on which the three evaluators agree. */
  lemma CrystalLeafRun(history: seq<Atom>, ks: seq<nat>)
    requires C.Ordered(history) && PlainHistory(history) && Forward(ks, |history|)
    requires ks != [] ==> LeafWritesFrom(history, ks[0])
    ensures LeafRun(Stores(history, ks)) && AbaFree(Frontiers(Stores(history, ks)))
  {
    hide StoreAt, Complete, LeafWrites, PlainHistory, C.Ordered, LeafWritesFrom, AbaFree;
    var ss := Stores(history, ks);
    CrystalFrontiersAbaFree(history, ks);
    forall i | 0 <= i < |ss| ensures Complete(ss[i]) { PlainIsComplete(history, ks[i]); }
    forall i | 0 < i < |ss| ensures LeafWrites(ss[i - 1], ss[i]) { LeafStep(history, ks[0], ks[i - 1], ks[i]); }
  }

  // ---------------------------------------------------------------- the crystal's own memory

  /** What `GetCurrent` and `GetAtom` answer from memory. */
  function MemoryStore(m: C.Mem): Store {
    Store(map p | p in m.frontier && C.GetCurrent(m, p).Some? :: C.GetCurrent(m, p).value, m.atoms)
  }

  /** A crystal that was only appended to answers from memory as the store of its history. */
  lemma MemoryIsStore(ops: seq<R.Op>)
    requires R.AppendsOnly(ops)
    ensures MemoryStore(R.After(ops).mem) == StoreAt(R.History(ops)) && C.Ordered(R.History(ops))
  {
    hide C.Ordered, C.Replay;
    R.AppendsAreReplayed(ops);
    var m := R.After(ops).mem;
    forall p ensures C.GetCurrent(m, p) == C.LastAt(R.History(ops), p) { C.ReplayCurrent(R.History(ops), p); }
  }

  /** The history of a prefix of the appends is the prefix of the history. */
  lemma {:induction false} HistoryPrefix(ops: seq<R.Op>, k: nat)
    requires R.AppendsOnly(ops) && k <= |ops|
    ensures |R.History(ops)| == |ops| && R.History(ops[..k]) == R.History(ops)[..k]
  {
    hide Genuine, R.Step, R.Minted;
    if k == |ops| {
      assert ops[..k] == ops;
      if ops != [] {
        var init := ops[..|ops| - 1];
        assert forall i :: 0 <= i < |init| ==> init[i] == ops[i];
        HistoryPrefix(init, |init|);
        assert ops[|ops| - 1].Append? && ops[|ops| - 1].durable;
      }
      assert R.History(ops)[..k] == R.History(ops);
    } else {
      var init := ops[..|ops| - 1];
      assert forall i :: 0 <= i < |init| ==> init[i] == ops[i];
      HistoryPrefix(init, k);
      assert init[..k] == ops[..k];
      assert ops[|ops| - 1].Append? && ops[|ops| - 1].durable;
    }
  }

  /** The memory at the moments of the reads, as stores. */
  function MemoryStores(ops: seq<R.Op>, ks: seq<nat>): (ss: seq<Store>)
    requires Forward(ks, |ops|)
    ensures |ss| == |ks| && forall i :: 0 <= i < |ks| ==> ss[i] == MemoryStore(R.After(ops[..ks[i]]).mem)
  {
    seq(|ks|, i requires 0 <= i < |ks| => MemoryStore(R.After(ops[..ks[i]]).mem))
  }

  /** Along appends of string constants and compositions, from the first read on of leaves only, memory is such a run. */
  lemma MemoryLeafRun(ops: seq<R.Op>, ks: seq<nat>)
    requires R.AppendsOnly(ops) && Forward(ks, |ops|) && PlainHistory(R.History(ops))
    requires ks != [] ==> LeafWritesFrom(R.History(ops), ks[0])
    ensures LeafRun(MemoryStores(ops, ks)) && AbaFree(Frontiers(MemoryStores(ops, ks)))
  {
    hide *;
    HistoryPrefix(ops, |ops|);
    MemoryIsStore(ops);
    var history := R.History(ops);
    forall i | 0 <= i < |ks| ensures ks[i] <= |ops| { ForwardAt(ks, |ops|, i); }
    forall i | 0 <= i < |ks| ensures MemoryStore(R.After(ops[..ks[i]]).mem) == StoreAt(history[..ks[i]]) {
      HistoryPrefix(ops, ks[i]);
      PrefixAppends(ops, ks[i]);
      MemoryIsStore(ops[..ks[i]]);
    }
    assert MemoryStores(ops, ks) == Stores(history, ks);
    CrystalLeafRun(history, ks);
  }

  lemma ForwardAt(ks: seq<nat>, n: nat, i: nat)
    requires Forward(ks, n) && i < |ks|
    ensures ks[i] <= n
  {
  }

  lemma PrefixAppends(ops: seq<R.Op>, k: nat)
    requires R.AppendsOnly(ops) && k <= |ops|
    ensures R.AppendsOnly(ops[..k])
  {
  }

  /** The current atom of a path is indexed under its hash. */
  lemma CurrentIsIndexed(ops: seq<R.Op>, p: string)
    requires R.AppendsOnly(ops) && p in MemoryStore(R.After(ops).mem).frontier
    ensures var s := MemoryStore(R.After(ops).mem);
            s.frontier[p].hash in s.index && s.index[s.frontier[p].hash] == s.frontier[p] && s.frontier[p].path == p
  {
    hide Genuine, C.Ordered, C.Replay;
    MemoryIsStore(ops);
    FrontierIsLast(R.History(ops), p);
    C.ReplayIndexes(R.History(ops));
  }

  /**
   The three evaluators over the crystal's own memory. After any appends of string constants and compositions, from the
   first read on of leaves only, the memoised evaluator, run on memory, answers what the incremental read of a proof
   composed at the first read and a proof composed afresh answer, wrapped in the root's record or not.
   */
  method MemoryReadAgrees(s: Store, path: string, ap: Applier, ghost ops: seq<R.Op>, ghost ks: seq<nat>, ghost p: Proof, ghost st: States,
                          ghost p': Proof, ghost st': States, ghost orders: seq<seq<string>>, ghost n: nat, ghost fuel: nat)
    returns (r: Outcome, wrapped: Outcome)
    requires R.AppendsOnly(ops) && Forward(ks, |ops|) && 0 < n < |ks| == |orders|
    requires PlainHistory(R.History(ops)) && LeafWritesFrom(R.History(ops), ks[0])
    requires s == MemoryStores(ops, ks)[n]
    requires path in MemoryStores(ops, ks)[0].frontier && Build(MemoryStores(ops, ks)[0], path, fuel) == Some(p.tree)
    requires Composed(p, st, MemoryStores(ops, ks)[0].frontier, ap)
    requires Listed(p, Frontiers(MemoryStores(ops, ks)), orders, n, ap)
    requires path in s.frontier && Build(s, path, fuel) == Some(p'.tree) && Composed(p', st', s.frontier, ap)
    ensures r == Ok(p'.value) == Answer(p, Frontiers(MemoryStores(ops, ks)), orders, n, ap)
    ensures wrapped == Ok(VRecord(map[path := p'.value]))
  {
    hide *;
    ghost var ss := MemoryStores(ops, ks);
    MemoryLeafRun(ops, ks);
    ForwardAt(ks, |ops|, n);
    PrefixAppends(ops, ks[n]);
    CurrentIsIndexed(ops[..ks[n]], path);
    ListedEach(p, ss, orders, n, ap);
    r, wrapped := MemoisedReadAgrees(s, path, ap, ss, p, st, p', st', orders, n, fuel);
  }

  lemma ListedEach(p: Proof, ss: seq<Store>, orders: seq<seq<string>>, n: nat, ap: Applier)
    requires n < |ss| == |orders| && Listed(p, Frontiers(ss), orders, n, ap)
    ensures forall i :: 0 < i <= n ==>
              Lists(orders[i], Changed(After(p, Frontiers(ss), orders, i - 1, ap).vv, ss[i].frontier))
  {
    hide After, Changed;
  }

  // ---------------------------------------------------------------- two compositions that name each other

  function Write(expr: Expr, path: string): R.Op {
    R.Append(expr, path, [], 0, 0, Never, true)
  }

  function Mint(expr: Expr, path: string, clock: nat): Atom {
    Atom(ComputeHash(expr, clock, 0, Never, 0, []), expr, [], 0, clock, 0, 0, path, Never)
  }

  /** Write `b`, compose it as `a`, then compose that as `b`. */
  function Mutual(a: string, b: string, v: Value): seq<R.Op> {
    var first := Mint(EConst(v), b, 1);
    var second := Mint(ECompose([first.hash]), a, 2);
    [Write(first.expr, b), Write(second.expr, a), Write(ECompose([second.hash]), b)]
  }

  lemma MutualHistory(a: string, b: string, v: Value)
    ensures var first := Mint(EConst(v), b, 1);
            var second := Mint(ECompose([first.hash]), a, 2);
            R.AppendsOnly(Mutual(a, b, v)) &&
            R.History(Mutual(a, b, v)) == [first, second, Mint(ECompose([second.hash]), b, 3)]
  {
    hide Genuine, ComputeHash;
    var ops := Mutual(a, b, v);
    var one, two := ops[..1], ops[..2];
    assert one[..0] == [] && two[..1] == one && ops[..2] == two;
    assert R.After([]).mem.clock == 0;
    assert R.After(one).mem.clock == 1;
    assert R.After(two).mem.clock == 2;
    assert R.History(one) == [Mint(EConst(v), b, 1)];
    assert R.History(two) == R.History(one) + [Mint(ops[1].expr, a, 2)];
  }

  /** Three appends to a crystal lead to two compositions that name each other; composing either one never ends. */
  lemma MutualCompositionReached(a: string, b: string, v: Value, fuel: nat)
    requires a != b
    ensures var s := MemoryStore(R.After(Mutual(a, b, v)).mem);
            a in s.frontier && b in s.frontier && Build(s, a, fuel).None? && Build(s, b, fuel).None?
  {
    hide Genuine, ComputeHash, C.Ordered, Build;
    MutualHistory(a, b, v);
    MemoryIsStore(Mutual(a, b, v));
    var h := R.History(Mutual(a, b, v));
    var s := StoreAt(h);
    assert h[..2][..1] == h[..1] && h[..1][..0] == [];
    FrontierIsLast(h, a);
    FrontierIsLast(h, b);
    C.ReplayIndexes(h);
    assert h[0] in h && h[1] in h;
    MutualCompositionDiverges(s, a, b, h[1].hash, h[0].hash, fuel);
    MutualCompositionDiverges(s, b, a, h[0].hash, h[1].hash, fuel);
  }
}
