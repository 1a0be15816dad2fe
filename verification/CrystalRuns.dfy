/** Whole runs of the crystal: appends, failed appends, compactions, evictions and restarts. */
module CrystalRuns {
  import opened Core
  import opened CrystalSpec

  datatype Op =
    | Append(expr: Expr, path: string, past: seq<Hash>, now: int, nonce: int, expires: Deadline, durable: bool)
    | Compact(durable: bool)
    | Evict(victims: set<Hash>)
    | Restart

  datatype Crystal = Crystal(mem: Mem, log: seq<Atom>)

  /** One more than the deepest known parent. */
  function DepthOf(past: seq<Hash>, depths: map<Hash, nat>): nat {
    if past == [] then 0 else
      var d := DepthOf(past[..|past| - 1], depths);
      var h := past[|past| - 1];
      if h in depths && depths[h] + 1 > d then depths[h] + 1 else d
  }

  function Minted(m: Mem, expr: Expr, path: string, past: seq<Hash>, now: int, nonce: int, expires: Deadline): Atom {
    Atom(ComputeHash(expr, m.clock + 1, now, expires, nonce, past), expr, past, DepthOf(past, m.depths), m.clock + 1,
         now, nonce, path, expires)
  }

  function FrontierHashes(m: Mem): set<Hash> {
    set p | p in m.frontier :: m.frontier[p]
  }

  function Without(m: Mem, hs: set<Hash>): Mem {
    m.(atoms := m.atoms - hs, parents := m.parents - hs, depths := m.depths - hs)
  }

  function Step(c: Crystal, op: Op): Crystal {
    match op
    case Append(expr, path, past, now, nonce, expires, durable) =>
      var a := Minted(c.mem, expr, path, past, now, nonce, expires);
      if durable then Crystal(Take(c.mem, a), c.log + [a]) else c.(mem := c.mem.(clock := c.mem.clock + 1))
    case Compact(durable) =>
      if durable then
        Crystal(Without(c.mem, c.mem.atoms.Keys - FrontierHashes(c.mem)).(leaves := Hashes(Compacted(c.log))), Compacted(c.log))
      else c
    case Evict(victims) => c.(mem := Without(c.mem, victims - FrontierHashes(c.mem)))
    case Restart => Crystal(Replay(c.log), c.log)
  }

  function After(ops: seq<Op>): Crystal {
    if ops == [] then Crystal(EMPTY, []) else Step(After(ops[..|ops| - 1]), ops[|ops| - 1])
  }

  /** Every atom ever made durable, in order. */
  function History(ops: seq<Op>): seq<Atom> {
    if ops == [] then [] else
      var init := ops[..|ops| - 1];
      match ops[|ops| - 1]
      case Append(expr, path, past, now, nonce, expires, true) =>
        History(init) + [Minted(After(init).mem, expr, path, past, now, nonce, expires)]
      case _ => History(init)
  }

  // ---------------------------------------------------------------- the invariant

  /** Memory holds part of what replaying the log gives, and all of the frontier. */
  ghost predicate Held(m: Mem, r: Mem) {
    && m.parents.Keys == m.atoms.Keys && m.depths.Keys == m.atoms.Keys
    && (forall h <- m.atoms.Keys :: h in r.atoms && m.atoms[h] == r.atoms[h])
    && (forall h <- m.atoms.Keys :: m.parents[h] == m.atoms[h].past && m.depths[h] == m.atoms[h].depth)
    && (forall p <- m.frontier.Keys :: m.frontier[p] in m.atoms)
  }

  ghost predicate Inv(c: Crystal, history: seq<Atom>) {
    && Ordered(history) && Ordered(c.log)
    && (forall p :: LastAt(c.log, p) == LastAt(history, p))
    && (c.log == [] <==> history == [])
    && (c.log != [] ==> c.log[|c.log| - 1] == history[|history| - 1] && history[|history| - 1].clock <= c.mem.clock)
    && c.mem.frontier == Replay(c.log).frontier && c.mem.leaves == Replay(c.log).leaves
    && Held(c.mem, Replay(c.log))
  }

  lemma MintedIsNewer(c: Crystal, history: seq<Atom>, a: Atom)
    requires Inv(c, history) && Genuine(a) && a.clock == c.mem.clock + 1
    ensures Ordered(c.log + [a]) && Ordered(history + [a])
  {
    hide Genuine, Held;
    if history != [] { Snoc(history); Snoc(c.log); }
    SnocOrdered(c.log, a);
    SnocOrdered(history, a);
  }

  lemma LastSnoc(log: seq<Atom>, a: Atom, p: string)
    ensures LastAt(log + [a], p) == if a.path == p then Some(a) else LastAt(log, p)
  {
    assert (log + [a])[..|log|] == log;
  }

  lemma ReplaySnoc(log: seq<Atom>, a: Atom)
    ensures Replay(log + [a]) == Take(Replay(log), a)
  {
    assert (log + [a])[..|log|] == log;
  }

  lemma HeldTake(m: Mem, r: Mem, a: Atom)
    requires Held(m, r) && m.frontier == r.frontier && forall h <- r.atoms.Keys :: h != a.hash
    ensures Held(Take(m, a), Take(r, a))
  {
  }

  lemma NewHash(log: seq<Atom>, a: Atom)
    requires Ordered(log + [a])
    ensures forall h <- Replay(log).atoms.Keys :: h != a.hash
  {
    hide Genuine;
    var all := log + [a];
    OrderedPrefix(all, |log|);
    assert all[..|log|] == log;
    ReplayIndexes(log);
    forall h | h in Replay(log).atoms ensures h != a.hash {
      var b := Replay(log).atoms[h];
      var i :| 0 <= i < |log| && log[i] == b;
      if b.hash == a.hash { DistinctHashes(all, i, |log|); }
    }
  }

  lemma AppendInv(c: Crystal, history: seq<Atom>, a: Atom)
    requires Inv(c, history) && Genuine(a) && a.clock == c.mem.clock + 1
    ensures Inv(Crystal(Take(c.mem, a), c.log + [a]), history + [a])
  {
    hide Genuine, Ordered, Held;
    MintedIsNewer(c, history, a);
    ReplaySnoc(c.log, a);
    NewHash(c.log, a);
    HeldTake(c.mem, Replay(c.log), a);
    forall p ensures LastAt(c.log + [a], p) == LastAt(history + [a], p) {
      LastSnoc(c.log, a, p);
      LastSnoc(history, a, p);
    }
  }

  lemma HeldWithout(m: Mem, r: Mem, hs: set<Hash>)
    requires Held(m, r) && hs !! FrontierHashes(m)
    ensures Held(Without(m, hs), r)
  {
  }

  /** The hashes on the frontier are those of the compacted log. */
  lemma FrontierIsCompacted(log: seq<Atom>, h: Hash)
    requires Ordered(log)
    ensures h in FrontierHashes(Replay(log)) <==> h in Replay(Compacted(log)).atoms
  {
    hide Genuine, Ordered, Replay;
    CompactedReplay(log);
    ReplayIndexes(Compacted(log));
    CompactedMembers(log);
    var f, r := Replay(log).frontier, Replay(Compacted(log));
    if h in FrontierHashes(Replay(log)) {
      var p :| p in f && f[p] == h;
      ReplayCurrent(Compacted(log), p);
    }
    if h in r.atoms {
      var a := r.atoms[h];
      assert LastAt(log, a.path) == Some(a);
      ReplayCurrent(log, a.path);
    }
  }

  lemma CompactAtoms(c: Crystal, h: Hash)
    requires Ordered(c.log) && Held(c.mem, Replay(c.log)) && c.mem.frontier == Replay(c.log).frontier
    ensures var m, r := Without(c.mem, c.mem.atoms.Keys - FrontierHashes(c.mem)), Replay(Compacted(c.log));
            && m.parents.Keys == m.atoms.Keys == m.depths.Keys && r.parents.Keys == r.atoms.Keys == r.depths.Keys
            && (h in m.atoms <==> h in r.atoms)
            && (h in m.atoms ==> m.atoms[h] == r.atoms[h] && m.parents[h] == r.parents[h] && m.depths[h] == r.depths[h])
  {
    hide Genuine, Ordered, Replay, Compacted;
    FrontierIsCompacted(c.log, h);
    CompactedMembers(c.log);
    ReplayIndexes(Compacted(c.log));
    ReplayIndexes(c.log);
    assert FrontierHashes(c.mem) == FrontierHashes(Replay(c.log));
    var r := Replay(Compacted(c.log));
    if h in r.atoms {
      assert r.atoms[h] in c.log;
    }
  }

  lemma SameMems(m: Mem, r: Mem)
    requires m.frontier == r.frontier && m.leaves == r.leaves
    requires m.parents.Keys == m.atoms.Keys == m.depths.Keys && r.parents.Keys == r.atoms.Keys == r.depths.Keys
    requires forall h :: h in m.atoms <==> h in r.atoms
    requires forall h <- m.atoms.Keys :: m.atoms[h] == r.atoms[h] && m.parents[h] == r.parents[h] && m.depths[h] == r.depths[h]
    ensures m == r.(clock := m.clock)
  {
    assert m.atoms == r.atoms;
    assert m.parents == r.parents;
    assert m.depths == r.depths;
  }

  /** Compaction in memory: what is left is exactly what replaying the compacted log gives. */
  lemma CompactMem(c: Crystal, history: seq<Atom>)
    requires Inv(c, history)
    ensures Step(c, Compact(true)).mem == Replay(Compacted(c.log)).(clock := c.mem.clock)
  {
    hide Genuine, Ordered, Replay, Compacted, LastAt, Held, FrontierHashes;
    var m, r := Step(c, Compact(true)).mem, Replay(Compacted(c.log));
    CompactedReplay(c.log);
    ReplayRest(Compacted(c.log));
    forall h
      ensures m.parents.Keys == m.atoms.Keys == m.depths.Keys && r.parents.Keys == r.atoms.Keys == r.depths.Keys
      ensures h in m.atoms <==> h in r.atoms
      ensures h in m.atoms ==> m.atoms[h] == r.atoms[h] && m.parents[h] == r.parents[h] && m.depths[h] == r.depths[h]
    {
      CompactAtoms(c, h);
    }
    CompactAtoms(c, Sha3([]));
    SameMems(m, r);
  }

  lemma CompactedLast(log: seq<Atom>)
    ensures var c := Compacted(log); (c == [] <==> log == []) && (log != [] ==> c[|c| - 1] == log[|log| - 1])
  {
  }

  lemma CompactInv(c: Crystal, history: seq<Atom>)
    requires Inv(c, history)
    ensures Inv(Step(c, Compact(true)), history)
  {
    hide Genuine, Ordered, Replay, LastAt, Compacted, Held;
    CompactMem(c, history);
    CompactedReplay(c.log);
    CompactedLast(c.log);
    forall p ensures LastAt(Compacted(c.log), p) == LastAt(history, p) { CompactedCurrent(c.log, p); }
    ReplayHeld(Compacted(c.log));
    SameHeld(Replay(Compacted(c.log)), c.mem.clock);
  }

  lemma SameHeld(r: Mem, clock: nat)
    requires Held(r, r)
    ensures Held(r.(clock := clock), r)
  {
  }

  lemma ReplayHeld(log: seq<Atom>)
    requires Ordered(log)
    ensures Held(Replay(log), Replay(log))
  {
    hide Genuine;
    ReplayIndexes(log);
    forall p | p in Replay(log).frontier ensures Replay(log).frontier[p] in Replay(log).atoms { ReplayCurrent(log, p); }
  }

  lemma {:induction false} RunInv(ops: seq<Op>)
    ensures Inv(After(ops), History(ops))
  {
    hide Inv, Genuine;
    if ops == [] {
      StartInv();
    } else {
      RunInv(ops[..|ops| - 1]);
      StepInv(After(ops[..|ops| - 1]), History(ops[..|ops| - 1]), ops[|ops| - 1]);
    }
  }

  lemma StartInv()
    ensures Inv(Crystal(EMPTY, []), [])
  {
  }

  lemma StepInv(c: Crystal, history: seq<Atom>, op: Op)
    requires Inv(c, history)
    ensures op.Append? && op.durable ==>
              Inv(Step(c, op), history + [Minted(c.mem, op.expr, op.path, op.past, op.now, op.nonce, op.expires)])
    ensures !(op.Append? && op.durable) ==> Inv(Step(c, op), history)
  {
    hide Inv, Genuine, Replay;
    match op
    case Append(expr, path, past, now, nonce, expires, durable) =>
      MintedIsGenuine(c.mem, expr, path, past, now, nonce, expires);
      AppendInv(c, history, Minted(c.mem, expr, path, past, now, nonce, expires));
      TickInv(c, history);
    case Compact(durable) => CompactInv(c, history);
    case Evict(victims) => EvictInv(c, history, victims);
    case Restart => RestartInv(c, history);
  }

  lemma MintedIsGenuine(m: Mem, expr: Expr, path: string, past: seq<Hash>, now: int, nonce: int, expires: Deadline)
    ensures Genuine(Minted(m, expr, path, past, now, nonce, expires))
  {
  }

  lemma TickInv(c: Crystal, history: seq<Atom>)
    requires Inv(c, history)
    ensures Inv(c.(mem := c.mem.(clock := c.mem.clock + 1)), history)
  {
    hide Genuine, Ordered, Replay;
  }

  lemma EvictInv(c: Crystal, history: seq<Atom>, victims: set<Hash>)
    requires Inv(c, history)
    ensures Inv(Step(c, Evict(victims)), history)
  {
    hide Genuine, Ordered, Replay, Held;
    HeldWithout(c.mem, Replay(c.log), victims - FrontierHashes(c.mem));
  }

  lemma RestartInv(c: Crystal, history: seq<Atom>)
    requires Inv(c, history)
    ensures Inv(Step(c, Restart), history)
  {
    hide Genuine, Ordered, Replay, Held;
    ReplayHeld(c.log);
    ReplayRest(c.log);
  }

  // ---------------------------------------------------------------- theorems

  /** The atom is what the append asked for. */
  predicate Written(a: Atom, op: Op) {
    && op.Append? && a.expr == op.expr && a.path == op.path && a.past == op.past && a.phys == op.now && a.nonce == op.nonce
    && a.expires == op.expires && Genuine(a)
  }

  /** The last durable append at a path. */
  function LastDurable(ops: seq<Op>, path: string): Option<Op> {
    if ops == [] then None
    else if ops[|ops| - 1].Append? && ops[|ops| - 1].durable && ops[|ops| - 1].path == path then Some(ops[|ops| - 1])
    else LastDurable(ops[..|ops| - 1], path)
  }

  lemma {:induction false} HistoryIsWritten(ops: seq<Op>, path: string)
    ensures LastAt(History(ops), path).Some? <==> LastDurable(ops, path).Some?
    ensures LastDurable(ops, path).Some? ==> Written(LastAt(History(ops), path).value, LastDurable(ops, path).value)
  {
    hide After, LastAt;
    if ops == [] {
      NoHistory(path);
    } else {
      var init, op := ops[..|ops| - 1], ops[|ops| - 1];
      HistoryIsWritten(init, path);
      if op.Append? && op.durable {
        LastSnoc(History(init), Minted(After(init).mem, op.expr, op.path, op.past, op.now, op.nonce, op.expires), path);
      }
    }
  }

  lemma NoHistory(path: string)
    ensures LastAt(History([]), path) == None
  {
  }

  /**
   In every run the current atom of a path is what the last durable append there asked for, deadline and parents included,
   in memory as after a restart: neither compaction nor eviction nor a failed append changes any answer.
   */
  lemma CurrentIsLastDurable(ops: seq<Op>, path: string)
    ensures GetCurrent(After(ops).mem, path) == GetCurrent(Replay(After(ops).log), path) == LastAt(History(ops), path)
    ensures GetCurrent(After(ops).mem, path).Some? <==> LastDurable(ops, path).Some?
    ensures LastDurable(ops, path).Some? ==> Written(GetCurrent(After(ops).mem, path).value, LastDurable(ops, path).value)
  {
    hide Genuine, Ordered, LastAt, LastDurable, Written, Replay;
    RunInv(ops);
    ReplayCurrent(After(ops).log, path);
    HistoryIsWritten(ops, path);
  }

  /** Depth is one more than the deepest parent that is known, and zero where none is. */
  lemma {:induction false} DepthExact(past: seq<Hash>, depths: map<Hash, nat>)
    ensures forall h <- past :: h in depths ==> depths[h] < DepthOf(past, depths)
    ensures DepthOf(past, depths) == 0 || exists h <- past :: h in depths && DepthOf(past, depths) == depths[h] + 1
  {
    if past != [] {
      var init, h := past[..|past| - 1], past[|past| - 1];
      DepthExact(init, depths);
      assert past == init + [h];
      if DepthOf(past, depths) != 0 && !(h in depths && DepthOf(past, depths) == depths[h] + 1) {
        var g :| g in init && g in depths && DepthOf(init, depths) == depths[g] + 1;
        assert g in past;
      }
    }
  }

  /** No append has failed since the last durable append or restart. */
  predicate CaughtUp(ops: seq<Op>) {
    if ops == [] then true else
      match ops[|ops| - 1]
      case Append(_, _, _, _, _, _, durable) => durable
      case Restart => true
      case _ => CaughtUp(ops[..|ops| - 1])
  }

  /** The log never runs ahead of the clock in memory. */
  lemma ClockLeads(ops: seq<Op>)
    ensures Replay(After(ops).log).clock <= After(ops).mem.clock
  {
    hide Genuine, Ordered;
    RunInv(ops);
    ReplayRest(After(ops).log);
  }

  /** Recovery restores the clock exactly when no append has failed since the last durable one or the last restart. */
  lemma {:induction false} ClockRecoversIff(ops: seq<Op>)
    ensures After(ops).mem.clock == Replay(After(ops).log).clock <==> CaughtUp(ops)
  {
    hide Genuine, Ordered;
    if ops != [] {
      var init, op := ops[..|ops| - 1], ops[|ops| - 1];
      ClockRecoversIff(init);
      RunInv(init);
      var c := After(init);
      match op {
        case Append(expr, path, past, now, nonce, expires, durable) =>
          ReplaySnoc(c.log, Minted(c.mem, expr, path, past, now, nonce, expires));
          ClockLeads(init);
        case Compact(_) => CompactedReplay(c.log);
        case Evict(_) =>
        case Restart =>
      }
    }
  }

  /**
   After a compaction, recovery reproduces the frontier, parents, depths, atoms and Merkle leaves of memory in every
   run, and the clock, so the whole memory, exactly when the log had caught up.
   */
  lemma CompactionRecovers(ops: seq<Op>)
    ensures var c := After(ops + [Compact(true)]);
            Replay(c.log).(clock := c.mem.clock) == c.mem && (Replay(c.log) == c.mem <==> CaughtUp(ops))
    ensures After(ops + [Compact(true)]).log == Compacted(After(ops).log)
    ensures forall p :: GetCurrent(After(ops + [Compact(true)]).mem, p) == GetCurrent(After(ops).mem, p)
  {
    hide Genuine, Ordered;
    var all := ops + [Compact(true)];
    assert all[..|all| - 1] == ops;
    RunInv(ops);
    CompactMem(After(ops), History(ops));
    ClockRecoversIff(all);
    forall p ensures GetCurrent(After(all).mem, p) == GetCurrent(After(ops).mem, p) {
      CurrentIsLastDurable(ops, p);
      CurrentIsLastDurable(all, p);
    }
  }

  // ---------------------------------------------------------------- runs of durable appends

  predicate AppendsOnly(ops: seq<Op>) {
    forall i :: 0 <= i < |ops| ==> ops[i].Append? && ops[i].durable
  }

  /** A crystal that was only appended to holds in memory exactly what replaying its history gives. */
  lemma {:induction false} AppendsAreReplayed(ops: seq<Op>)
    requires AppendsOnly(ops)
    ensures After(ops).log == History(ops) && After(ops).mem == Replay(History(ops)) && Ordered(History(ops))
  {
    hide Genuine, Ordered;
    RunInv(ops);
    if ops != [] {
      var init, op := ops[..|ops| - 1], ops[|ops| - 1];
      AppendsAreReplayed(init);
      ReplaySnoc(History(init), Minted(After(init).mem, op.expr, op.path, op.past, op.now, op.nonce, op.expires));
    }
  }

  /** A failed append costs a clock tick that recovery cannot know of. */
  lemma FailedAppendLosesATick(ops: seq<Op>, path: string)
    requires CaughtUp(ops)
    ensures var c := After(ops + [Append(EConst(VNull), path, [], 0, 0, Never, false)]);
            c.mem.clock == Replay(c.log).clock + 1
  {
    var all := ops + [Append(EConst(VNull), path, [], 0, 0, Never, false)];
    assert all[..|all| - 1] == ops;
    ClockRecoversIff(ops);
  }
}
