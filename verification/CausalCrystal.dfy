/** The crystal as an object (internal/storage/crystal.go): log and hot indexes updated in place. */
module CausalCrystal {
  import opened Core
  import opened CrystalSpec
  import R = CrystalRuns

  const MAX_ATOM_CACHE_ENTRIES: nat := 100000

  // ---------------------------------------------------------------- sorting by logical clock

  function Insert(a: Atom, sorted: seq<Atom>): seq<Atom> {
    if sorted == [] || a.clock < sorted[0].clock then [a] + sorted else [sorted[0]] + Insert(a, sorted[1..])
  }

  function SortByClock(atoms: seq<Atom>): seq<Atom> {
    if atoms == [] then [] else Insert(atoms[0], SortByClock(atoms[1..]))
  }

  predicate Increasing(atoms: seq<Atom>) {
    forall i, j :: 0 <= i < j < |atoms| ==> atoms[i].clock < atoms[j].clock
  }

  lemma {:induction false} InsertKeeps(a: Atom, sorted: seq<Atom>)
    requires Increasing(sorted) && forall b <- sorted :: b.clock != a.clock
    ensures Increasing(Insert(a, sorted))
    ensures forall b :: b in Insert(a, sorted) <==> b == a || b in sorted
  {
    if sorted == [] || a.clock < sorted[0].clock {
      var all := [a] + sorted;
      forall i, j | 0 <= i < j < |all| ensures all[i].clock < all[j].clock {
        if j > 1 { assert sorted[0].clock < sorted[j - 1].clock; }
      }
    } else {
      var rest := Insert(a, sorted[1..]);
      assert sorted[0] in sorted;
      InsertKeeps(a, sorted[1..]);
      forall b | b in rest ensures sorted[0].clock < b.clock { }
      assert sorted == [sorted[0]] + sorted[1..];
      var all := [sorted[0]] + rest;
      forall i, j | 0 <= i < j < |all| ensures all[i].clock < all[j].clock {
        if i == 0 { assert all[j] in rest; }
      }
    }
  }

  lemma {:induction false} SortKeeps(atoms: seq<Atom>)
    requires forall i, j :: 0 <= i < j < |atoms| ==> atoms[i].clock != atoms[j].clock
    ensures Increasing(SortByClock(atoms))
    ensures forall b :: b in SortByClock(atoms) <==> b in atoms
  {
    if atoms != [] {
      SortKeeps(atoms[1..]);
      InsertKeeps(atoms[0], SortByClock(atoms[1..]));
      assert atoms == [atoms[0]] + atoms[1..];
    }
  }

  /** The live atoms sorted by clock are the compacted log. */
  lemma SortedAliveIsCompacted(log: seq<Atom>, alive: seq<Atom>)
    requires Ordered(log)
    requires forall a :: a in alive <==> LastAt(log, a.path) == Some(a)
    requires forall i, j :: 0 <= i < j < |alive| ==> alive[i].path != alive[j].path
    ensures SortByClock(alive) == Compacted(log)
  {
    hide Genuine;
    LastIsMember(log);
    forall i, j | 0 <= i < j < |alive| ensures alive[i].clock != alive[j].clock {
      assert alive[i] in alive && alive[j] in alive;
      var k :| 0 <= k < |log| && log[k] == alive[i];
      var l :| 0 <= l < |log| && log[l] == alive[j];
      assert k != l;
    }
    SortKeeps(alive);
    CompactedMembers(log);
    var sorted := SortByClock(alive);
    forall i | 0 <= i < |sorted| ensures Genuine(sorted[i]) && sorted[i].clock > 0 {
      assert sorted[i] in alive;
      var k :| 0 <= k < |log| && log[k] == sorted[i];
    }
    OrderedUnique(sorted, Compacted(log));
  }

  class CausalCrystal {
    var wal: seq<Atom>
    var frontier: map<string, Hash>
    var parentIndex: map<Hash, seq<Hash>>
    var depthIndex: map<Hash, nat>
    var atomCache: map<Hash, Atom>
    var atomCount: int
    var merkleLeaves: seq<Hash>
    var clock: nat
    /** Every atom made durable so far. */
    ghost var history: seq<Atom>

    ghost function Abs(): R.Crystal
      reads this
    {
      R.Crystal(Mem(frontier, parentIndex, depthIndex, atomCache, merkleLeaves, clock), wal)
    }

    ghost predicate Valid()
      reads this
    {
      R.Inv(Abs(), history) && atomCount == |atomCache|
    }

    /** `NewCausalCrystal`: opening a log and recovering from it. */
    constructor (log: seq<Atom>)
      requires Ordered(log)
      ensures Valid() && Abs() == R.Crystal(Replay(log), log)
    {
      hide *;
      wal, history := log, log;
      frontier, parentIndex, depthIndex, atomCache, merkleLeaves := map[], map[], map[], map[], [];
      atomCount, clock := 0, 0;
      new;
      NothingHeld();
      Recover();
      ReplayedInv(log);
      IsValid();
    }

    lemma NothingHeld()
      requires frontier == map[] && parentIndex == map[] && depthIndex == map[] && atomCache == map[] && merkleLeaves == [] && clock == 0
      ensures Abs().mem == EMPTY
    {
    }

    lemma IsValid()
      requires R.Inv(Abs(), history) && atomCount == |atomCache|
      ensures Valid()
    {
    }

    /** Entering one atom into every index. */
    method Enter(atom: Atom)
      requires atom.hash !in atomCache
      modifies this`frontier, this`parentIndex, this`depthIndex, this`atomCache, this`atomCount, this`merkleLeaves, this`clock
      ensures Abs() == old(Abs()).(mem := Take(old(Abs().mem), atom)) && atomCount == old(atomCount) + 1
      ensures |atomCache| == |old(atomCache)| + 1
    {
      frontier := frontier[atom.path := atom.hash];
      parentIndex := parentIndex[atom.hash := atom.past];
      depthIndex := depthIndex[atom.hash := atom.depth];
      atomCache := atomCache[atom.hash := atom];
      atomCount := atomCount + 1;
      merkleLeaves := merkleLeaves + [atom.hash];
      if atom.clock > clock { clock := atom.clock; }
    }

    /** `Recover`, into empty indexes. */
    method Recover()
      requires Ordered(wal) && Abs().mem == EMPTY && atomCount == 0
      modifies this`frontier, this`parentIndex, this`depthIndex, this`atomCache, this`atomCount, this`merkleLeaves, this`clock
      ensures Abs() == R.Crystal(Replay(wal), wal) && atomCount == |atomCache|
    {
      hide Genuine, Ordered, Take;
      var i := 0;
      assert wal[..0] == [];
      while i < |wal|
        invariant 0 <= i <= |wal|
        invariant Abs().mem == Replay(wal[..i]) && atomCount == |atomCache|
      {
        assert wal[..i + 1][..i] == wal[..i];
        HashIsNew(wal, i);
        Enter(wal[i]);
        i := i + 1;
      }
      assert wal[..|wal|] == wal;
    }

    /** The depth loop of `AppendAtom`. */
    method DepthFrom(past: seq<Hash>) returns (depth: nat)
      ensures depth == R.DepthOf(past, depthIndex)
    {
      depth := 0;
      var i := 0;
      assert past[..0] == [];
      while i < |past|
        invariant 0 <= i <= |past| && depth == R.DepthOf(past[..i], depthIndex)
      {
        assert past[..i + 1][..i] == past[..i];
        if past[i] in depthIndex && depthIndex[past[i]] + 1 > depth {
          depth := depthIndex[past[i]] + 1;
        }
        i := i + 1;
      }
      assert past[..|past|] == past;
    }

    /** The log write of `AppendAtom` and, if it succeeded, the update of the indexes. */
    method Write(expr: Expr, path: string, past: seq<Hash>, now: int, nonce: int, expires: Deadline, durable: bool)
      returns (r: Option<Hash>)
      requires Valid()
      modifies this
      ensures Valid() && Abs() == R.Step(old(Abs()), R.Append(expr, path, past, now, nonce, expires, durable))
      ensures r == if durable then Some(R.Minted(old(Abs().mem), expr, path, past, now, nonce, expires).hash) else None
      ensures atomCount == old(atomCount) + if durable then 1 else 0
      ensures durable ==> ShowsAppend(path, expr, past, now, nonce, expires, old(clock) + 1, R.DepthOf(past, old(depthIndex)), r)
    {
      hide Genuine, Ordered, R.Inv, ComputeHash, R.DepthOf;
      var depth := DepthFrom(past);
      ghost var before, op := Abs(), R.Append(expr, path, past, now, nonce, expires, durable);
      R.StepInv(before, history, op);
      clock := clock + 1;
      var atom := Atom(ComputeHash(expr, clock, now, expires, nonce, past), expr, past, depth, clock, now, nonce, path, expires);
      assert atom == R.Minted(before.mem, expr, path, past, now, nonce, expires);
      if !durable { return None; }
      R.MintedIsGenuine(before.mem, expr, path, past, now, nonce, expires);
      AppendedHashIsNew(before, history, atom);
      wal := wal + [atom];
      Enter(atom);
      history := history + [atom];
      r := Some(atom.hash);
    }

    /** `AppendAtom`; `durable` says whether the log write succeeded. */
    method AppendAtom(expr: Expr, path: string, past: seq<Hash>, now: int, nonce: int, expires: Deadline, durable: bool)
      returns (r: Option<Hash>, ghost victims: set<Hash>)
      requires Valid()
      modifies this
      ensures Valid()
      ensures Abs() == R.Step(R.Step(old(Abs()), R.Append(expr, path, past, now, nonce, expires, durable)), R.Evict(victims))
      ensures r == if durable then Some(R.Minted(old(Abs().mem), expr, path, past, now, nonce, expires).hash) else None
      ensures durable ==> ShowsAppend(path, expr, past, now, nonce, expires, old(clock) + 1, R.DepthOf(past, old(depthIndex)), r)
      ensures !durable || old(atomCount) < 100_000 ==> victims == {}
      ensures durable && old(atomCount) >= 100_000 ==>
                |victims| == (old(atomCount) + 1) / 10 || (|victims| < (old(atomCount) + 1) / 10 && atomCache.Keys <= R.FrontierHashes(Abs().mem))
      ensures victims !! R.FrontierHashes(Abs().mem) && atomCount == old(atomCount) + (if durable then 1 else 0) - |victims|
    {
      hide R.Inv, R.Minted, R.FrontierHashes, R.Without;
      r := Write(expr, path, past, now, nonce, expires, durable);
      victims := {};
      NoVictims(Abs().mem);
      assert durable ==> ShowsAppend(path, expr, past, now, nonce, expires, old(clock) + 1, R.DepthOf(past, old(depthIndex)), r);
      ghost var written := Abs();
      if durable && atomCount > MAX_ATOM_CACHE_ENTRIES {
        victims := EvictIfNeeded();
        EvictionKeeps(written.mem, victims, path);
      }
    }

    /** The current atom of the path is what was appended. */
    ghost predicate ShowsAppend(path: string, expr: Expr, past: seq<Hash>, now: int, nonce: int, expires: Deadline, tick: nat,
                                depth: nat, h: Option<Hash>)
      reads this
    {
      var r := GetCurrent(Abs().mem, path);
      && r.Some? && r.value.expr == expr && r.value.path == path && r.value.past == past && r.value.phys == now
      && r.value.nonce == nonce && r.value.expires == expires && r.value.clock == tick && r.value.depth == depth
      && Some(r.value.hash) == h
    }

    /** `GetCurrent`. */
    method GetCurrentAtom(path: string) returns (r: Option<Atom>)
      requires Valid()
      ensures r == GetCurrent(Abs().mem, path)
      ensures r == LastAt(history, path)
    {
      hide Genuine;
      ReplayCurrent(wal, path);
      if path !in frontier { return None; }
      if frontier[path] in atomCache { r := Some(atomCache[frontier[path]]); } else { r := None; }
    }

    /** The frontier hashes, as both eviction loops collect them. */
    method CollectFrontier() returns (hs: set<Hash>)
      ensures hs == R.FrontierHashes(Abs().mem)
    {
      hs := {};
      var todo := frontier.Keys;
      while todo != {}
        invariant todo <= frontier.Keys
        invariant hs == set p | p in frontier && p !in todo :: frontier[p]
        decreases todo
      {
        var p :| p in todo;
        hs := hs + {frontier[p]};
        todo := todo - {p};
      }
    }

    /** Taking one atom out of the three hash indexes. */
    method Forget(hash: Hash)
      requires hash in atomCache && atomCount == |atomCache|
      modifies this`atomCache, this`parentIndex, this`depthIndex, this`atomCount
      ensures Abs() == old(Abs()).(mem := R.Without(old(Abs().mem), {hash})) && atomCount == |atomCache| == old(atomCount) - 1
      ensures atomCache.Keys == old(atomCache.Keys) - {hash}
    {
      DropOne(atomCache, hash);
      atomCache := atomCache - {hash};
      atomCount := atomCount - 1;
      parentIndex := parentIndex - {hash};
      depthIndex := depthIndex - {hash};
    }

    /** `evictIfNeeded`: a tenth of the atoms, or all that are not current if they are fewer; none that is current. */
    method EvictIfNeeded() returns (ghost victims: set<Hash>)
      requires Valid()
      modifies this`atomCache, this`parentIndex, this`depthIndex, this`atomCount
      ensures Valid() && Abs() == R.Step(old(Abs()), R.Evict(victims))
      ensures victims !! R.FrontierHashes(Abs().mem) && |victims| <= old(atomCount) / 10
      ensures old(atomCount) < 100_000 ==> victims == {}
      ensures old(atomCount) >= 100_000 ==>
                |victims| == old(atomCount) / 10 || atomCache.Keys <= R.FrontierHashes(Abs().mem)
      ensures atomCount == old(atomCount) - |victims|
    {
      hide R.Inv, R.FrontierHashes, R.Without;
      ghost var before := Abs();
      victims := {};
      NoVictims(before.mem);
      var count := atomCount;
      if count < MAX_ATOM_CACHE_ENTRIES { return; }
      var frontierHashes := CollectFrontier();
      victims := EvictUpTo(count / 10, frontierHashes);
      assert victims - frontierHashes == victims;
      WithoutKeepsFrontier(before.mem, victims);
      R.StepInv(before, history, R.Evict(victims));
    }

    /** The eviction loop: the order in which atoms are met is arbitrary. */
    method EvictUpTo(target: nat, frontierHashes: set<Hash>) returns (ghost victims: set<Hash>)
      requires atomCount == |atomCache| && frontierHashes == R.FrontierHashes(Abs().mem)
      modifies this`atomCache, this`parentIndex, this`depthIndex, this`atomCount
      ensures Abs() == old(Abs()).(mem := R.Without(old(Abs().mem), victims))
      ensures victims !! frontierHashes && |victims| <= target && atomCount == |atomCache| == old(atomCount) - |victims|
      ensures |victims| == target || atomCache.Keys <= frontierHashes
    {
      hide R.Without, R.FrontierHashes;
      ghost var before := Abs();
      victims := {};
      NoVictims(before.mem);
      var evicted := 0;
      var todo := atomCache.Keys;
      while todo != {} && evicted < target
        invariant todo <= atomCache.Keys && victims !! frontierHashes && victims !! atomCache.Keys
        invariant atomCache.Keys - todo <= frontierHashes
        invariant Abs() == before.(mem := R.Without(before.mem, victims))
        invariant 0 <= evicted == |victims| <= target && atomCount == |atomCache| == old(atomCount) - evicted
        decreases todo
      {
        var hash :| hash in todo;
        if hash !in frontierHashes {
          var path := atomCache[hash].path;
          if path in frontier && frontier[path] == hash {
            InFrontier(before.mem, path);
          } else {
            WithoutMore(before.mem, victims, hash);
            Forget(hash);
            victims := victims + {hash};
            evicted := evicted + 1;
          }
        }
        todo := todo - {hash};
      }
    }

    /** Step 1 of `Compact`: the atoms on the frontier. */
    method CollectAlive() returns (alive: seq<Atom>)
      requires Valid()
      ensures forall a :: a in alive <==> LastAt(wal, a.path) == Some(a)
      ensures forall i, j :: 0 <= i < j < |alive| ==> alive[i].path != alive[j].path
    {
      hide LastAt, CausalCrystal.Valid;
      alive := [];
      ghost var done: seq<string> := [];
      var todo := frontier.Keys;
      while todo != {}
        invariant todo <= frontier.Keys
        invariant |done| == |alive| && forall i :: 0 <= i < |done| ==> LastAt(wal, done[i]) == Some(alive[i])
        invariant forall p :: p in done <==> p in frontier && p !in todo
        invariant forall i, j :: 0 <= i < j < |done| ==> done[i] != done[j]
        decreases todo
      {
        var p :| p in todo;
        FrontierHolds(p);
        var h := frontier[p];
        if h in atomCache {
          alive := alive + [atomCache[h]];
          done := done + [p];
        }
        todo := todo - {p};
      }
      forall p ensures p in done <==> LastAt(wal, p).Some? { FrontierHolds(p); }
      AliveByPath(wal, done, alive);
    }

    /** The frontier names the last atom of every path, and memory holds it. */
    lemma FrontierHolds(p: string)
      requires Valid()
      ensures p in frontier <==> LastAt(wal, p).Some?
      ensures p in frontier ==> frontier[p] in atomCache && LastAt(wal, p) == Some(atomCache[frontier[p]])
    {
      hide Genuine, Ordered, Replay, LastAt;
      ReplayCurrent(wal, p);
    }

    /** `Compact` with nothing running beside it; `durable` says whether the log could be rewritten. */
    method Compact(durable: bool)
      requires Valid()
      modifies this
      ensures Valid() && Abs() == R.Step(old(Abs()), R.Compact(durable)) && history == old(history)
    {
      hide Genuine, Ordered, R.Inv, R.FrontierHashes, R.Without, Compacted, SortByClock, LastAt;
      ghost var before := Abs();
      R.StepInv(before, history, R.Compact(durable));
      var alive := CollectAlive();
      OrderedWal(before, history);
      SortedAliveIsCompacted(wal, alive);
      var sorted := SortByClock(alive);
      if !durable { return; }
      wal := sorted;
      merkleLeaves := Hashes(sorted);
      var frontierHashes := CollectFrontier();
      DropOrphans(frontierHashes);
      SameFrontier(before.mem, Hashes(sorted));
    }

    /** Step 4 of `Compact`. */
    method DropOrphans(keep: set<Hash>)
      requires atomCount == |atomCache|
      modifies this`atomCache, this`parentIndex, this`depthIndex, this`atomCount
      ensures Abs() == old(Abs()).(mem := R.Without(old(Abs().mem), old(atomCache.Keys) - keep)) && atomCount == |atomCache|
    {
      hide R.FrontierHashes, R.Without;
      ghost var before, all := Abs(), atomCache.Keys;
      NoVictims(before.mem);
      var todo := atomCache.Keys;
      assert all - todo - keep == {};
      while todo != {}
        invariant todo <= atomCache.Keys && todo <= all && atomCount == |atomCache|
        invariant Abs() == before.(mem := R.Without(before.mem, all - todo - keep))
        decreases todo
      {
        var hash :| hash in todo;
        NextDropped(all, todo, keep, hash);
        if hash !in keep {
          WithoutMore(before.mem, all - todo - keep, hash);
          Forget(hash);
        }
        todo := todo - {hash};
      }
      assert all - {} - keep == all - keep;
    }
  }

  lemma NextDropped(all: set<Hash>, todo: set<Hash>, keep: set<Hash>, h: Hash)
    requires h in todo && todo <= all
    ensures all - (todo - {h}) - keep == if h in keep then all - todo - keep else all - todo - keep + {h}
  {
  }

  lemma WithoutMore(m: Mem, hs: set<Hash>, h: Hash)
    ensures R.Without(R.Without(m, hs), {h}) == R.Without(m, hs + {h})
  {
    assert m.atoms - hs - {h} == m.atoms - (hs + {h});
    assert m.parents - hs - {h} == m.parents - (hs + {h});
    assert m.depths - hs - {h} == m.depths - (hs + {h});
  }

  lemma WithoutKeepsFrontier(m: Mem, hs: set<Hash>)
    ensures R.FrontierHashes(R.Without(m, hs)) == R.FrontierHashes(m)
  {
  }

  lemma SameFrontier(m: Mem, leaves: seq<Hash>)
    ensures R.FrontierHashes(m.(leaves := leaves)) == R.FrontierHashes(m)
    ensures forall hs :: R.Without(m, hs).(leaves := leaves) == R.Without(m.(leaves := leaves), hs)
  {
  }

  lemma AliveByPath(log: seq<Atom>, paths: seq<string>, alive: seq<Atom>)
    requires |paths| == |alive| && forall i :: 0 <= i < |paths| ==> LastAt(log, paths[i]) == Some(alive[i])
    requires forall p :: p in paths <==> LastAt(log, p).Some?
    requires forall i, j :: 0 <= i < j < |paths| ==> paths[i] != paths[j]
    ensures forall a :: a in alive <==> LastAt(log, a.path) == Some(a)
    ensures forall i, j :: 0 <= i < j < |alive| ==> alive[i].path != alive[j].path
  {
    hide LastAt;
    LastIsMember(log);
    forall i | 0 <= i < |alive| ensures alive[i].path == paths[i] { }
    forall a: Atom | LastAt(log, a.path) == Some(a) ensures a in alive {
      assert a.path in paths;
      var i :| 0 <= i < |paths| && paths[i] == a.path;
      assert alive[i] == a;
    }
  }

  lemma DropOne(m: map<Hash, Atom>, h: Hash)
    requires h in m
    ensures |m - {h}| == |m| - 1
  {
    assert (m - {h}).Keys == m.Keys - {h};
  }

  /** Eviction takes no current atom. */
  lemma EvictionKeeps(m: Mem, victims: set<Hash>, path: string)
    ensures GetCurrent(R.Without(m, victims - R.FrontierHashes(m)), path) == GetCurrent(m, path)
  {
  }

  lemma NoVictims(m: Mem)
    ensures R.Without(m, {}) == m && {} - R.FrontierHashes(m) == {}
  {
    assert m.atoms - {} == m.atoms && m.parents - {} == m.parents && m.depths - {} == m.depths;
    assert {} - R.FrontierHashes(m) == {};
  }

  lemma InFrontier(m: Mem, p: string)
    requires p in m.frontier
    ensures m.frontier[p] in R.FrontierHashes(m)
  {
  }

  lemma HashIsNew(log: seq<Atom>, i: nat)
    requires Ordered(log) && i < |log|
    ensures log[i].hash !in Replay(log[..i]).atoms
  {
    hide Genuine;
    OrderedPrefix(log, i + 1);
    assert log[..i + 1] == log[..i] + [log[i]];
    R.NewHash(log[..i], log[i]);
  }

  lemma AppendedHashIsNew(c: R.Crystal, history: seq<Atom>, a: Atom)
    requires R.Inv(c, history) && Genuine(a) && a.clock == c.mem.clock + 1
    ensures a.hash !in c.mem.atoms
  {
    hide Genuine;
    R.MintedIsNewer(c, history, a);
    R.NewHash(c.log, a);
  }

  lemma OrderedWal(c: R.Crystal, history: seq<Atom>)
    requires R.Inv(c, history)
    ensures Ordered(c.log)
    ensures c.mem.parents.Keys == c.mem.atoms.Keys == c.mem.depths.Keys
  {
  }

  /** A crystal that was just recovered. */
  lemma ReplayedInv(log: seq<Atom>)
    requires Ordered(log)
    ensures R.Inv(R.Crystal(Replay(log), log), log)
  {
    hide Genuine, Ordered, Replay, R.Held;
    R.ReplayHeld(log);
    ReplayRest(log);
  }
}
