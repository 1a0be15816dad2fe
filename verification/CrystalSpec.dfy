/**
 The log, its replay and its compaction (internal/storage/crystal.go), on values. The write-ahead
 log is a sequence of atoms.
 */
module CrystalSpec {
  import opened Core

  /** The in-memory indexes. `leaves` are the leaves of the Merkle tree. */
  datatype Mem = Mem(frontier: map<string, Hash>, parents: map<Hash, seq<Hash>>, depths: map<Hash, nat>,
                     atoms: map<Hash, Atom>, leaves: seq<Hash>, clock: nat)

  const EMPTY := Mem(map[], map[], map[], map[], [], 0)

  /** One atom of the log, in `Recover`. */
  function Take(m: Mem, a: Atom): Mem {
    Mem(m.frontier[a.path := a.hash], m.parents[a.hash := a.past], m.depths[a.hash := a.depth],
        m.atoms[a.hash := a], m.leaves + [a.hash], if a.clock > m.clock then a.clock else m.clock)
  }

  function Replay(log: seq<Atom>): Mem {
    if log == [] then EMPTY else Take(Replay(log[..|log| - 1]), log[|log| - 1])
  }

  function GetCurrent(m: Mem, path: string): Option<Atom> {
    if path in m.frontier && m.frontier[path] in m.atoms then Some(m.atoms[m.frontier[path]]) else None
  }

  /** The last atom written to a path. */
  function LastAt(log: seq<Atom>, path: string): Option<Atom> {
    if log == [] then None
    else if log[|log| - 1].path == path then Some(log[|log| - 1])
    else LastAt(log[..|log| - 1], path)
  }

  /** Genuine atoms in clock order. */
  predicate Ordered(log: seq<Atom>) {
    && (forall i :: 0 <= i < |log| ==> Genuine(log[i]) && log[i].clock > 0)
    && (forall i, j :: 0 <= i < j < |log| ==> log[i].clock < log[j].clock)
  }

  lemma DistinctHashes(log: seq<Atom>, i: nat, j: nat)
    requires Ordered(log) && i < |log| && j < |log| && log[i].hash == log[j].hash
    ensures i == j
  {
    hide Genuine;
    EqualHashEqualClock(log[i], log[j]);
  }

  /** Taking the last atom off a log. */
  lemma Snoc(log: seq<Atom>)
    requires Ordered(log) && log != []
    ensures var n := |log| - 1;
            && Ordered(log[..n]) && Genuine(log[n]) && log[n].clock > 0
            && (forall a <- log[..n] :: a.clock < log[n].clock)
            && (forall a :: a in log <==> a in log[..n] || a == log[n])
  {
    hide Genuine;
    var n := |log| - 1;
    assert log == log[..n] + [log[n]];
    forall a | a in log[..n] ensures a.clock < log[n].clock {
      var i :| 0 <= i < n && log[i] == a;
    }
  }

  lemma SnocOrdered(log: seq<Atom>, a: Atom)
    requires Ordered(log) && Genuine(a) && a.clock > 0 && forall b <- log :: b.clock < a.clock
    ensures Ordered(log + [a])
  {
    hide Genuine;
    var all := log + [a];
    forall i, j | 0 <= i < j < |all| ensures all[i].clock < all[j].clock {
      if j == |log| { assert all[i] in log; }
    }
  }

  lemma OrderedPrefix(log: seq<Atom>, n: nat)
    requires Ordered(log) && n <= |log|
    ensures Ordered(log[..n])
  {
    hide Genuine;
  }

  /** The atom index of a memory holds the atoms of the log. */
  ghost predicate IndexesLog(m: Mem, log: seq<Atom>) {
    && m.parents.Keys == m.atoms.Keys && m.depths.Keys == m.atoms.Keys
    && (forall h <- m.atoms.Keys :: m.atoms[h] in log && m.atoms[h].hash == h)
    && (forall h <- m.atoms.Keys :: m.parents[h] == m.atoms[h].past && m.depths[h] == m.atoms[h].depth)
    && (forall a <- log :: a.hash in m.atoms && m.atoms[a.hash] == a)
  }

  lemma TakeIndexes(m: Mem, log: seq<Atom>, a: Atom)
    requires IndexesLog(m, log) && forall b <- log :: b.hash != a.hash
    ensures IndexesLog(Take(m, a), log + [a])
  {
  }

  /** What replay puts into the indexes: exactly the atoms of the log. */
  lemma {:induction false} ReplayIndexes(log: seq<Atom>)
    requires Ordered(log)
    ensures IndexesLog(Replay(log), log)
  {
    hide Genuine, Take, IndexesLog;
    if log == [] {
      EmptyIndexes();
    } else {
      var n := |log| - 1;
      Snoc(log);
      ReplayIndexes(log[..n]);
      forall b | b in log[..n] ensures b.hash != log[n].hash {
        if b.hash == log[n].hash {
          var i :| 0 <= i < n && log[i] == b;
          DistinctHashes(log, i, n);
        }
      }
      TakeIndexes(Replay(log[..n]), log[..n], log[n]);
      assert log == log[..n] + [log[n]];
    }
  }

  lemma EmptyIndexes()
    ensures IndexesLog(EMPTY, [])
  {
  }

  function Hashes(log: seq<Atom>): (hs: seq<Hash>)
    ensures |hs| == |log| && forall i :: 0 <= i < |log| ==> hs[i] == log[i].hash
  {
    seq(|log|, i requires 0 <= i < |log| => log[i].hash)
  }

  lemma {:induction false} ReplayRest(log: seq<Atom>)
    requires Ordered(log)
    ensures Replay(log).leaves == Hashes(log)
    ensures Replay(log).clock == if log == [] then 0 else log[|log| - 1].clock
  {
    hide Genuine;
    if log != [] {
      var n := |log| - 1;
      OrderedPrefix(log, n);
      ReplayRest(log[..n]);
      if n > 0 { assert log[n - 1].clock < log[n].clock; }
    }
  }

  lemma {:induction false} ReplayFrontier(log: seq<Atom>, path: string)
    ensures path in Replay(log).frontier <==> LastAt(log, path).Some?
    ensures LastAt(log, path).Some? ==>
              LastAt(log, path).value in log && Replay(log).frontier[path] == LastAt(log, path).value.hash
              && LastAt(log, path).value.path == path
  {
    if log != [] { ReplayFrontier(log[..|log| - 1], path); }
  }

  /** Replay finds the last atom of every path. */
  lemma ReplayCurrent(log: seq<Atom>, path: string)
    requires Ordered(log)
    ensures GetCurrent(Replay(log), path) == LastAt(log, path)
    ensures path in Replay(log).frontier <==> LastAt(log, path).Some?
    ensures LastAt(log, path).Some? ==>
              LastAt(log, path).value in log && Replay(log).frontier[path] == LastAt(log, path).value.hash
              && LastAt(log, path).value.path == path
  {
    hide Genuine, Ordered, Replay, LastAt;
    ReplayFrontier(log, path);
    ReplayIndexes(log);
  }

  // ---------------------------------------------------------------- compaction

  function WithoutPath(log: seq<Atom>, path: string): seq<Atom> {
    if log == [] then []
    else WithoutPath(log[..|log| - 1], path) + (if log[|log| - 1].path == path then [] else [log[|log| - 1]])
  }

  /** The atoms that are still the last of their path, in log order. */
  function Compacted(log: seq<Atom>): seq<Atom> {
    if log == [] then [] else WithoutPath(Compacted(log[..|log| - 1]), log[|log| - 1].path) + [log[|log| - 1]]
  }

  lemma {:induction false} WithoutPathMembers(log: seq<Atom>, path: string)
    requires Ordered(log)
    ensures forall a :: a in WithoutPath(log, path) <==> a in log && a.path != path
    ensures Ordered(WithoutPath(log, path))
  {
    hide Genuine, Ordered;
    if log == [] {
      EmptyOrdered();
    } else {
      var n := |log| - 1;
      Snoc(log);
      WithoutPathMembers(log[..n], path);
      if log[n].path != path {
        SnocOrdered(WithoutPath(log[..n], path), log[n]);
      } else {
        assert WithoutPath(log, path) == WithoutPath(log[..n], path);
      }
    }
  }

  lemma EmptyOrdered()
    ensures Ordered([])
  {
  }

  lemma {:induction false} CompactedMembers(log: seq<Atom>)
    requires Ordered(log)
    ensures Ordered(Compacted(log))
    ensures forall a :: a in Compacted(log) <==> LastAt(log, a.path) == Some(a)
    ensures forall a <- Compacted(log) :: a in log
  {
    hide Genuine, Ordered;
    if log == [] {
      EmptyOrdered();
    } else {
      var n := |log| - 1;
      Snoc(log);
      CompactedMembers(log[..n]);
      WithoutPathMembers(Compacted(log[..n]), log[n].path);
      SnocOrdered(WithoutPath(Compacted(log[..n]), log[n].path), log[n]);
    }
  }

  lemma {:induction false} LastIsMember(log: seq<Atom>)
    ensures forall p :: LastAt(log, p).Some? ==> LastAt(log, p).value in log && LastAt(log, p).value.path == p
  {
    if log != [] { LastIsMember(log[..|log| - 1]); }
  }

  /** The last atom of a path is the one with the highest clock. */
  lemma {:induction false} LastFromMembers(log: seq<Atom>, path: string, a: Atom)
    requires Ordered(log) && a in log && a.path == path && forall b <- log :: b.path == path ==> b == a
    ensures LastAt(log, path) == Some(a)
  {
    hide Genuine;
    var n := |log| - 1;
    if log[n].path != path {
      OrderedPrefix(log, n);
      assert log == log[..n] + [log[n]];
      LastFromMembers(log[..n], path, a);
    } else {
      assert log[n] in log;
    }
  }

  /** Compaction loses no current atom. */
  lemma CompactedCurrent(log: seq<Atom>, path: string)
    requires Ordered(log)
    ensures LastAt(Compacted(log), path) == LastAt(log, path)
  {
    hide Genuine;
    CompactedMembers(log);
    LastIsMember(log);
    LastIsMember(Compacted(log));
    if LastAt(log, path).Some? {
      var a := LastAt(log, path).value;
      assert a in Compacted(log);
      forall b | b in Compacted(log) && b.path == path ensures b == a { assert LastAt(log, b.path) == Some(b); }
      LastFromMembers(Compacted(log), path, a);
    }
  }

  /** Replaying the compacted log gives the same frontier and the same clock. */
  lemma CompactedReplay(log: seq<Atom>)
    requires Ordered(log)
    ensures Ordered(Compacted(log))
    ensures Replay(Compacted(log)).frontier == Replay(log).frontier
    ensures Replay(Compacted(log)).clock == Replay(log).clock
    ensures forall p :: GetCurrent(Replay(Compacted(log)), p) == GetCurrent(Replay(log), p)
  {
    hide Genuine, Ordered, Replay;
    var c := Compacted(log);
    CompactedMembers(log);
    ReplayRest(log);
    ReplayRest(c);
    var f, g := Replay(c).frontier, Replay(log).frontier;
    forall p
      ensures p in f <==> p in g
      ensures p in f ==> f[p] == g[p]
      ensures GetCurrent(Replay(c), p) == GetCurrent(Replay(log), p)
    {
      ReplayCurrent(log, p);
      ReplayCurrent(c, p);
      CompactedCurrent(log, p);
    }
    assert f == g;
  }

  lemma SameLast(xs: seq<Atom>, ys: seq<Atom>)
    requires Ordered(xs) && Ordered(ys) && xs != [] && ys != [] && forall a :: a in xs <==> a in ys
    ensures xs[|xs| - 1] == ys[|ys| - 1]
  {
    hide Ordered;
    Snoc(xs);
    Snoc(ys);
    assert xs[|xs| - 1] in ys && ys[|ys| - 1] in xs;
  }

  /** Two clock-ordered logs with the same atoms are the same log. */
  lemma {:induction false} OrderedUnique(xs: seq<Atom>, ys: seq<Atom>)
    requires Ordered(xs) && Ordered(ys) && forall a :: a in xs <==> a in ys
    ensures xs == ys
  {
    hide Ordered;
    if xs == [] {
      assert forall i :: 0 <= i < |ys| ==> ys[i] in ys;
    } else {
      assert xs[0] in xs && xs[0] in ys;
      var n, m := |xs| - 1, |ys| - 1;
      SameLast(xs, ys);
      Snoc(xs);
      Snoc(ys);
      OrderedUnique(xs[..n], ys[..m]);
      assert xs == xs[..n] + [xs[n]] && ys == ys[..m] + [ys[m]];
    }
  }
}
