/**
 One shard of the frontier cache (frontierShard in internal/storage/sharded_frontier.go): five
 structures that have to describe the same resident atoms.
 */
module FrontierShard {
  import opened Core
  import opened FrontierSpec

  /**
   `lru` is the recency list, most recent first. A list element is known by the path it holds, so
   `lruNodes` is the set of paths that have one.
   */
  datatype Shard = Shard(entries: map<string, Atom>, hashToPath: map<Hash, string>, lru: seq<string>,
                         lruNodes: set<string>, bytes: int)

  /** `estimateAtomBytes`. */
  function EstimateBytes(path: string, a: Atom): (n: int)
    ensures n >= 236
  {
    220 + |path| +
    match a.expr
    case EConst(VString(s)) => 16 + |s|
    case EConst(VBytes(s)) => 24 + |s|
    case EConst(_) => 16
    case _ => 48
  }

  function SumBytes(paths: seq<string>, entries: map<string, Atom>): int {
    if paths == [] then 0 else
      (if paths[0] in entries then EstimateBytes(paths[0], entries[paths[0]]) else 0) + SumBytes(paths[1..], entries)
  }

  predicate NoDup(s: seq<string>) {
    forall i, j :: 0 <= i < j < |s| ==> s[i] != s[j]
  }

  ghost predicate SameMembers(s: seq<string>, keys: set<string>) {
    forall p :: p in s <==> p in keys
  }

  /** The hash index is the exact inverse of the resident hashes. */
  predicate Inverse(hashToPath: map<Hash, string>, entries: map<string, Atom>) {
    && (forall p <- entries.Keys :: entries[p].path == p && entries[p].hash in hashToPath && hashToPath[entries[p].hash] == p)
    && (forall h <- hashToPath.Keys :: hashToPath[h] in entries && entries[hashToPath[h]].hash == h)
  }

  /** The representation invariant of a shard. */
  ghost predicate ShardOk(s: Shard) {
    && NoDup(s.lru) && SameMembers(s.lru, s.entries.Keys) && s.lruNodes == s.entries.Keys
    && Inverse(s.hashToPath, s.entries)
    && s.bytes == SumBytes(s.lru, s.entries)
  }

  const EMPTY := Shard(map[], map[], [], {}, 0)

  // ---------------------------------------------------------------- list operations

  function RemoveFrom(s: seq<string>, p: string): seq<string> {
    if s == [] then [] else if s[0] == p then s[1..] else [s[0]] + RemoveFrom(s[1..], p)
  }

  lemma {:induction false} RemoveFromMembers(s: seq<string>, p: string)
    requires NoDup(s)
    ensures NoDup(RemoveFrom(s, p))
    ensures forall q :: q in RemoveFrom(s, p) <==> q in s && q != p
  {
    if s != [] {
      var tail := s[1..];
      assert forall q :: q in s <==> q == s[0] || q in tail;
      if s[0] == p {
        assert p !in tail;
      } else {
        RemoveFromMembers(tail, p);
        assert s[0] !in tail;
      }
    }
  }

  lemma {:induction false} SumRemove(s: seq<string>, p: string, entries: map<string, Atom>)
    requires NoDup(s) && p in s && p in entries
    ensures SumBytes(RemoveFrom(s, p), entries) == SumBytes(s, entries) - EstimateBytes(p, entries[p])
  {
    hide EstimateBytes;
    if s[0] != p {
      assert p in s[1..];
      SumRemove(s[1..], p, entries);
      assert ([s[0]] + RemoveFrom(s[1..], p))[1..] == RemoveFrom(s[1..], p);
    }
  }

  lemma {:induction false} SumFrame(s: seq<string>, entries: map<string, Atom>, entries': map<string, Atom>)
    requires forall q <- s :: ResidentAt(entries, q) == ResidentAt(entries', q)
    ensures SumBytes(s, entries) == SumBytes(s, entries')
  {
    hide EstimateBytes;
    if s != [] {
      assert ResidentAt(entries, s[0]) == ResidentAt(entries', s[0]);
      SumFrame(s[1..], entries, entries');
    }
  }

  lemma {:induction false} SumNonNegative(s: seq<string>, entries: map<string, Atom>)
    ensures SumBytes(s, entries) >= 0
    ensures s != [] && s[0] in entries ==> SumBytes(s, entries) > 0
  {
    if s != [] { SumNonNegative(s[1..], entries); }
  }

  // ---------------------------------------------------------------- shard operations

  /** `MoveToFront`. */
  function Touch(s: Shard, path: string): Shard {
    if path in s.lruNodes then s.(lru := [path] + RemoveFrom(s.lru, path)) else s
  }

  /** Taking a resident out of all five structures. */
  function Drop(s: Shard, path: string): Shard
    requires path in s.entries
  {
    Shard(s.entries - {path}, s.hashToPath - {s.entries[path].hash}, RemoveFrom(s.lru, path), s.lruNodes - {path},
          s.bytes - EstimateBytes(path, s.entries[path]))
  }

  /** Putting a new resident in. */
  function Install(s: Shard, a: Atom): Shard {
    Shard(s.entries[a.path := a], s.hashToPath[a.hash := a.path], [a.path] + s.lru, s.lruNodes + {a.path},
          s.bytes + EstimateBytes(a.path, a))
  }

  lemma ConsNoDup(p: string, s: seq<string>)
    requires NoDup(s) && p !in s
    ensures NoDup([p] + s)
  {
  }

  lemma SumCons(p: string, s: seq<string>, entries: map<string, Atom>)
    ensures SumBytes([p] + s, entries) == (if p in entries then EstimateBytes(p, entries[p]) else 0) + SumBytes(s, entries)
  {
    assert ([p] + s)[1..] == s;
  }

  lemma TouchOk(s: Shard, path: string)
    requires ShardOk(s)
    ensures ShardOk(Touch(s, path))
  {
    hide EstimateBytes, NoDup, Inverse, SumBytes, RemoveFrom;
    if path in s.lruNodes {
      var rest := RemoveFrom(s.lru, path);
      RemoveFromMembers(s.lru, path);
      SumRemove(s.lru, path, s.entries);
      SumCons(path, rest, s.entries);
      ConsNoDup(path, rest);
    }
  }

  lemma DropInverse(s: Shard, path: string)
    requires ShardOk(s) && path in s.entries
    ensures Inverse(Drop(s, path).hashToPath, Drop(s, path).entries)
  {
    hide EstimateBytes, NoDup, SumBytes, RemoveFrom;
  }

  lemma DropOk(s: Shard, path: string)
    requires ShardOk(s) && path in s.entries
    ensures ShardOk(Drop(s, path))
  {
    hide EstimateBytes, NoDup;
    DropInverse(s, path);
    hide Inverse;
    RemoveFromMembers(s.lru, path);
    SumRemove(s.lru, path, s.entries);
    SumFrame(RemoveFrom(s.lru, path), s.entries, s.entries - {path});
  }

  lemma InstallInverse(s: Shard, a: Atom)
    requires Inverse(s.hashToPath, s.entries) && a.path !in s.entries && a.hash !in s.hashToPath
    ensures Inverse(s.hashToPath[a.hash := a.path], s.entries[a.path := a])
  {
  }

  lemma InstallSum(s: Shard, a: Atom)
    requires a.path !in s.lru
    ensures SumBytes([a.path] + s.lru, s.entries[a.path := a]) == SumBytes(s.lru, s.entries) + EstimateBytes(a.path, a)
  {
    hide EstimateBytes;
    assert ([a.path] + s.lru)[1..] == s.lru;
    SumFrame(s.lru, s.entries, s.entries[a.path := a]);
  }

  lemma InstallOk(s: Shard, a: Atom)
    requires ShardOk(s) && a.path !in s.entries && a.hash !in s.hashToPath
    ensures ShardOk(Install(s, a))
  {
    hide EstimateBytes, NoDup, Inverse, SumBytes;
    ConsNoDup(a.path, s.lru);
    InstallInverse(s, a);
    InstallSum(s, a);
  }

  lemma {:induction false} RemoveLast(s: seq<string>)
    requires NoDup(s) && s != []
    ensures RemoveFrom(s, s[|s| - 1]) == s[..|s| - 1]
  {
    if |s| > 1 {
      RemoveLast(s[1..]);
      assert s[..|s| - 1] == [s[0]] + s[1..][..|s| - 2];
    }
  }

  lemma EmptyShardOk()
    ensures ShardOk(EMPTY)
  {
  }

  /** A shard with no bytes is empty, and the other way round. */
  lemma BytesTell(s: Shard)
    requires ShardOk(s)
    ensures s.bytes >= 0 && (s.bytes == 0 <==> s.lru == [])
  {
    SumNonNegative(s.lru, s.entries);
    if s.lru != [] { assert s.lru[0] in s.lru; }
  }
}
