/** The sharded frontier cache (internal/storage/sharded_frontier.go). */
module ShardedFrontier {
  import opened Core
  import opened FrontierSpec
  import opened FrontierShard

  const SHARDS: nat := 32

  // ---------------------------------------------------------------- the shards together

  /** xxhash, any function will do. */
  type Hasher = string -> nat

  /** Each path lives only in its own shard. */
  ghost predicate Placed(shards: seq<Shard>, place: Hasher) {
    |shards| == SHARDS && forall i, p :: 0 <= i < SHARDS && p in shards[i].entries ==> place(p) % SHARDS == i
  }

  ghost function AllPaths(shards: seq<Shard>): set<string> {
    set i, p | 0 <= i < |shards| && p in shards[i].entries :: p
  }

  /** All residents, as one map. */
  ghost function ViewOf(shards: seq<Shard>, place: Hasher): View
    requires Placed(shards, place)
  {
    map p | p in AllPaths(shards) :: shards[place(p) % SHARDS].entries[p]
  }

  function TotalBytes(shards: seq<Shard>): int {
    if shards == [] then 0 else TotalBytes(shards[..|shards| - 1]) + shards[|shards| - 1].bytes
  }

  lemma ViewAt(shards: seq<Shard>, place: Hasher, p: string)
    requires Placed(shards, place)
    ensures ResidentAt(ViewOf(shards, place), p) == ResidentAt(shards[place(p) % SHARDS].entries, p)
  {
  }

  lemma ViewsEqual(v: View, w: View)
    requires forall p :: ResidentAt(v, p) == ResidentAt(w, p)
    ensures v == w
  {
    forall p
      ensures p in v <==> p in w
      ensures p in v ==> v[p] == w[p]
    {
      assert ResidentAt(v, p) == ResidentAt(w, p);
    }
  }

  /** Replacing one shard changes the view only on the paths of that shard. */
  lemma ViewUpdate(shards: seq<Shard>, place: Hasher, i: nat, s: Shard)
    requires Placed(shards, place) && i < SHARDS && forall p <- s.entries.Keys :: place(p) % SHARDS == i
    ensures Placed(shards[i := s], place)
    ensures forall p :: ResidentAt(ViewOf(shards[i := s], place), p) ==
                        if place(p) % SHARDS == i then ResidentAt(s.entries, p) else ResidentAt(ViewOf(shards, place), p)
  {
    hide ViewOf;
    var shards' := shards[i := s];
    forall p
      ensures ResidentAt(ViewOf(shards', place), p) ==
              if place(p) % SHARDS == i then ResidentAt(s.entries, p) else ResidentAt(ViewOf(shards, place), p)
    {
      ViewAt(shards, place, p);
      ViewAt(shards', place, p);
    }
  }

  lemma {:induction false} TotalUpdate(shards: seq<Shard>, i: nat, s: Shard)
    requires i < |shards|
    ensures TotalBytes(shards[i := s]) == TotalBytes(shards) - shards[i].bytes + s.bytes
  {
    var n := |shards| - 1;
    if i == n {
      assert shards[i := s][..n] == shards[..n];
    } else {
      TotalUpdate(shards[..n], i, s);
      assert shards[i := s][..n] == shards[..n][i := s];
    }
  }

  lemma {:induction false} TotalOfEmpty(shards: seq<Shard>)
    requires forall i :: 0 <= i < |shards| ==> shards[i].bytes == 0
    ensures TotalBytes(shards) == 0
  {
    if shards != [] { TotalOfEmpty(shards[..|shards| - 1]); }
  }

  ghost predicate ShardsOk(shards: seq<Shard>) {
    forall i :: 0 <= i < |shards| ==> ShardOk(shards[i])
  }

  /** The representation invariant of the whole cache. */
  ghost predicate CacheOk(shards: seq<Shard>, place: Hasher, clock: nat, currentBytes: int) {
    && Placed(shards, place) && ShardsOk(shards)
    && currentBytes == TotalBytes(shards)
    && Inv(State(ViewOf(shards, place), clock))
  }

  /** An atom that may be applied: minted earlier, and not resident yet. */
  ghost predicate Applicable(view: View, clock: nat, a: Atom) {
    Genuine(a) && a.past == [] && 0 < a.clock <= clock && forall p <- view.Keys :: view[p].clock != a.clock
  }

  lemma FreshHash(shards: seq<Shard>, place: Hasher, clock: nat, i: nat, a: Atom)
    requires Placed(shards, place) && ShardsOk(shards) && Inv(State(ViewOf(shards, place), clock)) && i < SHARDS
    requires Applicable(ViewOf(shards, place), clock, a)
    ensures a.hash !in shards[i].hashToPath
  {
    hide Genuine;
    if a.hash in shards[i].hashToPath {
      assert ShardOk(shards[i]);
      var p := shards[i].hashToPath[a.hash];
      ViewAt(shards, place, p);
      var b := ViewOf(shards, place)[p];
      assert b.hash == a.hash && b.clock != a.clock;
      EqualHashEqualClock(a, b);
    }
  }

  lemma ApplyInv(view: View, clock: nat, a: Atom)
    requires Inv(State(view, clock)) && Applicable(view, clock, a)
    ensures Inv(State(ApplyTo(view, a), clock))
  {
    hide Genuine, SameContent;
  }

  lemma RestrictInv(view: View, view': View, clock: nat)
    requires Inv(State(view, clock)) && forall p <- view'.Keys :: p in view && view'[p] == view[p]
    ensures Inv(State(view', clock))
  {
    hide Genuine;
  }

  /** Installing an atom over whatever its path held. */
  function Replaced(s: Shard, a: Atom): Shard {
    Install(if a.path in s.entries then Drop(s, a.path) else s, a)
  }

  lemma ReplaceOk(s: Shard, a: Atom)
    requires ShardOk(s) && a.hash !in s.hashToPath
    ensures ShardOk(Replaced(s, a)) && Replaced(s, a).entries == s.entries[a.path := a]
  {
    hide ShardOk;
    if a.path in s.entries { DropOk(s, a.path); }
    InstallOk(if a.path in s.entries then Drop(s, a.path) else s, a);
    assert s.entries - {a.path} == map p | p in s.entries && p != a.path :: s.entries[p];
    assert Replaced(s, a).entries == s.entries[a.path := a];
  }

  // ---------------------------------------------------------------- eviction

  /** What eviction keeps: a prefix of every recency list, with the atoms it had. */
  ghost predicate Trimmed(before: seq<Shard>, after: seq<Shard>) {
    |before| == |after| && forall i :: 0 <= i < |after| ==>
      after[i].lru <= before[i].lru && forall p <- after[i].entries.Keys :: p in before[i].entries && after[i].entries[p] == before[i].entries[p]
  }

  /** The entry last evicted from a shard: the one just beyond what is left of its list. */
  ghost predicate IsVictim(before: seq<Shard>, after: seq<Shard>, v: nat)
    requires |before| == |after|
  {
    v < |after| && |after[v].lru| < |before[v].lru| && before[v].lru[|after[v].lru|] in before[v].entries
  }

  ghost function LastEvictedBytes(before: seq<Shard>, after: seq<Shard>, v: nat): int
    requires |before| == |after| && IsVictim(before, after, v)
  {
    var p := before[v].lru[|after[v].lru|];
    EstimateBytes(p, before[v].entries[p])
  }

  /** No shard is left with more than a victim had before its last eviction. */
  ghost predicate Fair(before: seq<Shard>, after: seq<Shard>) {
    |before| == |after| && forall v, j :: 0 <= v < |after| && 0 <= j < |after| && IsVictim(before, after, v) ==>
      after[j].bytes <= after[v].bytes + LastEvictedBytes(before, after, v)
  }

  /** Nothing more was evicted than the target asked for: with the last evicted entry back it would be exceeded. */
  ghost predicate Needed(before: seq<Shard>, after: seq<Shard>, currentBytes: int, target: int) {
    after == before
    || (|before| == |after| && exists v :: IsVictim(before, after, v)
                                           && currentBytes + LastEvictedBytes(before, after, v) > target)
  }

  lemma PlacedIn(shards: seq<Shard>, place: Hasher, clock: nat, currentBytes: int)
    requires CacheOk(shards, place, clock, currentBytes)
    ensures Placed(shards, place)
  {
  }

  lemma NothingNeeded(before: seq<Shard>, currentBytes: int, target: int)
    ensures Needed(before, before, currentBytes, target)
  {
  }

  /** One more eviction is needed while the total is above the target. */
  lemma NeededOnce(before: seq<Shard>, shards: seq<Shard>, v: nat, currentBytes: int, target: int)
    requires Trimmed(before, shards) && ShardsOk(before) && ShardsOk(shards) && v < |shards| && shards[v].lru != []
    requires currentBytes > target
    ensures shards[v].lru[|shards[v].lru| - 1] in shards[v].entries
    ensures var after := shards[v := DropLast(shards[v])];
            Needed(before, after, currentBytes - shards[v].bytes + after[v].bytes, target)
  {
    hide ShardOk, EstimateBytes;
    DropLastOk(shards[v]);
    var after := shards[v := DropLast(shards[v])];
    var p := shards[v].lru[|shards[v].lru| - 1];
    assert before[v].lru[|after[v].lru|] == p;
    assert IsVictim(before, after, v);
    assert LastEvictedBytes(before, after, v) == EstimateBytes(p, shards[v].entries[p]);
  }

  // ---------------------------------------------------------------- recency

  /** The resident carries a higher clock than the atom. */
  predicate Outdated(view: View, a: Atom) {
    a.path in view && view[a.path].clock > a.clock
  }

  /** The path is the most recent of shard `i`, the order of the others and all other shards are as before. */
  ghost predicate FrontedIn(before: seq<Shard>, after: seq<Shard>, i: nat, path: string) {
    && |before| == |after| && i < |after|
    && after[i].lru == [path] + RemoveFrom(before[i].lru, path)
    && forall j :: 0 <= j < |after| && j != i ==> after[j] == before[j]
  }

  lemma TouchFronts(s: Shard, path: string)
    requires ShardOk(s) && path in s.entries
    ensures Touch(s, path).lru == [path] + RemoveFrom(s.lru, path)
  {
    hide EstimateBytes;
  }

  lemma FrontOf(s: Shard, a: Atom)
    requires ShardOk(s)
    ensures a.path in s.entries ==> Touch(s, a.path).lru == [a.path] + RemoveFrom(s.lru, a.path)
    ensures Replaced(s, a).lru == [a.path] + RemoveFrom(s.lru, a.path)
  {
    hide EstimateBytes;
    if a.path !in s.entries { RemoveAbsent(s.lru, a.path); }
  }

  lemma {:induction false} RemoveAbsent(s: seq<string>, p: string)
    requires p !in s
    ensures RemoveFrom(s, p) == s
  {
    if s != [] { RemoveAbsent(s[1..], p); }
  }

  ghost predicate MostLoaded(shards: seq<Shard>, v: nat) {
    v < |shards| && forall j :: 0 <= j < |shards| ==> shards[j].bytes <= shards[v].bytes
  }

  function DropLast(s: Shard): Shard
    requires s.lru != [] && s.lru[|s.lru| - 1] in s.entries
  {
    Drop(s, s.lru[|s.lru| - 1])
  }

  lemma DropLastOk(s: Shard)
    requires ShardOk(s) && s.lru != []
    ensures s.lru[|s.lru| - 1] in s.entries
    ensures ShardOk(DropLast(s)) && DropLast(s).lru == s.lru[..|s.lru| - 1] && DropLast(s).bytes < s.bytes
    ensures DropLast(s).bytes == s.bytes - EstimateBytes(s.lru[|s.lru| - 1], s.entries[s.lru[|s.lru| - 1]])
  {
    var p := s.lru[|s.lru| - 1];
    assert p in s.lru;
    DropOk(s, p);
    RemoveLast(s.lru);
  }

  lemma TrimOnce(before: seq<Shard>, shards: seq<Shard>, v: nat)
    requires Trimmed(before, shards) && ShardsOk(before) && ShardsOk(shards) && v < |shards| && shards[v].lru != []
    ensures shards[v].lru[|shards[v].lru| - 1] in shards[v].entries
    ensures Trimmed(before, shards[v := DropLast(shards[v])]) && ShardsOk(shards[v := DropLast(shards[v])])
  {
    hide ShardOk;
    DropLastOk(shards[v]);
    var after := shards[v := DropLast(shards[v])];
    forall i | 0 <= i < |after|
      ensures after[i].lru <= before[i].lru
      ensures forall p <- after[i].entries.Keys :: p in before[i].entries && after[i].entries[p] == before[i].entries[p]
    {
      if i == v { assert after[v].lru <= shards[v].lru; }
    }
  }

  lemma FairOnce(before: seq<Shard>, shards: seq<Shard>, v: nat)
    requires Trimmed(before, shards) && ShardsOk(before) && ShardsOk(shards) && Fair(before, shards)
    requires MostLoaded(shards, v) && shards[v].lru != []
    ensures shards[v].lru[|shards[v].lru| - 1] in shards[v].entries
    ensures Fair(before, shards[v := DropLast(shards[v])])
  {
    hide ShardOk;
    DropLastOk(shards[v]);
    var n := |shards[v].lru| - 1;
    var after := shards[v := DropLast(shards[v])];
    assert before[v].lru[n] == shards[v].lru[n];
    forall w, j | 0 <= w < |after| && 0 <= j < |after| && IsVictim(before, after, w)
      ensures after[j].bytes <= after[w].bytes + LastEvictedBytes(before, after, w)
    {
      assert after[j].bytes <= shards[j].bytes;
      if w != v {
        assert IsVictim(before, shards, w);
        assert LastEvictedBytes(before, after, w) == LastEvictedBytes(before, shards, w);
      }
    }
  }

  /** A clock tick keeps the residents in order, and leaves the new clock to the next atom. */
  lemma TickOk(view: View, clock: nat)
    requires Inv(State(view, clock))
    ensures Inv(State(view, clock + 1)) && forall p <- view.Keys :: view[p].clock != clock + 1
  {
    hide Genuine;
  }

  lemma ReplacedBytes(s: Shard, a: Atom)
    ensures Replaced(s, a).bytes ==
            s.bytes + EstimateBytes(a.path, a) - (if a.path in s.entries then EstimateBytes(a.path, s.entries[a.path]) else 0)
  {
    hide EstimateBytes;
  }

  /** Replacing one resident in its shard replaces it in the view. */
  lemma ReplacedView(shards: seq<Shard>, place: Hasher, i: nat, a: Atom, view: View)
    requires Placed(shards, place) && i == place(a.path) % SHARDS && view == ViewOf(shards, place)
    requires Replaced(shards[i], a).entries == shards[i].entries[a.path := a]
    ensures var after := shards[i := Replaced(shards[i], a)];
            Placed(after, place) && ViewOf(after, place) == view[a.path := a]
  {
    hide ViewOf, Replaced;
    var s := shards[i];
    ViewUpdate(shards, place, i, Replaced(s, a));
    var view' := ViewOf(shards[i := Replaced(s, a)], place);
    var wanted := view[a.path := a];
    forall p ensures ResidentAt(view', p) == ResidentAt(wanted, p) { ViewAt(shards, place, p); }
    ViewsEqual(view', wanted);
  }
}
