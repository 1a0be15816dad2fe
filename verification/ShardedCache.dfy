/**
 The operations of ShardedFrontierCache (internal/storage/sharded_frontier.go), each proved to keep
 the representation invariant and to act on the resident map as FrontierSpec says. A shard is held
 by value: each locked section replaces the shard it works on.
 */
module ShardedCache {
  import opened Core
  import opened FrontierSpec
  import opened FrontierShard
  import opened ShardedFrontier

  class ShardedFrontierCache {
    var shards: seq<Shard>
    var clock: nat
    var currentBytes: int
    const maxMemoryBytes: int
    const xxhash: Hasher

    constructor (maxBytes: int, xxhash: Hasher)
      ensures Valid() && clock == 0 && View() == map[] && currentBytes == 0
      ensures maxMemoryBytes == (if maxBytes <= 0 then 4 * 1024 * 1024 * 1024 else maxBytes)
    {
      maxMemoryBytes := if maxBytes <= 0 then 4 * 1024 * 1024 * 1024 else maxBytes;
      this.xxhash := xxhash;
      shards := seq(SHARDS, _ => EMPTY);
      clock, currentBytes := 0, 0;
      new;
      EmptyShardOk();
      TotalOfEmpty(shards);
      assert AllPaths(shards) == {};
    }

    ghost predicate Valid()
      reads this
    {
      CacheOk(shards, xxhash, clock, currentBytes) && maxMemoryBytes > 0
    }

    ghost function View(): FrontierSpec.View
      requires Valid()
      reads this
    {
      ViewOf(shards, xxhash)
    }

    function ShardFor(path: string): nat {
      xxhash(path) % SHARDS
    }

    // -------------------------------------------------------------- append

    /** The unlocked half of `AppendAtom`: a clock tick and a hash. */
    method Mint(expr: Expr, path: string, expires: Deadline, now: int) returns (a: Atom)
      requires Valid()
      modifies this`clock
      ensures Valid() && View() == old(View()) && clock == old(clock) + 1 && shards == old(shards)
      ensures a == MintAtom(expr, path, clock, now, expires) && Applicable(View(), clock, a)
    {
      hide Genuine, ShardsOk, Placed, ViewOf, TotalBytes, Inv;
      TickOk(View(), clock);
      clock := clock + 1;
      a := MintAtom(expr, path, clock, now, expires);
    }

    /** The locked half of `AppendAtom`; `installed` when it did not return early. */
    method Apply(a: Atom) returns (h: Hash, installed: bool)
      requires Valid() && Applicable(View(), clock, a)
      modifies this`shards, this`currentBytes
      ensures Valid() && View() == ApplyTo(old(View()), a)
      ensures h == View()[a.path].hash
      ensures installed == (View()[a.path] == a)
      ensures currentBytes == AppliedBytes(old(View()), a, old(currentBytes))
      ensures Outdated(old(View()), a) ==> shards == old(shards)
      ensures !Outdated(old(View()), a) ==>
                FrontedIn(old(shards), shards, ShardFor(a.path), a.path)
    {
      hide ShardOk, Inv, ViewOf, Serialize, Genuine;
      var i := ShardFor(a.path);
      var s := shards[i];
      ghost var view := View();
      ViewAt(shards, xxhash, a.path);
      ApplyInv(view, clock, a);
      FrontOf(s, a);
      if a.path in s.entries {
        var old' := s.entries[a.path];
        if old'.clock > a.clock {
          ViewsEqual(view, ApplyTo(view, a));
          return old'.hash, false;
        }
        if old'.hash != a.hash && SameContent(old', a) {
          Refresh(i, a.path);
          ViewsEqual(view, ApplyTo(view, a));
          return old'.hash, false;
        }
      }
      FreshHash(shards, xxhash, clock, i, a);
      ReplaceOk(s, a);
      Put(i, a, view);
      h, installed := a.hash, true;
    }

    /** The resident moves to the front of its recency list. */
    method Refresh(i: nat, path: string)
      requires Valid() && i < SHARDS
      modifies this`shards
      ensures Valid() && View() == old(View()) && shards == old(shards)[i := Touch(old(shards[i]), path)]
    {
      hide ShardOk, Inv, ViewOf;
      ghost var view := View();
      TouchOk(shards[i], path);
      ViewUpdate(shards, xxhash, i, Touch(shards[i], path));
      TotalUpdate(shards, i, Touch(shards[i], path));
      forall p ensures ResidentAt(ViewOf(shards[i := Touch(shards[i], path)], xxhash), p) == ResidentAt(view, p) {
        ViewAt(shards, xxhash, p);
      }
      ViewsEqual(ViewOf(shards[i := Touch(shards[i], path)], xxhash), view);
      shards := shards[i := Touch(shards[i], path)];
    }

    method Put(i: nat, a: Atom, ghost view: FrontierSpec.View)
      requires Valid() && i == ShardFor(a.path) && view == View()
      requires ShardOk(Replaced(shards[i], a)) && Replaced(shards[i], a).entries == shards[i].entries[a.path := a]
      requires Inv(State(ApplyTo(view, a), clock)) && ApplyTo(view, a) == view[a.path := a]
      modifies this`shards, this`currentBytes
      ensures Valid() && View() == view[a.path := a] && shards == old(shards)[i := Replaced(old(shards[i]), a)]
      ensures currentBytes == old(currentBytes) + EstimateBytes(a.path, a)
                              - (if a.path in view then EstimateBytes(a.path, view[a.path]) else 0)
    {
      hide ShardOk, Inv, ViewOf, EstimateBytes, Replaced, TotalBytes;
      var s := shards[i];
      if a.path in s.entries {
        currentBytes := currentBytes - EstimateBytes(a.path, s.entries[a.path]);
      }
      currentBytes := currentBytes + EstimateBytes(a.path, a);
      ViewAt(shards, xxhash, a.path);
      ReplacedBytes(s, a);
      TotalUpdate(shards, i, Replaced(s, a));
      ReplacedView(shards, xxhash, i, a, view);
      shards := shards[i := Replaced(s, a)];
    }

    /** Below nine tenths of the ceiling, or trimmed to eight. */
    predicate Bounded()
      reads this`currentBytes
    {
      10 * currentBytes < 9 * maxMemoryBytes || 10 * currentBytes <= 8 * maxMemoryBytes
    }

    /**
     `AppendAtom`. The locked half leaves `mid`: the specified residents, with the path at the front of its recency list
     unless the atom was outdated. Below the ceiling that is all, and a write that is dropped or deduplicated evicts
     nothing. At the ceiling entries go fairly from the back of the recency lists of `mid`, no further than the low mark.
     */
    method AppendAtom(expr: Expr, path: string, expires: Deadline, now: int) returns (h: Hash, ghost mid: seq<Shard>)
      requires Valid()
      modifies this
      ensures Valid() && clock == old(clock) + 1
      ensures var a := MintAtom(expr, path, clock, now, expires);
              var applied, bytes := ApplyTo(old(View()), a), AppliedBytes(old(View()), a, old(currentBytes));
              && h == applied[path].hash
              && Placed(mid, xxhash) && ViewOf(mid, xxhash) == applied
              && (if Outdated(old(View()), a) then mid == old(shards) else FrontedIn(old(shards), mid, ShardFor(path), path))
              && (if applied[path] != a || bytes < maxMemoryBytes * 9 / 10
                  then shards == mid && View() == applied && currentBytes == bytes
                  else && currentBytes <= maxMemoryBytes * 8 / 10
                       && Trimmed(mid, shards) && Fair(mid, shards)
                       && Needed(mid, shards, currentBytes, maxMemoryBytes * 8 / 10)
                       && forall p <- View().Keys :: p in applied && View()[p] == applied[p])
      ensures old(Bounded()) ==> Bounded()
    {
      hide CacheOk, ViewOf, Serialize, EstimateBytes, Placed, Trimmed, Fair, Needed, FrontedIn;
      var a := Mint(expr, path, expires, now);
      var installed;
      h, installed := Apply(a);
      mid := shards;
      PlacedIn(shards, xxhash, clock, currentBytes);
      if installed && currentBytes >= maxMemoryBytes * 9 / 10 {
        EvictToTarget(maxMemoryBytes * 8 / 10);
      }
    }

    // -------------------------------------------------------------- eviction

    /** The scan for the shard with the most bytes. */
    method FindVictim() returns (v: nat)
      requires Valid()
      ensures MostLoaded(shards, v)
    {
      hide ShardOk, Inv, TotalBytes;
      v := 0;
      var maxB := shards[0].bytes;
      var i := 1;
      while i < |shards|
        invariant 1 <= i <= |shards| && v < i && maxB == shards[v].bytes
        invariant forall j :: 0 <= j < i ==> shards[j].bytes <= maxB
      {
        if shards[i].bytes > maxB {
          maxB, v := shards[i].bytes, i;
        }
        i := i + 1;
      }
    }

    /** Evicting the least recently used entry of one shard. */
    method EvictOldest(v: nat)
      requires Valid() && v < SHARDS && shards[v].lru != []
      modifies this`shards, this`currentBytes
      ensures Valid() && old(shards[v].lru[|shards[v].lru| - 1] in shards[v].entries)
      ensures shards == old(shards)[v := DropLast(old(shards[v]))]
      ensures currentBytes == old(currentBytes) - old(shards[v]).bytes + shards[v].bytes < old(currentBytes)
      ensures forall p <- View().Keys :: p in old(View()) && View()[p] == old(View())[p]
    {
      hide ShardOk, Inv, ViewOf, EstimateBytes;
      ghost var view := View();
      var s := shards[v];
      DropLastOk(s);
      var p := s.lru[|s.lru| - 1];
      currentBytes := currentBytes - EstimateBytes(p, s.entries[p]);
      ViewUpdate(shards, xxhash, v, DropLast(s));
      TotalUpdate(shards, v, DropLast(s));
      ghost var view' := ViewOf(shards[v := DropLast(s)], xxhash);
      forall q | q in view' ensures q in view && view'[q] == view[q] {
        ViewAt(shards, xxhash, q);
        assert ResidentAt(view', q) == if xxhash(q) % SHARDS == v then ResidentAt(DropLast(s).entries, q) else ResidentAt(view, q);
      }
      RestrictInv(view, view', clock);
      shards := shards[v := DropLast(s)];
    }

    /**
     `evictToTarget`, for any target: ends at or below it or with nothing left, keeps a
     most-recent-first prefix of every recency list, spreads the evictions fairly, and stops as soon as it may.
     */
    method EvictToTarget(target: int)
      requires Valid()
      modifies this`shards, this`currentBytes
      ensures Valid()
      ensures currentBytes <= target || (currentBytes == 0 && target < 0)
      ensures Trimmed(old(shards), shards) && Fair(old(shards), shards)
      ensures forall p <- View().Keys :: p in old(View()) && View()[p] == old(View())[p]
      ensures Needed(old(shards), shards, currentBytes, target)
    {
      hide ShardOk, Inv, ViewOf, Fair, Trimmed, Needed;
      ghost var before := shards;
      NothingEvicted(before);
      NothingNeeded(before, currentBytes, target);
      while currentBytes > target
        invariant Valid() && ShardsOk(before)
        invariant Trimmed(before, shards) && Fair(before, shards)
        invariant forall p <- View().Keys :: p in old(View()) && View()[p] == old(View())[p]
        invariant Needed(before, shards, currentBytes, target)
        decreases currentBytes - target
      {
        var v := FindVictim();
        BytesTell(shards[v]);
        if shards[v].bytes <= 0 {
          AllEmpty(shards, v);
          return;
        }
        TrimOnce(before, shards, v);
        FairOnce(before, shards, v);
        NeededOnce(before, shards, v, currentBytes, target);
        EvictOldest(v);
      }
    }

    // -------------------------------------------------------------- reads

    /** `GetCurrent`: a live atom, which becomes the most recent of its shard. */
    method GetCurrent(path: string, now: int) returns (r: Option<Atom>)
      requires Valid()
      modifies this`shards
      ensures Valid() && View() == old(View())
      ensures r == Lookup(View(), path, now)
      ensures r.None? ==> shards == old(shards)
      ensures r.Some? ==> FrontedIn(old(shards), shards, ShardFor(path), path)
    {
      hide ShardOk, Inv, ViewOf;
      var i := ShardFor(path);
      ViewAt(shards, xxhash, path);
      if path !in shards[i].entries || Expired(shards[i].entries[path], now) { return None; }
      r := Some(shards[i].entries[path]);
      NodeOf(shards[i], path);
      TouchFronts(shards[i], path);
      Refresh(i, path);
    }

    /** `GetAtom`: the scan of all hash indexes finds exactly the live resident with that hash. */
    method GetAtom(hash: Hash, now: int) returns (r: Option<Atom>)
      requires Valid()
      ensures r.Some? ==> r.value.hash == hash && Lookup(View(), r.value.path, now) == r
      ensures r.None? ==> forall p <- View().Keys :: View()[p].hash == hash ==> Expired(View()[p], now)
    {
      hide ViewOf, Genuine;
      var i := 0;
      while i < |shards|
        invariant 0 <= i <= |shards|
        invariant forall p <- View().Keys :: ShardFor(p) < i ==> View()[p].hash != hash
      {
        var s := shards[i];
        assert ShardOk(s);
        if hash in s.hashToPath {
          var path := s.hashToPath[hash];
          ViewAt(shards, xxhash, path);
          HashNamesOne(View(), clock, path, hash);
          if Expired(s.entries[path], now) { return None; }
          return Some(s.entries[path]);
        }
        forall p | p in View() && ShardFor(p) == i ensures View()[p].hash != hash { ViewAt(shards, xxhash, p); }
        i := i + 1;
      }
      return None;
    }

    /** `VerifyVersionVector`. */
    method VerifyVersionVector(vv: map<string, Hash>, now: int) returns (ok: bool)
      requires Valid()
      ensures ok == Verifies(View(), vv, now)
    {
      hide ViewOf, CacheOk, Holds;
      var todo := vv.Keys;
      while todo != {}
        invariant todo <= vv.Keys
        invariant forall p <- vv.Keys :: p !in todo ==> Holds(View(), p, vv[p], now)
        decreases todo
      {
        var path :| path in todo;
        var holds := Receipt(path, vv[path], now);
        if !holds { return false; }
        todo := todo - {path};
      }
      ok := true;
    }

    /** The check of one path, under its shard's read lock. */
    method Receipt(path: string, h: Hash, now: int) returns (holds: bool)
      requires Valid()
      ensures holds == Holds(View(), path, h, now)
    {
      var s := shards[ShardFor(path)];
      ViewAt(shards, xxhash, path);
      holds := path in s.entries && s.entries[path].hash == h && !Expired(s.entries[path], now);
    }

    /** `FindChangedPaths`. */
    method FindChangedPaths(vv: map<string, Hash>, now: int) returns (buf: seq<string>)
      requires Valid()
      ensures forall p :: p in buf <==> p in ChangedPaths(View(), vv, now)
      ensures |buf| == |ChangedPaths(View(), vv, now)|
    {
      hide ViewOf, CacheOk, Holds, Scanned;
      buf := [];
      var todo := vv.Keys;
      ghost var changed := ChangedPaths(View(), vv, now);
      ScanStart(changed, todo);
      while todo != {}
        invariant todo <= vv.Keys && Scanned(buf, changed, todo)
        decreases todo
      {
        var path :| path in todo;
        var holds := Receipt(path, vv[path], now);
        ScanStep(buf, changed, todo, path);
        if !holds {
          buf := buf + [path];
        }
        todo := todo - {path};
      }
      ScanEnd(buf, changed);
    }

    // -------------------------------------------------------------- sweep

    /** One tick of `sweepExpired`: exactly the expired residents go. */
    method SweepExpired(now: int)
      requires Valid()
      modifies this`shards, this`currentBytes
      ensures Valid() && View() == Swept(old(View()), now)
    {
      hide ShardOk, Inv, ViewOf;
      ghost var view := View();
      var i := 0;
      while i < SHARDS
        invariant 0 <= i <= SHARDS && Valid()
        invariant forall p :: ResidentAt(View(), p) ==
                    if ShardFor(p) < i then ResidentAt(Swept(view, now), p) else ResidentAt(view, p)
      {
        SweepShard(i, now);
        i := i + 1;
      }
      ViewsEqual(View(), Swept(view, now));
    }

    method SweepShard(i: nat, now: int)
      requires Valid() && i < SHARDS
      modifies this`shards, this`currentBytes
      ensures Valid()
      ensures forall p :: ResidentAt(View(), p) ==
                if ShardFor(p) == i then ResidentAt(Swept(old(View()), now), p) else ResidentAt(old(View()), p)
    {
      hide ShardOk, Inv, ViewOf, Swept, ResidentAt, Expired;
      ghost var view := View();
      var todo := shards[i].entries.Keys;
      NothingElsewhere(shards, xxhash, i, now);
      while todo != {}
        invariant Valid() && todo <= shards[i].entries.Keys
        invariant forall p :: ResidentAt(View(), p) ==
                    if ShardFor(p) == i && p !in todo then ResidentAt(Swept(view, now), p) else ResidentAt(view, p)
        decreases todo
      {
        var path :| path in todo;
        ghost var before := View();
        ViewAt(shards, xxhash, path);
        PlacedHere(shards, xxhash, i, path);
        assert ResidentAt(before, path) == ResidentAt(view, path);
        SweptOne(view, before, path, shards[i].entries[path], now);
        if Expired(shards[i].entries[path], now) {
          DropFrom(i, path);
        }
        todo := todo - {path};
      }
    }

    method DropFrom(i: nat, path: string)
      requires Valid() && i < SHARDS && path in shards[i].entries
      modifies this`shards, this`currentBytes
      ensures Valid() && shards[i].entries == old(shards[i].entries) - {path}
      ensures View() == old(View()) - {path}
    {
      hide ShardOk, Inv, ViewOf, EstimateBytes;
      ghost var view := View();
      var s := shards[i];
      DropOk(s, path);
      currentBytes := currentBytes - EstimateBytes(path, s.entries[path]);
      ViewUpdate(shards, xxhash, i, Drop(s, path));
      TotalUpdate(shards, i, Drop(s, path));
      ghost var view' := ViewOf(shards[i := Drop(s, path)], xxhash);
      forall q ensures ResidentAt(view', q) == ResidentAt(view - {path}, q) {
        ViewAt(shards, xxhash, q);
        assert q == path ==> xxhash(q) % SHARDS == i;
      }
      ViewsEqual(view', view - {path});
      RestrictInv(view, view', clock);
      shards := shards[i := Drop(s, path)];
    }
  }

  /** The byte counter after the locked half of an append. */
  ghost function AppliedBytes(view: View, a: Atom, bytes: int): int {
    if ApplyTo(view, a)[a.path] != a then bytes
    else bytes + EstimateBytes(a.path, a) - (if a.path in view then EstimateBytes(a.path, view[a.path]) else 0)
  }

  lemma NothingEvicted(shards: seq<Shard>)
    ensures Trimmed(shards, shards) && Fair(shards, shards)
  {
  }

  lemma AllEmpty(shards: seq<Shard>, v: nat)
    requires ShardsOk(shards) && MostLoaded(shards, v) && shards[v].bytes <= 0
    ensures TotalBytes(shards) == 0
  {
    forall i | 0 <= i < |shards| ensures shards[i].bytes == 0 { BytesTell(shards[i]); }
    TotalOfEmpty(shards);
  }

  lemma NodeOf(s: Shard, path: string)
    requires ShardOk(s) && path in s.entries
    ensures path in s.lruNodes
  {
  }

  lemma HashNamesOne(view: View, clock: nat, path: string, hash: Hash)
    requires Inv(State(view, clock)) && path in view && view[path].hash == hash
    ensures forall p <- view.Keys :: view[p].hash == hash ==> p == path
    ensures view[path].path == path
  {
    hide Genuine;
    forall p | p in view && view[p].hash == hash ensures p == path { EqualHashEqualClock(view[p], view[path]); }
  }

  /** Paths of the shard that are not resident are not resident after a sweep. */
  lemma NothingElsewhere(shards: seq<Shard>, place: Hasher, i: nat, now: int)
    requires Placed(shards, place) && i < SHARDS
    ensures var view := ViewOf(shards, place);
            forall p :: place(p) % SHARDS == i && p !in shards[i].entries ==> ResidentAt(Swept(view, now), p) == ResidentAt(view, p)
  {
    forall p | place(p) % SHARDS == i && p !in shards[i].entries ensures p !in ViewOf(shards, place) { ViewAt(shards, place, p); }
  }

  lemma PlacedHere(shards: seq<Shard>, place: Hasher, i: nat, path: string)
    requires Placed(shards, place) && i < SHARDS && path in shards[i].entries
    ensures place(path) % SHARDS == i && ResidentAt(shards[i].entries, path) == Some(shards[i].entries[path])
  {
  }

  /** What sweeping one resident does to the view. */
  lemma SweptOne(view: View, before: View, path: string, a: Atom, now: int)
    requires ResidentAt(before, path) == ResidentAt(view, path) == Some(a)
    ensures ResidentAt(Swept(view, now), path) == if Expired(a, now) then None else Some(a)
    ensures forall p :: ResidentAt(before - {path}, p) == if p == path then None else ResidentAt(before, p)
  {
  }
}
