/**
 What the byte counters of both frontier caches count (internal/storage/frontier_cache.go, estimateAtomBytes): every resident,
 with the length of its path and of its string or byte payload.
 */
module ByteAccounting {
  import opened Core
  import opened FrontierSpec
  import opened FrontierShard
  import opened ShardedFrontier
  import opened ShardedCache
  import F = FrontierCache

  // ---------------------------------------------------------------- one atom

  function PayloadLength(e: Expr): nat {
    if e.EConst? && e.v.VString? then |e.v.s| else if e.EConst? && e.v.VBytes? then |e.v.bs| else 0
  }

  /** The estimate: 236 bytes and the path for a constant, eight more for byte strings, the payload; 268 for other expressions. */
  lemma EstimateExact(path: string, a: Atom)
    ensures EstimateBytes(path, a) ==
            |path| + PayloadLength(a.expr) + (if !a.expr.EConst? then 268 else if a.expr.v.VBytes? then 244 else 236)
  {
  }

  /** A string longer by n counts n more; a new path counts its length and the string's beside the overhead of 236. */
  lemma StringWriteCounts(view: View, path: string, s: string, clock: nat, now: int, d: Deadline, bytes: int)
    requires var a := MintAtom(EConst(VString(s)), path, clock, now, d); ApplyTo(view, a)[path] == a
    ensures var counted := AppliedBytes(view, MintAtom(EConst(VString(s)), path, clock, now, d), bytes);
            && (path !in view ==> counted == bytes + 236 + |path| + |s|)
            && (path in view && view[path].expr.EConst? && view[path].expr.v.VString? ==> counted == bytes + |s| - |view[path].expr.v.s|)
  {
  }

  // ---------------------------------------------------------------- any listing of the residents

  lemma {:induction false} SumPermuted(ps: seq<string>, qs: seq<string>, entries: View)
    requires NoDup(ps) && NoDup(qs) && (forall p :: p in ps <==> p in qs) && forall p <- ps :: p in entries
    ensures SumBytes(ps, entries) == SumBytes(qs, entries)
  {
    hide EstimateBytes, SumBytes, RemoveFrom, NoDup;
    if ps == [] {
      NoneListed(qs);
    } else {
      var p, rest := ps[0], ps[1..];
      TailNoDup(ps);
      RemoveFromMembers(qs, p);
      SumRemove(qs, p, entries);
      SumPermuted(rest, RemoveFrom(qs, p), entries);
      SumHead(ps, entries);
    }
  }

  lemma NoneListed(qs: seq<string>)
    requires forall p :: p !in qs
    ensures qs == []
  {
    SomeListed(qs);
  }

  lemma SomeListed(qs: seq<string>)
    ensures qs == [] || exists p :: p in qs
  {
    if qs != [] { assert qs[0] in qs; }
  }

  lemma TailNoDup(ps: seq<string>)
    requires NoDup(ps) && ps != []
    ensures NoDup(ps[1..]) && ps[0] !in ps[1..] && forall p :: p in ps <==> p == ps[0] || p in ps[1..]
  {
    assert ps == [ps[0]] + ps[1..];
  }

  lemma SumHead(ps: seq<string>, entries: View)
    requires ps != [] && ps[0] in entries
    ensures SumBytes(ps, entries) == EstimateBytes(ps[0], entries[ps[0]]) + SumBytes(ps[1..], entries)
  {
    hide EstimateBytes;
  }

  /** The total over the shards is the sum over the residents, however they are listed. */
  lemma {:induction false} TotalIsResidents(shards: seq<Shard>, place: Hasher, ps: seq<string>)
    requires Placed(shards, place) && ShardsOk(shards)
    requires NoDup(ps) && SameMembers(ps, ViewOf(shards, place).Keys)
    ensures TotalBytes(shards) == SumBytes(ps, ViewOf(shards, place))
    decreases |ps|
  {
    hide ShardOk, ViewOf, TotalBytes, SumBytes, EstimateBytes, NoDup, Drop;
    var view := ViewOf(shards, place);
    if ps == [] {
      NothingResident(shards, place);
    } else {
      var p := ps[0];
      var i := place(p) % SHARDS;
      assert p in view;
      ViewAt(shards, place, p);
      var s := Drop(shards[i], p);
      DropOne(shards, place, p);
      TailNoDup(ps);
      TotalIsResidents(shards[i := s], place, ps[1..]);
      SumHead(ps, view);
      SumFrame(ps[1..], view, view - {p});
      TotalUpdate(shards, i, s);
    }
  }

  lemma DropOne(shards: seq<Shard>, place: Hasher, p: string)
    requires Placed(shards, place) && ShardsOk(shards) && p in shards[place(p) % SHARDS].entries
    ensures var i := place(p) % SHARDS;
            var after := shards[i := Drop(shards[i], p)];
            && Placed(after, place) && ShardsOk(after) && ViewOf(after, place) == ViewOf(shards, place) - {p}
            && Drop(shards[i], p).bytes == shards[i].bytes - EstimateBytes(p, shards[i].entries[p])
            && p in ViewOf(shards, place) && ViewOf(shards, place)[p] == shards[i].entries[p]
  {
    hide ShardOk, ViewOf, EstimateBytes;
    var i := place(p) % SHARDS;
    var s := Drop(shards[i], p);
    DropOk(shards[i], p);
    ViewUpdate(shards, place, i, s);
    var view, view' := ViewOf(shards, place), ViewOf(shards[i := s], place);
    forall q ensures ResidentAt(view', q) == ResidentAt(view - {p}, q) { ViewAt(shards, place, q); }
    ViewsEqual(view', view - {p});
    ViewAt(shards, place, p);
  }

  lemma NothingResident(shards: seq<Shard>, place: Hasher)
    requires Placed(shards, place) && ShardsOk(shards) && ViewOf(shards, place).Keys == {}
    ensures TotalBytes(shards) == 0 && SumBytes([], ViewOf(shards, place)) == 0
  {
    hide ViewOf, EstimateBytes;
    forall i | 0 <= i < |shards| ensures shards[i].bytes == 0 {
      assert ShardOk(shards[i]);
      forall p ensures p !in shards[i].lru {
        ViewAt(shards, place, p);
        PlacedAt(shards, place, i, p);
      }
      NoneListed(shards[i].lru);
    }
    TotalOfEmpty(shards);
  }

  lemma PlacedAt(shards: seq<Shard>, place: Hasher, i: nat, p: string)
    requires Placed(shards, place) && i < SHARDS
    ensures p in shards[i].entries ==> place(p) % SHARDS == i
  {
  }

  /** Path and payload lengths of some residents. */
  function PayloadSum(ps: seq<string>, view: View): nat {
    if ps == [] then 0 else (if ps[0] in view then |ps[0]| + PayloadLength(view[ps[0]].expr) else 0) + PayloadSum(ps[1..], view)
  }

  lemma {:induction false} PayloadCounted(ps: seq<string>, view: View)
    ensures PayloadSum(ps, view) + 236 * Residents(ps, view) <= SumBytes(ps, view)
  {
    hide EstimateBytes;
    if ps != [] {
      PayloadCounted(ps[1..], view);
      if ps[0] in view { EstimateExact(ps[0], view[ps[0]]); }
    }
  }

  function Residents(ps: seq<string>, view: View): nat {
    if ps == [] then 0 else (if ps[0] in view then 1 else 0) + Residents(ps[1..], view)
  }

  lemma {:induction false} AllResident(ps: seq<string>, view: View)
    requires forall p <- ps :: p in view
    ensures Residents(ps, view) == |ps|
  {
    if ps != [] { AllResident(ps[1..], view); }
  }

  /**
   In every valid cache the counter is the sum of the estimates of the residents, however they are listed, and so at least the
   length of all paths and payloads beside 236 bytes for each.
   */
  lemma CounterIsResidents(c: ShardedFrontierCache, ps: seq<string>)
    requires c.Valid() && NoDup(ps) && SameMembers(ps, c.View().Keys)
    ensures c.currentBytes == SumBytes(ps, c.View()) >= PayloadSum(ps, c.View()) + 236 * |ps|
  {
    hide ViewOf, SumBytes, NoDup, PayloadSum, Residents, Inv, ShardsOk, TotalBytes;
    TotalIsResidents(c.shards, c.xxhash, ps);
    PayloadCounted(ps, c.View());
    AllResident(ps, c.View());
  }

  /** The same of the single-lock cache. */
  lemma SingleCounterIsResidents(c: F.FrontierCache, ps: seq<string>)
    requires c.Valid() && NoDup(ps) && SameMembers(ps, c.View().Keys)
    ensures c.table.bytes == SumBytes(ps, c.View()) >= PayloadSum(ps, c.View()) + 236 * |ps|
  {
    hide SumBytes, NoDup, PayloadSum, Residents, Inv, Inverse;
    SumPermuted(c.table.lru, ps, c.View());
    PayloadCounted(ps, c.View());
    AllResident(ps, c.View());
  }
}
