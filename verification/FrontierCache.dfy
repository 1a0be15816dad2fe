/** The single-lock frontier cache (internal/storage/frontier_cache.go), the reference the sharded one is compared with. */
module FrontierCache {
  import opened Core
  import opened FrontierSpec
  import opened FrontierShard
  import opened ShardedFrontier
  import opened ShardedCache

  /** What phase one of a sweep remembers of an expired atom. */
  datatype Mark = Mark(path: string, hash: Hash)

  /** What phase two leaves: an atom goes only if it is still the one that was marked. */
  function Unmarked(view: View, marks: seq<Mark>): View {
    map p | p in view && Mark(p, view[p].hash) !in marks :: view[p]
  }

  ghost predicate MarksExpired(marks: seq<Mark>, view: View, now: int) {
    forall m :: m in marks <==> m.path in view && m.hash == view[m.path].hash && Expired(view[m.path], now)
  }

  class FrontierCache {
    /** `entries`, `hashToPath`, `lruList`, `lruNodes` and `currentBytes`. */
    var table: Shard
    var clock: nat
    const maxMemoryBytes: int

    constructor (maxBytes: int)
      ensures Valid() && View() == map[] && clock == 0 && table.bytes == 0
      ensures maxMemoryBytes == (if maxBytes <= 0 then 4 * 1024 * 1024 * 1024 else maxBytes)
    {
      maxMemoryBytes := if maxBytes <= 0 then 4 * 1024 * 1024 * 1024 else maxBytes;
      table, clock := EMPTY, 0;
      new;
      EmptyShardOk();
    }

    ghost predicate Valid()
      reads this
    {
      ShardOk(table) && Inv(State(table.entries, clock)) && maxMemoryBytes > 0
    }

    function View(): FrontierSpec.View
      reads this
    {
      table.entries
    }

    /** `AppendAtom`: always installs, then evicts from the back of the list down to the low mark. */
    method AppendAtom(expr: Expr, path: string, expires: Deadline, now: int) returns (h: Hash)
      requires Valid()
      modifies this
      ensures Valid() && clock == old(clock) + 1
      ensures var a := MintAtom(expr, path, clock, now, expires);
              var installed := Replaced(old(table), a);
              && h == a.hash
              && table.lru <= installed.lru
              && (forall p <- View().Keys :: p in installed.entries && View()[p] == installed.entries[p])
              && (if installed.bytes < maxMemoryBytes * 9 / 10 then table == installed
                  else && table.bytes <= maxMemoryBytes * 8 / 10
                       && Needed([installed], [table], table.bytes, maxMemoryBytes * 8 / 10))
      ensures old(View())[path := MintAtom(expr, path, clock, now, expires)] ==
              Replaced(old(table), MintAtom(expr, path, clock, now, expires)).entries
    {
      hide ShardOk, Genuine, EstimateBytes;
      clock := clock + 1;
      var a := MintAtom(expr, path, clock, now, expires);
      NewHash(table, clock - 1, a);
      ReplaceOk(table, a);
      NewInv(table.entries, clock - 1, a);
      table := Replaced(table, a);
      h := a.hash;
      if table.bytes >= maxMemoryBytes * 9 / 10 {
        EvictTo(maxMemoryBytes * 8 / 10);
      }
    }

    method EvictTo(target: int)
      requires Valid() && target >= 0
      modifies this`table
      ensures Valid() && table.bytes <= target && table.lru <= old(table.lru)
      ensures forall p <- View().Keys :: p in old(View()) && View()[p] == old(View())[p]
      ensures Needed([old(table)], [table], table.bytes, target)
    {
      hide ShardOk, EstimateBytes, Inv, Trimmed, Needed, Drop;
      ghost var before := [table];
      NothingEvicted(before);
      NothingNeeded(before, table.bytes, target);
      while table.bytes > target && |table.lru| > 0
        invariant Valid() && table.lru <= old(table.lru)
        invariant forall p <- View().Keys :: p in old(View()) && View()[p] == old(View())[p]
        invariant Trimmed(before, [table]) && Needed(before, [table], table.bytes, target)
        decreases |table.lru|
      {
        TrimOnce(before, [table], 0);
        NeededOnce(before, [table], 0, table.bytes, target);
        assert [table][0 := DropLast(table)] == [DropLast(table)];
        DropLastOk(table);
        DropLastEntries(table);
        RestrictInv(table.entries, DropLast(table).entries, clock);
        table := DropLast(table);
      }
      BytesTell(table);
    }

    /** `GetCurrent`. */
    method GetCurrent(path: string, now: int) returns (r: Option<Atom>)
      requires Valid()
      modifies this`table
      ensures Valid() && View() == old(View()) && r == Lookup(View(), path, now)
      ensures r.None? ==> table == old(table)
      ensures r.Some? ==> table.lru == [path] + RemoveFrom(old(table.lru), path)
    {
      hide ShardOk;
      if path !in table.entries || Expired(table.entries[path], now) { return None; }
      r := Some(table.entries[path]);
      TouchOk(table, path);
      TouchFronts(table, path);
      table := Touch(table, path);
    }

    /** Phase one of a sweep, under the read lock. */
    method CollectExpired(now: int) returns (marks: seq<Mark>)
      ensures MarksExpired(marks, View(), now)
    {
      marks := [];
      var todo := table.entries.Keys;
      while todo != {}
        invariant todo <= table.entries.Keys
        invariant forall m :: m in marks <==>
                    m.path in View() && m.path !in todo && m.hash == View()[m.path].hash && Expired(View()[m.path], now)
        decreases todo
      {
        var p :| p in todo;
        if Expired(table.entries[p], now) {
          marks := marks + [Mark(p, table.entries[p].hash)];
        }
        todo := todo - {p};
      }
    }

    /** Phase two, under the write lock, whatever was appended since phase one. */
    method DeleteMarked(marks: seq<Mark>)
      requires Valid()
      modifies this`table
      ensures Valid() && View() == Unmarked(old(View()), marks)
    {
      hide ShardOk, Inv, Unmarked, EstimateBytes;
      ghost var view := View();
      NoneUnmarked(view);
      var i := 0;
      while i < |marks|
        invariant 0 <= i <= |marks| && Valid() && View() == Unmarked(view, marks[..i])
      {
        var m := marks[i];
        assert marks[..i + 1] == marks[..i] + [m];
        UnmarkedOne(view, marks[..i], m);
        if m.path in table.entries && table.entries[m.path].hash == m.hash {
          DropOk(table, m.path);
          RestrictInv(table.entries, Drop(table, m.path).entries, clock);
          table := Drop(table, m.path);
        }
        i := i + 1;
      }
      assert marks[..|marks|] == marks;
    }

    /** A sweep with nothing in between removes exactly the expired residents. */
    method SweepExpired(now: int)
      requires Valid()
      modifies this`table
      ensures Valid() && View() == Swept(old(View()), now)
    {
      hide ShardOk;
      var marks := CollectExpired(now);
      if |marks| == 0 {
        NoMarks(View(), marks, now);
        return;
      }
      QuietSweep(View(), marks, now);
      DeleteMarked(marks);
    }
  }

  lemma QuietSweep(view: View, marks: seq<Mark>, now: int)
    requires MarksExpired(marks, view, now)
    ensures Unmarked(view, marks) == Swept(view, now)
  {
    forall p | p in view ensures Mark(p, view[p].hash) in marks <==> Expired(view[p], now) { }
  }

  lemma NoMarks(view: View, marks: seq<Mark>, now: int)
    requires MarksExpired(marks, view, now) && marks == []
    ensures Swept(view, now) == view
  {
    forall p | p in view ensures !Expired(view[p], now) {
      assert Mark(p, view[p].hash) !in marks;
    }
  }

  lemma NoneUnmarked(view: View)
    ensures Unmarked(view, []) == view
  {
  }

  lemma UnmarkedOne(view: View, marks: seq<Mark>, m: Mark)
    ensures var left := Unmarked(view, marks);
            Unmarked(view, marks + [m]) == if m.path in left && left[m.path].hash == m.hash then left - {m.path} else left
  {
  }

  /** An atom appended between the two phases of a sweep survives it. */
  lemma ConcurrentAppendSurvives(view: View, marks: seq<Mark>, now: int, clock: nat, a: Atom)
    requires MarksExpired(marks, view, now) && Inv(State(view, clock)) && Genuine(a) && a.clock > clock
    ensures var later := view[a.path := a];
            a.path in Unmarked(later, marks) && Unmarked(later, marks)[a.path] == a
  {
    hide Serialize;
    if Mark(a.path, a.hash) in marks {
      assert view[a.path].hash == a.hash;
      EqualHashEqualClock(view[a.path], a);
    }
  }

  lemma NewHash(s: Shard, clock: nat, a: Atom)
    requires ShardOk(s) && Inv(State(s.entries, clock)) && Genuine(a) && a.clock > clock
    ensures a.hash !in s.hashToPath
  {
    if a.hash in s.hashToPath {
      EqualHashEqualClock(s.entries[s.hashToPath[a.hash]], a);
    }
  }

  lemma NewInv(view: View, clock: nat, a: Atom)
    requires Inv(State(view, clock)) && Genuine(a) && a.past == [] && a.clock == clock + 1
    ensures Inv(State(view[a.path := a], clock + 1))
  {
    hide Genuine;
  }

  lemma DropLastEntries(s: Shard)
    requires s.lru != [] && s.lru[|s.lru| - 1] in s.entries
    ensures DropLast(s).entries == s.entries - {s.lru[|s.lru| - 1]}
  {
    hide EstimateBytes;
  }
}
