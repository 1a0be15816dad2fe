/**
 * `runCDCApplier` (main.go) in place: a loop over events and their paths that reads and appends to the sharded cache,
 * memory ceiling included.
 */
module CdcApplier {
  import opened Core
  import opened FrontierSpec
  import opened CdcSpec
  import opened ShardedCache
  import SF = ShardedFrontier

  /** The cache as the value the stream theorems speak about. */
  ghost function StateOf(local: ShardedFrontierCache): State
    requires local.Valid()
    reads local
  {
    State(local.View(), local.clock)
  }

  /** An append is the specified step, less whatever the ceiling evicts. */
  method AppendTo(local: ShardedFrontierCache, expr: Expr, path: string, expires: Deadline, now: int)
    returns (ghost gone: set<string>)
    requires local.Valid()
    modifies local
    ensures local.Valid()
    ensures var s := Step(old(StateOf(local)), Append(expr, path, expires, now));
            StateOf(local) == s.(view := s.view - gone)
  {
    hide ShardedFrontierCache.Valid, ShardedFrontierCache.View, AppliedBytes, FrontierSpec.Apply;
    hide MintAtom, SF.Trimmed, SF.Fair, SF.Needed, SF.FrontedIn, SF.Outdated, SF.Placed, SF.ViewOf;
    ghost var s := Step(StateOf(local), Append(expr, path, expires, now));
    var _, _ := local.AppendAtom(expr, path, expires, now);
    gone := s.view.Keys - local.View().Keys;
    assert local.View() == s.view - gone;
  }

  /** One path of one event. */
  method ApplyPath(local: ShardedFrontierCache, sprint: Value -> string, evt: ChangeEvent, path: string, now: int)
    returns (ghost gone: set<string>)
    requires local.Valid()
    modifies local
    ensures local.Valid()
    ensures var s := Deliver(old(StateOf(local)), sprint, evt, path, now);
            StateOf(local) == s.(view := s.view - gone)
  {
    hide ShardedFrontierCache.Valid, ShardedFrontierCache.View, Step, Lookup;
    gone := {};
    if evt.action == "DELETE" {
      gone := AppendTo(local, EConst(VNull), path, Never, now);
      return;
    }
    var lastColon := LastColon(path);
    if lastColon != -1 {
      var column := path[lastColon + 1..];
      if column in evt.newValues {
        var valStr := evt.newValues[column];
        var expiresAt := Never;
        var current := local.GetCurrent(path, now);
        if current.Some? {
          if current.value.phys > evt.commit {
            return;
          }
          if current.value.expr.EConst? && sprint(current.value.expr.v) == valStr {
            return;
          }
          expiresAt := current.value.expires;
        }
        gone := AppendTo(local, EConst(VString(valStr)), path, expiresAt, now);
      }
    }
  }

  /** The deliveries of a run, evictions left out. */
  function Puts(run: seq<Micro>): seq<Micro> {
    if run == [] then []
    else Puts(run[..|run| - 1]) + (if run[|run| - 1].Put? then [run[|run| - 1]] else [])
  }

  lemma PutsOf(run: seq<Micro>, put: Micro, drop: Micro)
    requires put.Put? && drop.Drop?
    ensures Puts(run + [put, drop]) == Puts(run) + [put]
  {
    var r := run + [put];
    assert r[..|r| - 1] == run;
    assert (run + [put, drop])[..|r|] == r;
  }

  lemma RunOf(s: State, sprint: Value -> string, run: seq<Micro>, put: Micro, drop: Micro)
    ensures RunFrom(s, sprint, run + [put, drop]) ==
            MicroStep(MicroStep(RunFrom(s, sprint, run), sprint, put), sprint, drop)
  {
    var r := run + [put];
    assert r[..|r| - 1] == run;
    assert (run + [put, drop])[..|r|] == r;
  }

  /** What is delivered for the first `n` paths of an event, the k-th delivery of all at time `time(k)`. */
  function Schedule(evt: ChangeEvent, n: nat, from: nat, time: nat -> int): seq<Micro>
    requires n <= |evt.paths|
  {
    if n == 0 then [] else Schedule(evt, n - 1, from, time) + [Put(evt, evt.paths[n - 1], time(from + n - 1))]
  }

  function ScheduleAll(events: seq<ChangeEvent>, time: nat -> int): seq<Micro> {
    if events == [] then []
    else
      var before := ScheduleAll(events[..|events| - 1], time);
      var evt := events[|events| - 1];
      before + Schedule(evt, |evt.paths|, |before|, time)
  }

  /** One event: its paths in order. */
  method ApplyEvent(local: ShardedFrontierCache, sprint: Value -> string, evt: ChangeEvent, from: nat, time: nat -> int)
    returns (ghost run: seq<Micro>)
    requires local.Valid()
    modifies local
    ensures local.Valid() && StateOf(local) == RunFrom(old(StateOf(local)), sprint, run)
    ensures Puts(run) == Schedule(evt, |evt.paths|, from, time)
  {
    hide ShardedFrontierCache.Valid, ShardedFrontierCache.View, Deliver, RunFrom, Puts;
    run := [];
    EmptyRun(StateOf(local), sprint);
    var i := 0;
    while i < |evt.paths|
      invariant i <= |evt.paths| && local.Valid()
      invariant StateOf(local) == RunFrom(old(StateOf(local)), sprint, run)
      invariant Puts(run) == Schedule(evt, i, from, time)
    {
      var now := time(from + i);
      ghost var gone := ApplyPath(local, sprint, evt, evt.paths[i], now);
      RunOf(old(StateOf(local)), sprint, run, Put(evt, evt.paths[i], now), Drop(gone));
      PutsOf(run, Put(evt, evt.paths[i], now), Drop(gone));
      run := run + [Put(evt, evt.paths[i], now), Drop(gone)];
      i := i + 1;
    }
  }

  lemma EmptyRun(s: State, sprint: Value -> string)
    ensures RunFrom(s, sprint, []) == s && Puts([]) == []
  {
  }

  lemma {:induction false} PutsConcat(a: seq<Micro>, b: seq<Micro>)
    ensures Puts(a + b) == Puts(a) + Puts(b)
  {
    if b == [] {
      assert a + b == a;
    } else {
      PutsConcat(a, b[..|b| - 1]);
      assert (a + b)[..|a + b| - 1] == a + b[..|b| - 1];
    }
  }

  /**
   * The whole channel. The cache ends as a run of the stream model: the scheduled deliveries in order, with evictions
   * in between, so every stream theorem speaks about it.
   */
  method ApplyEvents(local: ShardedFrontierCache, sprint: Value -> string, events: seq<ChangeEvent>, time: nat -> int)
    returns (ghost run: seq<Micro>)
    requires local.Valid()
    modifies local
    ensures local.Valid() && StateOf(local) == RunFrom(old(StateOf(local)), sprint, run)
    ensures Puts(run) == ScheduleAll(events, time)
  {
    hide ShardedFrontierCache.Valid, ShardedFrontierCache.View, RunFrom, Puts, Schedule;
    run := [];
    EmptyRun(StateOf(local), sprint);
    var i, from := 0, 0;
    assert events[..0] == [];
    while i < |events|
      invariant i <= |events| && local.Valid()
      invariant StateOf(local) == RunFrom(old(StateOf(local)), sprint, run)
      invariant Puts(run) == ScheduleAll(events[..i], time) && from == |Puts(run)|
    {
      ghost var more := ApplyEvent(local, sprint, events[i], from, time);
      RunConcat(old(StateOf(local)), sprint, run, more);
      PutsConcat(run, more);
      assert events[..i + 1][..i] == events[..i];
      run := run + more;
      ScheduleLength(events[i], |events[i].paths|, from, time);
      from := from + |events[i].paths|;
      i := i + 1;
    }
    assert events[..i] == events;
  }

  lemma {:induction false} ScheduleLength(evt: ChangeEvent, n: nat, from: nat, time: nat -> int)
    requires n <= |evt.paths|
    ensures |Schedule(evt, n, from, time)| == n
  {
    if n > 0 { ScheduleLength(evt, n - 1, from, time); }
  }

  lemma {:induction false} PutsKept(run: seq<Micro>, i: nat)
    requires i < |run| && run[i].Put?
    ensures run[i] in Puts(run)
  {
    var n := |run| - 1;
    if i < n {
      PutsKept(run[..n], i);
    }
  }

  /** Both conditions on a run are conditions on what was delivered. */
  lemma {:induction false} DeliveredConditions(run: seq<Micro>)
    requires InOrder(Puts(run)) && NoLookalikes(Puts(run))
    ensures InOrder(run) && NoLookalikes(run)
  {
    hide ValueFor;
    if run != [] {
      var init, m := run[..|run| - 1], run[|run| - 1];
      assert run == init + [m];
      if m.Put? {
        Prefixes(Puts(init), m);
        DeliveredConditions(init);
        DeliverOne(init, m);
      } else {
        assert Puts(run) == Puts(init);
        DeliveredConditions(init);
        DropOne(init, m);
      }
    }
  }

  lemma DropOne(init: seq<Micro>, m: Micro)
    requires InOrder(init) && NoLookalikes(init) && m.Drop?
    ensures InOrder(init + [m]) && NoLookalikes(init + [m])
  {
    hide ValueFor;
    assert forall i :: 0 <= i < |init| ==> (init + [m])[i] == init[i];
  }

  lemma DeliverOne(init: seq<Micro>, m: Micro)
    requires InOrder(init) && NoLookalikes(init) && m.Put?
    requires InOrder(Puts(init) + [m]) && NoLookalikes(Puts(init) + [m])
    ensures InOrder(init + [m]) && NoLookalikes(init + [m])
  {
    hide ValueFor, Puts;
    var run, puts := init + [m], Puts(init) + [m];
    assert puts[|puts| - 1] == m;
    assert forall i :: 0 <= i < |init| ==> run[i] == init[i];
    forall i | 0 <= i < |init| && init[i].Put? && init[i].path == m.path && !IsDelete(m.evt)
      ensures init[i].now <= m.evt.commit
    {
      PutsKept(init, i);
      var k :| 0 <= k < |Puts(init)| && Puts(init)[k] == init[i];
      assert puts[k] == init[i];
    }
  }

  lemma {:induction false} DeliveredNotNewer(s0: State, run: seq<Micro>, p: string)
    requires NotNewer(s0, Puts(run), p)
    ensures NotNewer(s0, run, p)
  {
    forall j | 0 <= j < |run| && run[j].Put? && run[j].path == p && p in s0.view && !IsDelete(run[j].evt)
      ensures s0.view[p].phys <= run[j].evt.commit
    {
      PutsKept(run, j);
      var k :| 0 <= k < |Puts(run)| && Puts(run)[k] == run[j];
    }
  }

  /**
   * An applier over whatever strings and tombstones the cache holds, given a channel of changes in order and without
   * look-alike values, shows at every path that eviction never takes the last change to it, with the deadline that runs.
   */
  lemma ChannelConverges(s0: State, events: seq<ChangeEvent>, sprint: Value -> string, time: nat -> int, run: seq<Micro>, p: string)
    requires Inv(s0) && (p in s0.view ==> Tellable(s0.view[p])) && NotNewer(s0, ScheduleAll(events, time), p)
    requires Prints(sprint) && Puts(run) == ScheduleAll(events, time)
    requires InOrder(ScheduleAll(events, time)) && NoLookalikes(ScheduleAll(events, time))
    requires forall m <- run :: m.Drop? ==> p !in m.gone
    ensures EntryAt(RunFrom(s0, sprint, run).view, p) == Latest(EntryAt(s0.view, p), ScheduleAll(events, time), p)
  {
    hide InOrder, NoLookalikes, NotNewer, Prints, Inv, Puts, ScheduleAll, RunFrom, Latest;
    DeliveredConditions(run);
    DeliveredNotNewer(s0, run, p);
    StreamConverges(s0, run, sprint, p);
    LatestOfPuts(EntryAt(s0.view, p), run, p);
  }

  lemma {:induction false} LatestOfPuts(start: Option<CdcSpec.Entry>, run: seq<Micro>, p: string)
    requires forall m <- run :: m.Drop? ==> p !in m.gone
    ensures Latest(start, run, p) == Latest(start, Puts(run), p)
  {
    if run != [] {
      LatestOfPuts(start, run[..|run| - 1], p);
      var m := run[|run| - 1];
      assert m in run;
      if m.Put? {
        LatestStep(start, Puts(run[..|run| - 1]), m, p);
      } else {
        assert Puts(run) == Puts(run[..|run| - 1]);
      }
    }
  }
}
