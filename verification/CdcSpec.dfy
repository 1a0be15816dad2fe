/**
 * The change-data-capture applier (main.go, `runCDCApplier`) over the local frontier: ordering guard, echo guard,
 * tombstones, and what a whole stream of change events leaves behind.
 */
module CdcSpec {
  import opened Core
  import opened FrontierSpec

  /** A database change; new column values are given as printed. */
  datatype ChangeEvent = ChangeEvent(action: string, paths: seq<string>, newValues: map<string, string>, commit: int)

  /** `strings.LastIndex(path, ":")`. */
  function LastColon(path: string): (i: int)
    ensures -1 <= i < |path|
    ensures i >= 0 ==> path[i] == ':'
    ensures forall j :: i < j < |path| ==> path[j] != ':'
  {
    if path == "" then -1
    else if path[|path| - 1] == ':' then |path| - 1
    else LastColon(path[..|path| - 1])
  }

  /** The new value an event holds for a path: that of the column after the last colon. */
  function ValueFor(evt: ChangeEvent, path: string): Option<string> {
    var i := LastColon(path);
    if i == -1 || path[i + 1..] !in evt.newValues then None else Some(evt.newValues[path[i + 1..]])
  }

  /** How `fmt.Sprint` prints what the applier itself writes; other values are printed by an arbitrary function. */
  ghost predicate Prints(sprint: Value -> string) {
    (forall s :: sprint(VString(s)) == s) && sprint(VNull) == "{}"
  }

  predicate IsDelete(evt: ChangeEvent) {
    evt.action == "DELETE"
  }

  /** What the event asks to be shown at the path, if anything. */
  function Target(evt: ChangeEvent, path: string): Option<Expr> {
    if IsDelete(evt) then Some(EConst(VNull))
    else match ValueFor(evt, path) { case None => None case Some(v) => Some(EConst(VString(v))) }
  }

  /** Same printed form as the resident constant. */
  predicate Echo(sprint: Value -> string, cur: Atom, v: string) {
    cur.expr.EConst? && sprint(cur.expr.v) == v
  }

  /** The applier on one path of one event, at time `now`. */
  function Deliver(s: State, sprint: Value -> string, evt: ChangeEvent, path: string, now: int): State {
    if IsDelete(evt) then Step(s, Append(EConst(VNull), path, Never, now))
    else
      match ValueFor(evt, path)
      case None => s
      case Some(v) =>
        match Lookup(s.view, path, now)
        case None => Step(s, Append(EConst(VString(v)), path, Never, now))
        case Some(cur) =>
          if cur.phys > evt.commit || Echo(sprint, cur, v) then s
          else Step(s, Append(EConst(VString(v)), path, cur.expires, now))
  }

  // ---------------------------------------------------------------- one delivery

  /** The delivery leaves the residents, and so every receipt, as they are. */
  predicate Ignored(s: State, sprint: Value -> string, evt: ChangeEvent, path: string, now: int) {
    if IsDelete(evt) then
      path in s.view && SameContent(s.view[path], MintAtom(EConst(VNull), path, s.clock + 1, now, Never))
    else
      match ValueFor(evt, path)
      case None => true
      case Some(v) =>
        match Lookup(s.view, path, now)
        case Some(cur) =>
          || cur.phys > evt.commit || Echo(sprint, cur, v)
          || SameContent(cur, MintAtom(EConst(VString(v)), path, s.clock + 1, now, cur.expires))
        case None =>
          path in s.view && SameContent(s.view[path], MintAtom(EConst(VString(v)), path, s.clock + 1, now, Never))
  }

  /** Exactly the ignored deliveries change nothing; any other puts a new atom, with a new hash, at its path. */
  lemma ChangesNothingIff(s: State, sprint: Value -> string, evt: ChangeEvent, path: string, now: int)
    requires Inv(s)
    ensures Ignored(s, sprint, evt, path, now) <==> Deliver(s, sprint, evt, path, now).view == s.view
    ensures !Ignored(s, sprint, evt, path, now) ==>
              var s' := Deliver(s, sprint, evt, path, now);
              path in s'.view && s'.view[path].clock == s.clock + 1 && (path in s.view ==> s'.view[path].hash != s.view[path].hash)
  {
    hide Serialize, Inv, MintAtom, SameContent, Echo;
    if IsDelete(evt) {
      AppendChangesIff(s, EConst(VNull), path, Never, now);
    } else {
      match ValueFor(evt, path) {
        case None =>
        case Some(v) =>
          match Lookup(s.view, path, now) {
            case None => AppendChangesIff(s, EConst(VString(v)), path, Never, now);
            case Some(cur) => AppendChangesIff(s, EConst(VString(v)), path, cur.expires, now);
          }
      }
    }
  }

  /** The column is what follows the last colon of the path. */
  lemma ValueOfColumn(evt: ChangeEvent, table: string, column: string)
    requires ':' !in column
    ensures ValueFor(evt, table + ":" + column) == if column in evt.newValues then Some(evt.newValues[column]) else None
  {
    var p := table + ":" + column;
    var i := LastColon(p);
    assert p[|table|] == ':';
    forall j | |table| < j < |p| ensures p[j] != ':' {
      assert p[j] == column[j - |table| - 1];
      assert p[j] in column;
    }
    assert i == |table| && p[i + 1..] == column;
  }

  /**
   * What a delivery writes, whatever resides at the path: a delete shows the tombstone for ever. A value that is neither
   * late nor an echo of a live resident is shown, up to `Serialize`, with the deadline of the live resident it replaces and
   * without one where none is live. No other path changes.
   */
  lemma DeliveryWrites(s: State, sprint: Value -> string, evt: ChangeEvent, p: string, now: int)
    requires Inv(s) && Target(evt, p).Some?
    ensures var s', live := Deliver(s, sprint, evt, p, now), Lookup(s.view, p, now);
            if !IsDelete(evt) && live.Some? && (live.value.phys > evt.commit || Echo(sprint, live.value, ValueFor(evt, p).value)) then s' == s
            else && p in s'.view && s'.view[p].expr.EConst?
                 && Serialize(s'.view[p].expr.v) == (if IsDelete(evt) then [Octet('\0')] else Octets(ValueFor(evt, p).value))
                 && s'.view[p].expires == (if IsDelete(evt) || live.None? then Never else live.value.expires)
                 && (s'.view[p].phys == now || (p in s.view && s'.view[p] == s.view[p]))
                 && Lookup(s'.view, p, now).Some?
    ensures forall q :: q != p ==> ResidentAt(Deliver(s, sprint, evt, p, now).view, q) == ResidentAt(s.view, q)
  {
    hide Serialize, Inv, Step, Echo, ValueFor;
    if IsDelete(evt) {
      AppendShows(s, EConst(VNull), p, Never, now);
    } else {
      var v, live := ValueFor(evt, p).value, Lookup(s.view, p, now);
      AppendShows(s, EConst(VString(v)), p, if live.Some? then live.value.expires else Never, now);
    }
    BytesOfTargets(if IsDelete(evt) then "" else ValueFor(evt, p).value);
    forall q | q != p ensures ResidentAt(Deliver(s, sprint, evt, p, now).view, q) == ResidentAt(s.view, q) {
      DeliverElsewhere(s, sprint, evt, p, now, q);
    }
  }

  lemma BytesOfTargets(v: string)
    ensures Serialize(VNull) == [Octet('\0')] && Serialize(VString(v)) == Octets(v)
  {
  }

  /**
   * Re-delivery: a non-delete event stamped strictly before the atom it meets changes nothing at all, clock included,
   * and neither does an event whose value is already shown.
   */
  lemma {:induction false} RedeliveryChangesNothing(
    s: State, sprint: Value -> string, evts: seq<(ChangeEvent, string, int)>)
    requires forall e <- evts :: Replayed(s, sprint, e.0, e.1, e.2)
    ensures DeliverAll(s, sprint, evts) == s
  {
    if evts != [] {
      RedeliveryChangesNothing(s, sprint, evts[..|evts| - 1]);
      var e := evts[|evts| - 1];
      assert e in evts;
    }
  }

  predicate Replayed(s: State, sprint: Value -> string, evt: ChangeEvent, path: string, now: int) {
    && !IsDelete(evt) && Lookup(s.view, path, now).Some?
    && var cur := Lookup(s.view, path, now).value;
       cur.phys > evt.commit || (ValueFor(evt, path).Some? && Echo(sprint, cur, ValueFor(evt, path).value))
  }

  function DeliverAll(s: State, sprint: Value -> string, evts: seq<(ChangeEvent, string, int)>): State {
    if evts == [] then s
    else
      var e := evts[|evts| - 1];
      Deliver(DeliverAll(s, sprint, evts[..|evts| - 1]), sprint, e.0, e.1, e.2)
  }

  // ---------------------------------------------------------------- whole streams

  /** One step of the applier's life: a path of an event, or residents lost to the memory ceiling. */
  datatype Micro = Put(evt: ChangeEvent, path: string, now: int) | Drop(gone: set<string>)

  function MicroStep(s: State, sprint: Value -> string, m: Micro): State {
    match m
    case Put(evt, path, now) => Deliver(s, sprint, evt, path, now)
    case Drop(gone) => s.(view := s.view - gone)
  }

  function RunFrom(s: State, sprint: Value -> string, run: seq<Micro>): State {
    if run == [] then s else MicroStep(RunFrom(s, sprint, run[..|run| - 1]), sprint, run[|run| - 1])
  }

  lemma {:induction false} RunConcat(s: State, sprint: Value -> string, a: seq<Micro>, b: seq<Micro>)
    ensures RunFrom(s, sprint, a + b) == RunFrom(RunFrom(s, sprint, a), sprint, b)
  {
    hide MicroStep;
    if b == [] {
      assert a + b == a;
    } else {
      RunConcat(s, sprint, a, b[..|b| - 1]);
      assert (a + b)[..|a + b| - 1] == a + b[..|b| - 1];
    }
  }

  const EMPTY_STATE := State(map[], 0)

  /** What is shown at a path: expression and deadline. */
  datatype Entry = Entry(expr: Expr, expires: Deadline)

  function EntryAt(view: View, p: string): Option<Entry> {
    if p in view then Some(Entry(view[p].expr, view[p].expires)) else None
  }

  /** The reference: from what was there at the start, the last asked-for expression that was not lost since, with its deadline. */
  function Latest(start: Option<Entry>, run: seq<Micro>, p: string): Option<Entry> {
    if run == [] then start else Update(Latest(start, run[..|run| - 1], p), run[|run| - 1], p)
  }

  /** A delete is for ever; a value keeps the deadline that is running, if any. */
  function Update(before: Option<Entry>, m: Micro, p: string): Option<Entry> {
    match m
    case Put(evt, path, now) =>
      if path != p || Target(evt, p).None? then before
      else if IsDelete(evt) || before.None? || Past(before.value.expires, now) then Some(Entry(Target(evt, p).value, Never))
      else Some(Entry(Target(evt, p).value, before.value.expires))
    case Drop(gone) => if p in gone then None else before
  }

  /** The step leaves the path alone. */
  predicate Elsewhere(m: Micro, p: string) {
    match m
    case Put(_, path, _) => path != p
    case Drop(gone) => p !in gone
  }

  /** Every value event was committed no earlier than any previous delivery to its path; deletes are not held to it. */
  predicate InOrder(run: seq<Micro>) {
    forall i, j :: 0 <= i < j < |run| && run[i].Put? && run[j].Put? && run[i].path == run[j].path ==>
      !IsDelete(run[j].evt) ==> run[i].now <= run[j].evt.commit
  }

  /** No value prints like a tombstone or has its bytes. */
  predicate NoLookalikes(run: seq<Micro>) {
    forall i :: 0 <= i < |run| && run[i].Put? && !IsDelete(run[i].evt) ==>
      ValueFor(run[i].evt, run[i].path) != Some("{}") && ValueFor(run[i].evt, run[i].path) != Some("\0")
  }

  /** The resident at the start is no newer than any value event for its path. */
  predicate NotNewer(s0: State, run: seq<Micro>, p: string) {
    forall j :: 0 <= j < |run| && run[j].Put? && run[j].path == p && p in s0.view && !IsDelete(run[j].evt) ==>
      s0.view[p].phys <= run[j].evt.commit
  }

  /** A string or a tombstone, and no look-alike of one. */
  predicate Tellable(a: Atom) {
    a.expr.EConst? && (a.expr.v == VNull || (a.expr.v.VString? && a.expr.v.s != "{}" && a.expr.v.s != "\0"))
  }

  /** What resides at one path: what was there at the start, or a write of an earlier delivery. */
  predicate OwnWrite(s0: State, run: seq<Micro>, p: string, a: Atom) {
    && Tellable(a)
    && ((p in s0.view && a.phys == s0.view[p].phys)
        || exists i :: 0 <= i < |run| && run[i].Put? && run[i].path == p && run[i].now == a.phys)
  }

  /** The residents are the reference, path by path. */
  ghost predicate Converged(s0: State, run: seq<Micro>, s: State, p: string) {
    && Inv(s)
    && EntryAt(s.view, p) == Latest(EntryAt(s0.view, p), run, p)
    && (p in s.view ==> OwnWrite(s0, run, p, s.view[p]))
  }

  lemma OwnWriteGrows(s0: State, run: seq<Micro>, m: Micro, p: string, a: Atom)
    requires OwnWrite(s0, run, p, a)
    ensures OwnWrite(s0, run + [m], p, a)
  {
    if !(p in s0.view && a.phys == s0.view[p].phys) {
      var i :| 0 <= i < |run| && run[i].Put? && run[i].path == p && run[i].now == a.phys;
      assert (run + [m])[i] == run[i];
    }
  }

  lemma LatestStep(start: Option<Entry>, run: seq<Micro>, m: Micro, p: string)
    ensures Latest(start, run + [m], p) == Update(Latest(start, run, p), m, p)
  {
    assert (run + [m])[..|run + [m]| - 1] == run;
  }

  /** A step elsewhere. */
  lemma OtherPath(s: State, sprint: Value -> string, m: Micro, p: string)
    requires Elsewhere(m, p)
    ensures ResidentAt(MicroStep(s, sprint, m).view, p) == ResidentAt(s.view, p)
  {
    hide Deliver;
    if m.Put? {
      DeliverElsewhere(s, sprint, m.evt, m.path, m.now, p);
    }
  }

  lemma DeliverElsewhere(s: State, sprint: Value -> string, evt: ChangeEvent, path: string, now: int, p: string)
    requires path != p
    ensures ResidentAt(Deliver(s, sprint, evt, path, now).view, p) == ResidentAt(s.view, p)
  {
    hide Serialize, SameContent, Echo, ValueFor;
  }

  lemma DeliverInv(s: State, sprint: Value -> string, evt: ChangeEvent, path: string, now: int)
    requires Inv(s)
    ensures Inv(Deliver(s, sprint, evt, path, now))
  {
    hide Inv, Step, Echo, ValueFor, Lookup;
    StepInv(s, Append(EConst(VNull), path, Never, now));
    if ValueFor(evt, path).Some? {
      var v := ValueFor(evt, path).value;
      StepInv(s, Append(EConst(VString(v)), path, Never, now));
      if Lookup(s.view, path, now).Some? {
        StepInv(s, Append(EConst(VString(v)), path, Lookup(s.view, path, now).value.expires, now));
      }
    }
  }

  lemma MicroInv(s: State, sprint: Value -> string, m: Micro)
    requires Inv(s)
    ensures Inv(MicroStep(s, sprint, m))
  {
    hide Deliver;
    match m {
      case Put(evt, path, now) => DeliverInv(s, sprint, evt, path, now);
      case Drop(_) =>
    }
  }

  // ---------------------------------------------------------------- the write itself

  /** The write of `target` over whatever resides: installed unless bytes and deadline are equal. */
  lemma AppendShows(s: State, target: Expr, p: string, d: Deadline, now: int)
    requires Inv(s) && target.EConst? && target.v != Nil
    ensures var s' := Step(s, Append(target, p, d, now));
            && p in s'.view
            && s'.view[p] == (if p in s.view && s.view[p].expires == d && s.view[p].expr.EConst? && s.view[p].expr.v != Nil
                                 && Serialize(s.view[p].expr.v) == Serialize(target.v) then s.view[p]
                              else MintAtom(target, p, s.clock + 1, now, d))
  {
    hide Inv, Serialize;
    AppendChangesIff(s, target, p, d, now);
  }

  /** Bytes of the applier's writes collide only between the tombstone and the one-character zero string. */
  lemma BytesCollideIff(a: Value, b: Value)
    requires (a == VNull || a.VString?) && (b == VNull || b.VString?)
    ensures Serialize(a) == Serialize(b) <==> a == b || {a, b} == {VNull, VString("\0")}
  {
    if Serialize(a) == Serialize(b) && a != b {
      OctetsOne(a);
      OctetsOne(b);
      if a.VString? && b.VString? { OctetsInjective(a.s, b.s); }
    }
  }

  lemma OctetsOne(a: Value)
    requires a == VNull || a.VString?
    ensures Serialize(a) == [Octet('\0')] <==> a == VNull || a == VString("\0")
  {
    if a.VString? && Serialize(a) == [Octet('\0')] {
      assert Octets("\0") == [Octet('\0')];
      OctetsInjective(a.s, "\0");
    }
    assert Octets("\0") == [Octet('\0')];
  }

  // ---------------------------------------------------------------- convergence

  /** A string or a tombstone, as the applier writes them. */
  predicate Applied(a: Atom) {
    a.expr.EConst? && (a.expr.v == VNull || a.expr.v.VString?)
  }

  /** The live resident is newer than the change. */
  predicate Late(s: State, evt: ChangeEvent, p: string, now: int) {
    !IsDelete(evt) && Lookup(s.view, p, now).Some? && s.view[p].phys > evt.commit
  }

  /** A value that looks like the live tombstone it meets, or a tombstone over the zero string that never expires. */
  predicate Confused(s: State, evt: ChangeEvent, p: string, now: int) {
    && p in s.view && s.view[p].expr.EConst?
    && (if IsDelete(evt) then s.view[p].expr.v == VString("\0") && s.view[p].expires == Never
        else Lookup(s.view, p, now).Some? && s.view[p].expr.v == VNull && ValueFor(evt, p) in {Some("{}"), Some("\0")})
  }

  predicate Shows(s: State, p: string, target: Expr) {
    p in s.view && s.view[p].expr == target
  }

  /**
   * A delivery shows what the event asks for exactly when that is shown already, or the event is not late and not
   * confused with the resident; a deadline that is running goes on running, unless the event is a delete.
   */
  lemma ShownIff(s: State, sprint: Value -> string, evt: ChangeEvent, p: string, now: int)
    requires Inv(s) && Prints(sprint) && Target(evt, p).Some? && (p in s.view ==> Applied(s.view[p]))
    ensures var s', live := Deliver(s, sprint, evt, p, now), Lookup(s.view, p, now);
            && (Shows(s', p, Target(evt, p).value) <==>
                Shows(s, p, Target(evt, p).value) || (!Late(s, evt, p, now) && !Confused(s, evt, p, now)))
            && p in s'.view && Applied(s'.view[p])
            && s'.view[p].expires == (if IsDelete(evt) || live.None? then Never else live.value.expires)
            && (s'.view[p].phys == now || (p in s.view && s'.view[p] == s.view[p]))
  {
    hide Inv, Serialize, Step, Prints;
    var target, live := Target(evt, p).value, Lookup(s.view, p, now);
    AppendShows(s, target, p, if IsDelete(evt) || live.None? then Never else live.value.expires, now);
    if p in s.view {
      BytesCollideIff(s.view[p].expr.v, target.v);
      EchoIff(sprint, s.view[p], evt, p);
    }
  }

  lemma EchoIff(sprint: Value -> string, cur: Atom, evt: ChangeEvent, p: string)
    requires Prints(sprint) && Applied(cur)
    ensures forall v :: Echo(sprint, cur, v) <==> cur.expr.v == VString(v) || (cur.expr.v == VNull && v == "{}")
  {
  }

  lemma PutConverges(s0: State, run: seq<Micro>, s: State, sprint: Value -> string, evt: ChangeEvent, p: string, now: int)
    requires Converged(s0, run, s, p) && Prints(sprint) && NotNewer(s0, run + [Put(evt, p, now)], p)
    requires InOrder(run + [Put(evt, p, now)]) && NoLookalikes(run + [Put(evt, p, now)])
    ensures Converged(s0, run + [Put(evt, p, now)], Deliver(s, sprint, evt, p, now), p)
  {
    hide Inv, Prints, Deliver, Target, InOrder, NoLookalikes, ValueFor, NotNewer, Late, Confused;
    var m := Put(evt, p, now);
    LatestStep(EntryAt(s0.view, p), run, m, p);
    DeliverInv(s, sprint, evt, p, now);
    if p in s.view { OwnWriteGrows(s0, run, m, p, s.view[p]); }
    if Target(evt, p).None? {
      NoTarget(s, sprint, evt, p, now);
    } else {
      ShownIff(s, sprint, evt, p, now);
      NotLate(s0, run, s, evt, p, now);
      NotConfused(s0, run, s, evt, p, now);
      TargetOk(run, evt, p, now);
      assert (run + [m])[|run|] == m;
    }
  }

  lemma NoTarget(s: State, sprint: Value -> string, evt: ChangeEvent, p: string, now: int)
    requires Target(evt, p).None?
    ensures Deliver(s, sprint, evt, p, now) == s
  {
  }

  lemma NotLate(s0: State, run: seq<Micro>, s: State, evt: ChangeEvent, p: string, now: int)
    requires InOrder(run + [Put(evt, p, now)]) && NotNewer(s0, run + [Put(evt, p, now)], p)
    requires p in s.view ==> OwnWrite(s0, run, p, s.view[p])
    ensures !Late(s, evt, p, now)
  {
    var all := run + [Put(evt, p, now)];
    assert all[|run|] == Put(evt, p, now);
    if p in s.view && !(p in s0.view && s.view[p].phys == s0.view[p].phys) {
      var i :| 0 <= i < |run| && run[i].Put? && run[i].path == p && run[i].now == s.view[p].phys;
      assert all[i] == run[i];
    }
  }

  lemma NotConfused(s0: State, run: seq<Micro>, s: State, evt: ChangeEvent, p: string, now: int)
    requires NoLookalikes(run + [Put(evt, p, now)]) && (p in s.view ==> OwnWrite(s0, run, p, s.view[p]))
    ensures !Confused(s, evt, p, now)
  {
    hide ValueFor;
    assert (run + [Put(evt, p, now)])[|run|] == Put(evt, p, now);
  }

  lemma TargetOk(run: seq<Micro>, evt: ChangeEvent, p: string, now: int)
    requires NoLookalikes(run + [Put(evt, p, now)]) && Target(evt, p).Some?
    ensures var t := Target(evt, p).value;
            t.EConst? && (t.v == VNull || (t.v.VString? && t.v.s != "{}" && t.v.s != "\0"))
  {
    hide ValueFor;
    assert (run + [Put(evt, p, now)])[|run|] == Put(evt, p, now);
  }

  lemma Prefixes(run: seq<Micro>, m: Micro)
    requires InOrder(run + [m]) && NoLookalikes(run + [m])
    ensures InOrder(run) && NoLookalikes(run)
  {
    hide ValueFor;
    var all := run + [m];
    assert forall i :: 0 <= i < |run| ==> all[i] == run[i];
  }

  lemma NotNewerPrefix(s0: State, run: seq<Micro>, m: Micro, p: string)
    requires NotNewer(s0, run + [m], p)
    ensures NotNewer(s0, run, p)
  {
    var all := run + [m];
    assert forall i :: 0 <= i < |run| ==> all[i] == run[i];
  }

  /**
   * Convergence: over whatever strings and tombstones were there, with whatever deadlines, after any in-order stream of
   * changes without look-alike values, with residents lost to the ceiling at any points, every path holds exactly what the
   * last change to it that was not lost asked for, with the deadline that was running.
   */
  lemma {:induction false} StreamConverges(s0: State, run: seq<Micro>, sprint: Value -> string, p: string)
    requires Inv(s0) && (p in s0.view ==> Tellable(s0.view[p]))
    requires Prints(sprint) && InOrder(run) && NoLookalikes(run) && NotNewer(s0, run, p)
    ensures Converged(s0, run, RunFrom(s0, sprint, run), p)
  {
    hide Prints, InOrder, NoLookalikes, Deliver, NotNewer;
    if run != [] {
      var before, m := run[..|run| - 1], run[|run| - 1];
      assert run == before + [m];
      Prefixes(before, m);
      NotNewerPrefix(s0, before, m, p);
      StreamConverges(s0, before, sprint, p);
      var s := RunFrom(s0, sprint, before);
      if m.Put? && m.path == p {
        PutConverges(s0, before, s, sprint, m.evt, p, m.now);
      } else {
        QuietConverges(s0, before, s, sprint, m, p);
      }
    }
  }

  lemma QuietConverges(s0: State, run: seq<Micro>, s: State, sprint: Value -> string, m: Micro, p: string)
    requires Converged(s0, run, s, p) && (m.Put? ==> m.path != p)
    ensures Converged(s0, run + [m], MicroStep(s, sprint, m), p)
  {
    hide Deliver, Inv;
    LatestStep(EntryAt(s0.view, p), run, m, p);
    MicroInv(s, sprint, m);
    if p in s.view { OwnWriteGrows(s0, run, m, p, s.view[p]); }
    if Elsewhere(m, p) {
      OtherPath(s, sprint, m, p);
      SameResident(s, sprint, m, p);
    }
  }

  /** The deliveries to the path are of values, each before the deadline, and nothing takes the path away. */
  predicate InTime(run: seq<Micro>, p: string, d: Deadline) {
    forall i :: 0 <= i < |run| ==>
      match run[i]
      case Put(evt, path, now) => path == p ==> !IsDelete(evt) && !Past(d, now)
      case Drop(gone) => p !in gone
  }

  /**
   * Deadlines survive the stream: whatever a client wrote and whatever values the stream delivers before its deadline, in any
   * order, late ones and look-alikes included, the path keeps that deadline.
   */
  lemma {:induction false} DeadlineSurvives(s0: State, run: seq<Micro>, sprint: Value -> string, p: string)
    requires Inv(s0) && p in s0.view && InTime(run, p, s0.view[p].expires)
    ensures var s := RunFrom(s0, sprint, run); Inv(s) && p in s.view && s.view[p].expires == s0.view[p].expires
  {
    hide Inv, Deliver, ValueFor, Echo, Serialize;
    if run != [] {
      var before, m := run[..|run| - 1], run[|run| - 1];
      assert forall i :: 0 <= i < |before| ==> before[i] == run[i];
      assert m == run[|run| - 1];
      DeadlineSurvives(s0, before, sprint, p);
      var s := RunFrom(s0, sprint, before);
      MicroInv(s, sprint, m);
      if Elsewhere(m, p) {
        OtherPath(s, sprint, m, p);
        SameResident(s, sprint, m, p);
      } else if Target(m.evt, p).None? {
        NoTarget(s, sprint, m.evt, p, m.now);
      } else {
        DeliveryWrites(s, sprint, m.evt, p, m.now);
      }
    }
  }

  lemma SameResident(s: State, sprint: Value -> string, m: Micro, p: string)
    requires ResidentAt(MicroStep(s, sprint, m).view, p) == ResidentAt(s.view, p)
    ensures p in MicroStep(s, sprint, m).view <==> p in s.view
    ensures p in s.view ==> MicroStep(s, sprint, m).view[p] == s.view[p]
  {
    hide MicroStep;
  }

  /** The two look-alikes: a value event that is lost on a tombstone, and a delete that is lost on a value. */
  lemma LookalikesAreLost(sprint: Value -> string)
    requires Prints(sprint)
    ensures var gone := ChangeEvent("DELETE", ["t:c"], map[], 0);
            var braces := ChangeEvent("UPDATE", ["t:c"], map["c" := "{}"], 1);
            var zero := ChangeEvent("UPDATE", ["t:c"], map["c" := "\0"], 1);
            && InOrder([Put(gone, "t:c", 0), Put(braces, "t:c", 2)])
            && InOrder([Put(gone, "t:c", 0), Put(zero, "t:c", 2)])
            && InOrder([Put(zero, "t:c", 0), Put(gone, "t:c", 2)])
            && Shows(RunFrom(EMPTY_STATE, sprint, [Put(gone, "t:c", 0), Put(braces, "t:c", 2)]), "t:c", EConst(VNull))
            && Shows(RunFrom(EMPTY_STATE, sprint, [Put(gone, "t:c", 0), Put(zero, "t:c", 2)]), "t:c", EConst(VNull))
            && Shows(RunFrom(EMPTY_STATE, sprint, [Put(zero, "t:c", 0), Put(gone, "t:c", 2)]), "t:c", EConst(VString("\0")))
  {
    hide Prints, ValueFor, RunFrom, Shows;
    var p := "t:c";
    var gone := ChangeEvent("DELETE", [p], map[], 0);
    var braces := ChangeEvent("UPDATE", [p], map["c" := "{}"], 1);
    var zero := ChangeEvent("UPDATE", [p], map["c" := "\0"], 1);
    ColumnValue(braces, "{}");
    ColumnValue(zero, "\0");
    TwoPuts(sprint, gone, braces, p);
    TwoPuts(sprint, gone, zero, p);
    TwoPuts(sprint, zero, gone, p);
  }

  lemma ColumnValue(evt: ChangeEvent, v: string)
    requires "c" in evt.newValues && evt.newValues["c"] == v
    ensures ValueFor(evt, "t:c") == Some(v)
  {
    var p := "t:c";
    assert p[2..] == "c" && LastColon(p) == 1 by { assert p[..2] == "t:" && p[1] == ':'; }
  }

  /** Two deliveries to an empty cache, the second confused with the first: the first one stays. */
  lemma TwoPuts(sprint: Value -> string, a: ChangeEvent, b: ChangeEvent, p: string)
    requires Prints(sprint) && Target(a, p).Some? && Target(b, p).Some? && Target(a, p) != Target(b, p)
    requires Target(a, p).value.v == (if IsDelete(b) then VString("\0") else VNull)
    requires !IsDelete(b) ==> ValueFor(b, p) in {Some("{}"), Some("\0")}
    ensures Shows(RunFrom(EMPTY_STATE, sprint, [Put(a, p, 0), Put(b, p, 2)]), p, Target(a, p).value)
  {
    hide Prints, Deliver, ValueFor, Inv;
    var run := [Put(a, p, 0), Put(b, p, 2)];
    assert run[..1] == [Put(a, p, 0)] && run[..1][..0] == [];
    EmptyInv();
    ShownIff(EMPTY_STATE, sprint, a, p, 0);
    var s := Deliver(EMPTY_STATE, sprint, a, p, 0);
    assert RunFrom(EMPTY_STATE, sprint, run[..1]) == s;
    DeliverInv(EMPTY_STATE, sprint, a, p, 0);
    ShownIff(s, sprint, b, p, 2);
    ConfusedStays(s, sprint, b, p, 2);
  }

  lemma ConfusedStays(s: State, sprint: Value -> string, b: ChangeEvent, p: string, now: int)
    requires Inv(s) && Prints(sprint) && Target(b, p).Some? && p in s.view && Applied(s.view[p]) && Confused(s, b, p, now)
    ensures Shows(Deliver(s, sprint, b, p, now), p, s.view[p].expr)
  {
    hide Inv, Serialize, Step, Prints;
    AppendShows(s, Target(b, p).value, p, s.view[p].expires, now);
    BytesCollideIff(s.view[p].expr.v, Target(b, p).value.v);
    EchoIff(sprint, s.view[p], b, p);
  }
}
