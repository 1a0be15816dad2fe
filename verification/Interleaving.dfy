/**
 Concurrent writers of one path (internal/storage/sharded_frontier.go, AppendAtom): minting happens
 outside the shard lock and applying inside it, so atoms may be applied in any order.
 */
module Interleaving {
  import opened Core
  import opened FrontierSpec

  // ---------------------------------------------------------------- the step system

  datatype Step =
    | Mint(expr: Expr, expires: Deadline, now: int)
    | MintElsewhere
    | Apply(a: Atom)
    | Remove

  datatype Sys = Sys(clock: nat, pending: set<Atom>, resident: Option<Atom>)

  predicate Enabled(s: Sys, step: Step) {
    step.Apply? ==> step.a in s.pending
  }

  function Next(s: Sys, step: Step, path: string): Sys {
    match step
    case Mint(expr, expires, now) =>
      s.(clock := s.clock + 1, pending := s.pending + {MintAtom(expr, path, s.clock + 1, now, expires)})
    case MintElsewhere => s.(clock := s.clock + 1)
    case Apply(a) => s.(pending := s.pending - {a}, resident := Some(FrontierSpec.Apply(s.resident, a)))
    case Remove => s.(resident := None)
  }

  function Run(steps: seq<Step>, path: string): Sys {
    if steps == [] then Sys(0, {}, None) else Next(Run(steps[..|steps| - 1], path), steps[|steps| - 1], path)
  }

  predicate Legal(steps: seq<Step>, path: string) {
    steps == [] || (Legal(steps[..|steps| - 1], path) && Enabled(Run(steps[..|steps| - 1], path), steps[|steps| - 1]))
  }

  /** The atoms applied since the path was last removed, in the order of application. */
  function Applied(steps: seq<Step>): seq<Atom> {
    if steps == [] then [] else
      match steps[|steps| - 1]
      case Apply(a) => Applied(steps[..|steps| - 1]) + [a]
      case Remove => []
      case _ => Applied(steps[..|steps| - 1])
  }

  /** The resident after applying atoms in order to an absent path. */
  function Resident(atoms: seq<Atom>): Option<Atom> {
    if atoms == [] then None
    else Some(FrontierSpec.Apply(Resident(atoms[..|atoms| - 1]), atoms[|atoms| - 1]))
  }

  /** Genuine atoms with clocks of their own. */
  predicate Fresh(atoms: seq<Atom>) {
    && (forall i :: 0 <= i < |atoms| ==> Genuine(atoms[i]))
    && (forall i, j :: 0 <= i < j < |atoms| ==> atoms[i].clock != atoms[j].clock)
  }

  /** What every interleaving keeps. */
  predicate SysInv(s: Sys, applied: seq<Atom>) {
    && s.resident == Resident(applied)
    && (forall a <- s.pending :: Genuine(a) && a.clock <= s.clock)
    && (forall a <- s.pending, b <- s.pending :: a.clock == b.clock ==> a == b)
    && (forall i :: 0 <= i < |applied| ==> Genuine(applied[i]) && applied[i].clock <= s.clock)
    && (forall i :: 0 <= i < |applied| ==> forall a <- s.pending :: a.clock != applied[i].clock)
    && (forall i, j :: 0 <= i < j < |applied| ==> applied[i].clock != applied[j].clock)
  }

  lemma MintInv(s: Sys, applied: seq<Atom>, expr: Expr, expires: Deadline, now: int, path: string)
    requires SysInv(s, applied)
    ensures SysInv(Next(s, Mint(expr, expires, now), path), applied)
  {
    hide Genuine, Resident;
  }

  lemma ApplyInv(s: Sys, applied: seq<Atom>, a: Atom, path: string)
    requires SysInv(s, applied) && a in s.pending
    ensures SysInv(Next(s, Apply(a), path), applied + [a])
  {
    hide Genuine, Resident, FrontierSpec.Apply;
    ResidentMore(applied, a);
  }

  lemma ResidentMore(applied: seq<Atom>, a: Atom)
    ensures Resident(applied + [a]) == Some(FrontierSpec.Apply(Resident(applied), a))
  {
    hide Genuine, FrontierSpec.Apply;
    var more := applied + [a];
    assert more[..|more| - 1] == applied;
  }

  lemma NextInv(s: Sys, applied: seq<Atom>, step: Step, path: string)
    requires SysInv(s, applied) && Enabled(s, step)
    ensures step.Mint? || step.MintElsewhere? ==> SysInv(Next(s, step, path), applied)
    ensures step.Apply? ==> SysInv(Next(s, step, path), applied + [step.a])
    ensures step.Remove? ==> SysInv(Next(s, step, path), [])
  {
    hide Genuine;
    match step
    case Mint(expr, expires, now) => MintInv(s, applied, expr, expires, now, path);
    case Apply(a) => ApplyInv(s, applied, a, path);
    case _ =>
  }

  /** In every interleaving the resident is what applying the atoms one after the other gives. */
  lemma {:induction false} RunInv(steps: seq<Step>, path: string)
    requires Legal(steps, path)
    ensures SysInv(Run(steps, path), Applied(steps))
  {
    hide SysInv;
    if steps == [] {
      StartInv(path);
    } else {
      RunInv(steps[..|steps| - 1], path);
      NextInv(Run(steps[..|steps| - 1], path), Applied(steps[..|steps| - 1]), steps[|steps| - 1], path);
    }
  }

  lemma StartInv(path: string)
    ensures SysInv(Sys(0, {}, None), [])
  {
  }

  lemma RunResident(steps: seq<Step>, path: string)
    requires Legal(steps, path)
    ensures Run(steps, path).resident == Resident(Applied(steps)) && Fresh(Applied(steps))
  {
    RunInv(steps, path);
  }

  // ---------------------------------------------------------------- the clock of the resident

  predicate Stays(steps: seq<Step>, i: nat) {
    forall k :: i <= k < |steps| ==> !steps[k].Remove?
  }

  /** While the path stays resident its clock never goes back. */
  lemma {:induction false} ClockNeverGoesBack(steps: seq<Step>, path: string, i: nat)
    requires i <= |steps| && Stays(steps, i) && Run(steps[..i], path).resident.Some?
    ensures Run(steps, path).resident.Some?
    ensures Run(steps[..i], path).resident.value.clock <= Run(steps, path).resident.value.clock
    decreases |steps|
  {
    if i == |steps| {
      assert steps[..i] == steps;
    } else {
      var init := steps[..|steps| - 1];
      assert init[..i] == steps[..i];
      assert !steps[|steps| - 1].Remove?;
      ClockNeverGoesBack(init, path, i);
    }
  }

  // ---------------------------------------------------------------- who is resident

  /** The applied atom with the highest clock. */
  function Highest(atoms: seq<Atom>): Atom
    requires atoms != []
  {
    var last := atoms[|atoms| - 1];
    if |atoms| == 1 then last else
      var h := Highest(atoms[..|atoms| - 1]);
      if h.clock > last.clock then h else last
  }

  lemma {:induction false} HighestIsHighest(atoms: seq<Atom>)
    requires atoms != []
    ensures Highest(atoms) in atoms && forall i :: 0 <= i < |atoms| ==> atoms[i].clock <= Highest(atoms).clock
  {
    if |atoms| > 1 { HighestIsHighest(atoms[..|atoms| - 1]); }
  }

  predicate Discards(resident: Option<Atom>, a: Atom) {
    resident.Some? && resident.value.clock > a.clock
  }

  predicate Dedups(resident: Option<Atom>, a: Atom) {
    resident.Some? && !Discards(resident, a) && resident.value.hash != a.hash && SameContent(resident.value, a)
  }

  predicate Installs(resident: Option<Atom>, a: Atom) {
    !Discards(resident, a) && !Dedups(resident, a)
  }

  predicate NoDedup(atoms: seq<Atom>) {
    forall i :: 0 <= i < |atoms| ==> !Dedups(Resident(atoms[..i]), atoms[i])
  }

  lemma WinsOneMore(atoms: seq<Atom>)
    requires |atoms| > 1 && Resident(atoms[..|atoms| - 1]) == Some(Highest(atoms[..|atoms| - 1]))
    requires !Dedups(Resident(atoms[..|atoms| - 1]), atoms[|atoms| - 1])
    ensures Resident(atoms) == Some(Highest(atoms))
  {
    hide SameContent;
  }

  /** Without dedup the resident is the highest-clock atom applied, whatever the order. */
  lemma {:induction false} HighestWinsWithoutDedup(atoms: seq<Atom>)
    requires atoms != [] && NoDedup(atoms)
    ensures Resident(atoms) == Some(Highest(atoms))
    ensures Highest(atoms) in atoms && forall i :: 0 <= i < |atoms| ==> atoms[i].clock <= Highest(atoms).clock
  {
    HighestIsHighest(atoms);
    var n := |atoms| - 1;
    if n > 0 {
      hide Resident, Highest, Dedups;
      var init := atoms[..n];
      forall i | 0 <= i < n
        ensures !Dedups(Resident(init[..i]), init[i])
      {
        assert init[..i] == atoms[..i];
      }
      HighestWinsWithoutDedup(init);
      WinsOneMore(atoms);
    }
  }

  predicate Constant(a: Atom) {
    a.expr.EConst? && a.expr.v != Nil
  }

  /** An atom is installed although an earlier-applied one carries a higher clock. */
  predicate Overtaken(atoms: seq<Atom>, i: nat)
    requires i < |atoms|
  {
    0 < i && Installs(Resident(atoms[..i]), atoms[i]) && atoms[i].clock < Highest(atoms[..i]).clock
  }

  /** After each application the resident shows the content of the highest clock applied so far. */
  predicate Current(atoms: seq<Atom>) {
    forall i :: 0 < i <= |atoms| ==> ContentOf(Resident(atoms[..i]).value) == ContentOf(Highest(atoms[..i]))
  }

  predicate NoOvertaking(atoms: seq<Atom>) {
    forall i :: 0 <= i < |atoms| ==> !Overtaken(atoms, i)
  }

  /** The resident is the highest atom, or a constant with the same content and a lower clock. */
  predicate Tracks(atoms: seq<Atom>)
    requires atoms != []
  {
    var r, h := Resident(atoms).value, Highest(atoms);
    r == h || (Constant(r) && ContentOf(r) == ContentOf(h) && r.clock < h.clock)
  }

  lemma PrefixFacts(atoms: seq<Atom>, n: nat)
    requires n <= |atoms| && Fresh(atoms)
    ensures Fresh(atoms[..n])
    ensures NoOvertaking(atoms) ==> NoOvertaking(atoms[..n])
    ensures Current(atoms) ==> Current(atoms[..n])
  {
    var init := atoms[..n];
    assert forall i :: 0 <= i <= n ==> init[..i] == atoms[..i];
    assert forall i :: 0 <= i < n ==> init[i] == atoms[i];
    if NoOvertaking(atoms) {
      forall i | 0 <= i < n ensures !Overtaken(init, i) { assert !Overtaken(atoms, i); }
    }
  }

  lemma OneMore(atoms: seq<Atom>)
    requires atoms != [] && Fresh(atoms)
    requires |atoms| > 1 ==> Tracks(atoms[..|atoms| - 1]) && !Overtaken(atoms, |atoms| - 1)
    ensures Tracks(atoms)
  {
    var n := |atoms| - 1;
    var init, a := atoms[..n], atoms[n];
    if n > 0 {
      HighestIsHighest(init);
      var i :| 0 <= i < |init| && init[i] == Highest(init);
      assert atoms[i].clock != atoms[n].clock;
    }
  }

  lemma {:induction false} TracksWithoutOvertaking(atoms: seq<Atom>)
    requires atoms != [] && Fresh(atoms) && NoOvertaking(atoms)
    ensures Tracks(atoms)
  {
    hide Tracks;
    var n := |atoms| - 1;
    PrefixFacts(atoms, n);
    if n > 0 { TracksWithoutOvertaking(atoms[..n]); }
    assert !Overtaken(atoms, n);
    OneMore(atoms);
  }

  /** Installing an overtaken atom shows a content other than that of the highest clock. */
  lemma OvertakenShows(atoms: seq<Atom>)
    requires |atoms| > 1 && Fresh(atoms) && Tracks(atoms[..|atoms| - 1]) && Overtaken(atoms, |atoms| - 1)
    ensures ContentOf(Resident(atoms).value) != ContentOf(Highest(atoms))
  {
    var n := |atoms| - 1;
    var init, a := atoms[..n], atoms[n];
    var r := Resident(init).value;
    assert Resident(atoms) == Some(a) && Highest(atoms) == Highest(init);
    if ContentOf(a) == ContentOf(Highest(init)) {
      assert r.clock <= a.clock < Highest(init).clock;
      assert SameContent(r, a);
      if r.hash == a.hash {
        ResidentIsApplied(init);
        var i :| 0 <= i < |init| && init[i] == r;
        assert Genuine(atoms[i]) && Genuine(atoms[n]) && atoms[i].clock != atoms[n].clock;
        EqualHashEqualClock(r, a);
      }
    }
  }

  lemma {:induction false} ResidentIsApplied(atoms: seq<Atom>)
    requires atoms != []
    ensures Resident(atoms).value in atoms
  {
    if |atoms| > 1 { ResidentIsApplied(atoms[..|atoms| - 1]); }
  }

  /**
   The resident shows the newest write at every moment exactly when no installed atom has a clock
   below one that was applied before it and deduplicated away.
   */
  lemma {:induction false} CurrentIffNoOvertaking(atoms: seq<Atom>)
    requires Fresh(atoms)
    ensures Current(atoms) <==> NoOvertaking(atoms)
  {
    hide Tracks, Overtaken;
    if NoOvertaking(atoms) {
      forall i | 0 < i <= |atoms|
        ensures ContentOf(Resident(atoms[..i]).value) == ContentOf(Highest(atoms[..i]))
      {
        PrefixFacts(atoms, i);
        TracksWithoutOvertaking(atoms[..i]);
        TracksContent(atoms[..i]);
      }
    }
    if Current(atoms) && atoms != [] {
      var n := |atoms| - 1;
      PrefixFacts(atoms, n);
      CurrentIffNoOvertaking(atoms[..n]);
      assert atoms[..n + 1] == atoms;
      if Overtaken(atoms, n) {
        OvertakenFirst(atoms);
        TracksWithoutOvertaking(atoms[..n]);
        OvertakenShows(atoms);
        assert false;
      }
      LastStep(atoms);
    }
  }

  lemma OvertakenFirst(atoms: seq<Atom>)
    requires atoms != [] && Overtaken(atoms, |atoms| - 1)
    ensures |atoms| > 1
  {
  }

  lemma LastStep(atoms: seq<Atom>)
    requires atoms != [] && NoOvertaking(atoms[..|atoms| - 1]) && !Overtaken(atoms, |atoms| - 1)
    ensures NoOvertaking(atoms)
  {
    var init := atoms[..|atoms| - 1];
    forall i | 0 <= i < |atoms|
      ensures !Overtaken(atoms, i)
    {
      if i < |init| {
        assert !Overtaken(init, i);
        assert init[..i] == atoms[..i];
      }
    }
  }

  lemma TracksContent(atoms: seq<Atom>)
    requires atoms != [] && Tracks(atoms)
    ensures ContentOf(Resident(atoms).value) == ContentOf(Highest(atoms))
  {
  }

  predicate InClockOrder(atoms: seq<Atom>) {
    forall i, j :: 0 <= i < j < |atoms| ==> atoms[i].clock < atoms[j].clock
  }

  lemma {:induction false} OrderedHighestIsLast(atoms: seq<Atom>)
    requires atoms != [] && InClockOrder(atoms)
    ensures Highest(atoms) == atoms[|atoms| - 1]
  {
    if |atoms| > 1 { OrderedHighestIsLast(atoms[..|atoms| - 1]); }
  }

  /** In every interleaving that applies in clock order, the resident shows the last write. */
  lemma LastWriteShows(steps: seq<Step>, path: string)
    requires Legal(steps, path) && Applied(steps) != [] && InClockOrder(Applied(steps))
    ensures var last := Applied(steps)[|Applied(steps)| - 1];
            Run(steps, path).resident.Some? && ContentOf(Run(steps, path).resident.value) == ContentOf(last)
  {
    hide Genuine, Serialize, Applied, Run, Legal, Highest, Overtaken;
    var atoms := Applied(steps);
    RunResident(steps, path);
    forall i | 0 <= i < |atoms| ensures !Overtaken(atoms, i) { InOrderNotOvertaken(atoms, i); }
    CurrentIffNoOvertaking(atoms);
    OrderedHighestIsLast(atoms);
    assert atoms[..|atoms|] == atoms;
  }

  lemma InOrderNotOvertaken(atoms: seq<Atom>, i: nat)
    requires InClockOrder(atoms) && i < |atoms|
    ensures !Overtaken(atoms, i)
  {
    hide Genuine, Serialize, Resident;
    if 0 < i {
      assert InClockOrder(atoms[..i]);
      OrderedHighestIsLast(atoms[..i]);
      assert atoms[..i][i - 1] == atoms[i - 1];
    }
  }

  /** In every interleaving without dedup, the highest-clock atom applied since the last removal is resident. */
  lemma HighestWins(steps: seq<Step>, path: string)
    requires Legal(steps, path) && Applied(steps) != [] && NoDedup(Applied(steps))
    ensures Run(steps, path).resident == Some(Highest(Applied(steps)))
  {
    RunResident(steps, path);
    HighestWinsWithoutDedup(Applied(steps));
  }

  /**
   In every interleaving, the path has shown the newest applied content ever since its last removal
   exactly when no overtaken atom was installed.
   */
  lemma NewestShownIff(steps: seq<Step>, path: string)
    requires Legal(steps, path)
    ensures Current(Applied(steps)) <==> NoOvertaking(Applied(steps))
  {
    RunResident(steps, path);
    CurrentIffNoOvertaking(Applied(steps));
  }

  lemma Snoc(steps: seq<Step>, step: Step, path: string)
    ensures Legal(steps + [step], path) <==> Legal(steps, path) && Enabled(Run(steps, path), step)
    ensures Run(steps + [step], path) == Next(Run(steps, path), step, path)
    ensures step.Apply? ==> Applied(steps + [step]) == Applied(steps) + [step.a]
    ensures step.Mint? ==> Applied(steps + [step]) == Applied(steps)
  {
    assert (steps + [step])[..|steps + [step]| - 1] == steps;
  }

  /**
   Three writers: the newest write repeats the resident's value and is dropped, then an older
   write of another value arrives late and is installed over it.
   */
  lemma NewestWriteCanBeLost(path: string, x: string, y: string) returns (steps: seq<Step>, late: Atom, newest: Atom)
    requires x != y
    ensures Legal(steps, path) && Applied(steps) != []
    ensures Highest(Applied(steps)) == newest && newest.expr == EConst(VString(x))
    ensures Run(steps, path).resident == Some(late) && late.expr == EConst(VString(y))
    ensures ContentOf(late) != ContentOf(newest)
  {
    var vx, vy := EConst(VString(x)), EConst(VString(y));
    var a := MintAtom(vx, path, 1, 0, Never);
    late := MintAtom(vy, path, 2, 0, Never);
    newest := MintAtom(vx, path, 3, 0, Never);
    LostAtoms(path, x, y, a, late, newest);
    hide *;
    var s0 := [];
    Empty(path);
    Snoc(s0, Mint(vx, Never, 0), path);
    var s1 := s0 + [Mint(vx, Never, 0)];
    Snoc(s1, Mint(vy, Never, 0), path);
    var s2 := s1 + [Mint(vy, Never, 0)];
    Snoc(s2, Mint(vx, Never, 0), path);
    var s3 := s2 + [Mint(vx, Never, 0)];
    Mints(path, vx, vy, Run(s0, path), Run(s1, path), Run(s2, path), Run(s3, path), a, late, newest);
    Snoc(s3, Apply(a), path);
    var s4 := s3 + [Apply(a)];
    Snoc(s4, Apply(newest), path);
    var s5 := s4 + [Apply(newest)];
    Snoc(s5, Apply(late), path);
    steps := s5 + [Apply(late)];
    Applies(Run(s3, path), Run(s4, path), Run(s5, path), path, a, late, newest);
    assert Applied(steps) == [] + [a] + [newest] + [late] == [a, newest, late];
    RunResident(steps, path);
  }

  lemma Empty(path: string)
    ensures Legal([], path) && Run([], path) == Sys(0, {}, None) && Applied([]) == []
  {
  }

  lemma Mints(path: string, vx: Expr, vy: Expr, r0: Sys, r1: Sys, r2: Sys, r3: Sys, a: Atom, b: Atom, c: Atom)
    requires r0 == Sys(0, {}, None) && r1 == Next(r0, Mint(vx, Never, 0), path)
    requires r2 == Next(r1, Mint(vy, Never, 0), path) && r3 == Next(r2, Mint(vx, Never, 0), path)
    requires a == MintAtom(vx, path, 1, 0, Never) && b == MintAtom(vy, path, 2, 0, Never) && c == MintAtom(vx, path, 3, 0, Never)
    ensures r3.pending == {a, b, c}
    ensures Enabled(r0, Mint(vx, Never, 0)) && Enabled(r1, Mint(vy, Never, 0)) && Enabled(r2, Mint(vx, Never, 0))
  {
  }

  lemma Applies(r3: Sys, r4: Sys, r5: Sys, path: string, a: Atom, b: Atom, c: Atom)
    requires r3.pending == {a, b, c} && a != b && b != c && a != c
    requires r4 == Next(r3, Apply(a), path) && r5 == Next(r4, Apply(c), path)
    ensures Enabled(r3, Apply(a)) && Enabled(r4, Apply(c)) && Enabled(r5, Apply(b))
  {
  }

  lemma LostAtoms(path: string, x: string, y: string, a: Atom, late: Atom, newest: Atom)
    requires x != y && a == MintAtom(EConst(VString(x)), path, 1, 0, Never)
    requires late == MintAtom(EConst(VString(y)), path, 2, 0, Never)
    requires newest == MintAtom(EConst(VString(x)), path, 3, 0, Never)
    ensures Highest([a, newest, late]) == newest && Resident([a, newest, late]) == Some(late)
    ensures ContentOf(late) != ContentOf(newest) && a != late && late != newest && a != newest
    ensures newest.expr == EConst(VString(x)) && late.expr == EConst(VString(y))
  {
    OctetsInjective(x, y);
    assert SameContent(a, newest);
    if a.hash == newest.hash { EqualHashEqualClock(a, newest); }
    assert [a, newest, late][..2] == [a, newest] && [a, newest][..1] == [a] && [a][..0] == [];
    assert Resident([]) == None;
    assert Resident([a]) == Some(a);
    assert Resident([a, newest]) == Some(a);
    assert Highest([a]) == a && Highest([a, newest]) == newest;
  }
}
