/**
 The frontier caches as maps from path to resident atom (internal/storage/sharded_frontier.go,
 frontier_cache.go): what each operation does to the map, and what holds over whole runs.
 */
module FrontierSpec {
  import opened Core

  /** The resident atom of every path, expired ones included. */
  type View = map<string, Atom>

  function MintAtom(expr: Expr, path: string, clock: nat, now: int, expires: Deadline): (a: Atom)
    ensures Genuine(a) && a.past == []
  {
    Atom(ComputeHash(expr, clock, now, expires, 0, []), expr, [], 0, clock, now, 0, path, expires)
  }

  /** `sameAtomContent`: equal deadlines and constants with equal bytes. */
  predicate SameContent(a: Atom, b: Atom) {
    && a.expires == b.expires && a.expr.EConst? && b.expr.EConst? && a.expr.v != Nil && b.expr.v != Nil
    && Serialize(a.expr.v) == Serialize(b.expr.v)
  }

  /** What a reader can tell about an atom: its constant up to `Serialize`, and its deadline. */
  datatype Content = Bytes(bytes: seq<Symbol>, expires: Deadline) | Whole(expr: Expr, expires: Deadline)

  function ContentOf(a: Atom): Content {
    if a.expr.EConst? && a.expr.v != Nil then Bytes(Serialize(a.expr.v), a.expires) else Whole(a.expr, a.expires)
  }

  predicate Past(d: Deadline, now: int) {
    d.At? && d.t < now
  }

  /** The locked half of `AppendAtom` on the resident of one path: clock guard, dedup, install. */
  function Apply(resident: Option<Atom>, a: Atom): Atom {
    if resident.None? then a
    else if resident.value.clock > a.clock then resident.value
    else if resident.value.hash != a.hash && SameContent(resident.value, a) then resident.value
    else a
  }

  function ResidentAt(view: View, path: string): Option<Atom> {
    if path in view then Some(view[path]) else None
  }

  function ApplyTo(view: View, a: Atom): View {
    view[a.path := Apply(ResidentAt(view, a.path), a)]
  }

  function Swept(view: View, now: int): View {
    map p | p in view && !Expired(view[p], now) :: view[p]
  }

  /** `GetCurrent`. */
  function Lookup(view: View, path: string, now: int): Option<Atom> {
    if path in view && !Expired(view[path], now) then Some(view[path]) else None
  }

  // ---------------------------------------------------------------- sequential runs

  datatype Event =
    | Append(expr: Expr, path: string, expires: Deadline, now: int)
    | Evict(path: string)
    | Sweep(now: int)

  datatype State = State(view: View, clock: nat)

  function Step(s: State, e: Event): State {
    match e
    case Append(expr, path, expires, now) =>
      State(ApplyTo(s.view, MintAtom(expr, path, s.clock + 1, now, expires)), s.clock + 1)
    case Evict(path) => s.(view := s.view - {path})
    case Sweep(now) => s.(view := Swept(s.view, now))
  }

  function After(es: seq<Event>): State {
    if es == [] then State(map[], 0) else Step(After(es[..|es| - 1]), es[|es| - 1])
  }

  /** Resident atoms are what was minted, under their own path, with clocks of their own. */
  predicate Inv(s: State) {
    && (forall p <- s.view.Keys ::
          Genuine(s.view[p]) && s.view[p].past == [] && s.view[p].path == p && 0 < s.view[p].clock <= s.clock)
    && (forall p <- s.view.Keys, q <- s.view.Keys :: s.view[p].clock == s.view[q].clock ==> p == q)
  }

  lemma StepInv(s: State, e: Event)
    requires Inv(s)
    ensures Inv(Step(s, e))
  {
    hide Serialize, Genuine, SameContent;
    match e {
      case Append(expr, path, expires, now) =>
        AppendInv(s, MintAtom(expr, path, s.clock + 1, now, expires));
      case Evict(_) =>
      case Sweep(_) =>
    }
  }

  lemma AppendInv(s: State, a: Atom)
    requires Inv(s) && Genuine(a) && a.past == [] && a.clock == s.clock + 1
    ensures Inv(State(ApplyTo(s.view, a), s.clock + 1))
  {
    hide Genuine, SameContent;
  }

  lemma {:induction false} AfterInv(es: seq<Event>)
    ensures Inv(After(es))
  {
    hide Inv;
    if es == [] {
      EmptyInv();
    } else {
      AfterInv(es[..|es| - 1]);
      StepInv(After(es[..|es| - 1]), es[|es| - 1]);
    }
  }

  lemma EmptyInv()
    ensures Inv(State(map[], 0))
  {
  }

  lemma AfterStep(es: seq<Event>, k: nat)
    requires k < |es|
    ensures After(es[..k + 1]) == Step(After(es[..k]), es[k])
  {
    assert es[..k + 1][..k] == es[..k];
  }

  // ---------------------------------------------------------------- version vectors

  /** The event replaces or removes the resident of `p`; a same-content append does not. */
  predicate Touches(s: State, e: Event, p: string) {
    match e
    case Append(expr, path, expires, now) =>
      path == p && !(p in s.view && SameContent(s.view[p], MintAtom(expr, path, s.clock + 1, now, expires)))
    case Evict(path) => path == p
    case Sweep(now) => p in s.view && Expired(s.view[p], now)
  }

  /** After a step, `p` is as it was, or gone, or newer than every atom minted so far. */
  lemma StepOn(s: State, e: Event, p: string)
    requires Inv(s) && p in s.view
    ensures !Touches(s, e, p) ==> ResidentAt(Step(s, e).view, p) == ResidentAt(s.view, p)
    ensures Touches(s, e, p) ==> p !in Step(s, e).view || Step(s, e).view[p].clock > s.clock
  {
    hide Serialize, Genuine, SameContent;
    if e.Append? && e.path == p {
      var a := MintAtom(e.expr, p, s.clock + 1, e.now, e.expires);
      if s.view[p].hash == a.hash {
        EqualHashEqualClock(s.view[p], a);
      }
    }
  }

  /** An append changes the residents exactly when the resident has other content. */
  lemma AppendChangesIff(s: State, expr: Expr, path: string, expires: Deadline, now: int)
    requires Inv(s)
    ensures var a := MintAtom(expr, path, s.clock + 1, now, expires);
            var s' := Step(s, Append(expr, path, expires, now));
            if path in s.view && SameContent(s.view[path], a) then s'.view == s.view
            else s'.view == s.view[path := a] && a.clock == s.clock + 1 && (path in s.view ==> a.hash != s.view[path].hash)
  {
    hide Serialize, Genuine;
    var a := MintAtom(expr, path, s.clock + 1, now, expires);
    if path in s.view && s.view[path].hash == a.hash {
      EqualHashEqualClock(s.view[path], a);
    }
  }

  predicate Untouched(es: seq<Event>, i: nat, j: nat, p: string)
    requires i <= j <= |es|
  {
    forall k :: i <= k < j ==> !Touches(After(es[..k]), es[k], p)
  }

  lemma {:induction false} UntouchedSame(es: seq<Event>, i: nat, j: nat, p: string)
    requires i <= j <= |es| && p in After(es[..i]).view && Untouched(es, i, j, p)
    ensures ResidentAt(After(es[..j]).view, p) == ResidentAt(After(es[..i]).view, p)
    decreases j - i
  {
    hide Touches, Step;
    if i < j {
      UntouchedSame(es, i, j - 1, p);
      AfterInv(es[..j - 1]);
      AfterStep(es, j - 1);
      StepOn(After(es[..j - 1]), es[j - 1], p);
    }
  }

  /** Once touched, the old atom never comes back: whatever resides later has a newer clock. */
  lemma {:induction false} TouchedNeverReturns(es: seq<Event>, i: nat, k: nat, j: nat, p: string)
    requires i <= k < j <= |es| && p in After(es[..i]).view
    requires Untouched(es, i, k, p) && Touches(After(es[..k]), es[k], p)
    ensures p !in After(es[..j]).view || After(es[..j]).view[p].clock > After(es[..i]).view[p].clock
    decreases j - k
  {
    hide Touches, Step, After, Genuine, Untouched;
    var c := After(es[..i]).view[p].clock;
    UntouchedSame(es, i, k, p);
    AfterInv(es[..k]);
    var s := After(es[..j - 1]);
    AfterInv(es[..j - 1]);
    AfterStep(es, j - 1);
    ClockGrows(es, k, j - 1);
    if j == k + 1 {
      StepOn(s, es[k], p);
    } else {
      TouchedNeverReturns(es, i, k, j - 1, p);
      if p in s.view { StepOn(s, es[j - 1], p); } else { StepNew(s, es[j - 1], p); }
    }
  }

  lemma StepNew(s: State, e: Event, p: string)
    requires p !in s.view
    ensures p !in Step(s, e).view || Step(s, e).view[p].clock > s.clock
  {
  }

  lemma StepClock(s: State, e: Event)
    ensures s.clock <= Step(s, e).clock
  {
  }

  lemma {:induction false} ClockGrows(es: seq<Event>, i: nat, j: nat)
    requires i <= j <= |es|
    ensures After(es[..i]).clock <= After(es[..j]).clock
    decreases j - i
  {
    hide Step, After;
    if i < j {
      ClockGrows(es, i, j - 1);
      AfterStep(es, j - 1);
      StepClock(After(es[..j - 1]), es[j - 1]);
    }
  }

  lemma {:induction false} FirstTouch(es: seq<Event>, i: nat, j: nat, p: string) returns (k: nat)
    requires i <= j <= |es| && !Untouched(es, i, j, p)
    ensures i <= k < j && Untouched(es, i, k, p) && Touches(After(es[..k]), es[k], p)
    decreases j - i
  {
    hide Touches, After;
    if Untouched(es, i, j - 1, p) {
      k := j - 1;
    } else {
      k := FirstTouch(es, i, j - 1, p);
    }
  }

  /** A resident's hash is still the resident hash later exactly when nothing touched the path in between. */
  lemma HashStaysIffUntouched(es: seq<Event>, i: nat, j: nat, p: string)
    requires i <= j <= |es| && p in After(es[..i]).view
    ensures Untouched(es, i, j, p) <==>
              p in After(es[..j]).view && After(es[..j]).view[p].hash == After(es[..i]).view[p].hash
    ensures Untouched(es, i, j, p) ==> ResidentAt(After(es[..j]).view, p) == ResidentAt(After(es[..i]).view, p)
  {
    hide Touches, Step;
    var a := After(es[..i]).view[p];
    if Untouched(es, i, j, p) {
      UntouchedSame(es, i, j, p);
    } else {
      var k := FirstTouch(es, i, j, p);
      TouchedNeverReturns(es, i, k, j, p);
      AfterInv(es[..i]);
      AfterInv(es[..j]);
      if p in After(es[..j]).view && After(es[..j]).view[p].hash == a.hash {
        EqualHashEqualClock(After(es[..j]).view[p], a);
      }
    }
  }

  /** The receipt of one path still holds. */
  predicate Holds(view: View, path: string, h: Hash, now: int) {
    path in view && view[path].hash == h && !Expired(view[path], now)
  }

  /** `VerifyVersionVector` at time `now`. */
  predicate Verifies(view: View, vv: map<string, Hash>, now: int) {
    forall p <- vv.Keys :: Holds(view, p, vv[p], now)
  }

  /** `FindChangedPaths` at time `now`. */
  function ChangedPaths(view: View, vv: map<string, Hash>, now: int): set<string> {
    set p | p in vv && !Holds(view, p, vv[p], now)
  }

  lemma VerifiesIffNothingChanged(view: View, vv: map<string, Hash>, now: int)
    ensures Verifies(view, vv, now) <==> ChangedPaths(view, vv, now) == {}
  {
    if ChangedPaths(view, vv, now) == {} {
      forall p | p in vv
        ensures Holds(view, p, vv[p], now)
      {
        assert p !in ChangedPaths(view, vv, now);
      }
    }
  }

  predicate CapturedAt(vv: map<string, Hash>, view: View) {
    forall p <- vv.Keys :: p in view && view[p].hash == vv[p]
  }

  /**
   Version vectors are exact and free of ABA: captured at point i of a run, a vector verifies at a
   later point j exactly when no content-changing append, eviction or sweep touched a listed path
   in between and none of the captured atoms has expired.
   */
  lemma VersionVectorExact(es: seq<Event>, i: nat, j: nat, vv: map<string, Hash>, now: int)
    requires i <= j <= |es| && CapturedAt(vv, After(es[..i]).view)
    ensures Verifies(After(es[..j]).view, vv, now) <==>
              forall p <- vv.Keys :: Untouched(es, i, j, p) && !Expired(After(es[..i]).view[p], now)
  {
    hide After, Untouched;
    forall p | p in vv
      ensures Holds(After(es[..j]).view, p, vv[p], now) <==> Untouched(es, i, j, p) && !Expired(After(es[..i]).view[p], now)
    {
      HashStaysIffUntouched(es, i, j, p);
    }
  }

  // ---------------------------------------------------------------- composition by older atoms

  /** Every atom minted along a run, in order. */
  function Minted(es: seq<Event>): seq<Atom> {
    if es == [] then [] else
      var init := es[..|es| - 1];
      match es[|es| - 1]
      case Append(expr, path, expires, now) => Minted(init) + [MintAtom(expr, path, After(init).clock + 1, now, expires)]
      case _ => Minted(init)
  }

  predicate IsMinted(h: Hash, minted: seq<Atom>) {
    exists m <- minted :: m.hash == h
  }

  /** Compositions name only atoms that exist already. */
  predicate ComposesMinted(es: seq<Event>) {
    forall k :: 0 <= k < |es| && es[k].Append? && es[k].expr.ECompose? ==>
      forall h <- es[k].expr.atoms :: IsMinted(h, Minted(es[..k]))
  }

  lemma {:induction false} MintedClocks(es: seq<Event>)
    ensures forall m <- Minted(es) :: Genuine(m) && m.past == [] && m.clock <= After(es).clock
  {
    if es != [] {
      MintedClocks(es[..|es| - 1]);
      ClockGrows(es, |es| - 1, |es|);
      assert es[..|es|] == es;
    }
  }

  /** A composed hash that names a resident atom names an older one. */
  predicate OlderChildren(view: View) {
    forall p <- view.Keys, q <- view.Keys ::
      view[p].expr.ECompose? && view[q].hash in view[p].expr.atoms ==> view[q].clock < view[p].clock
  }

  /** What a minted atom composes is older, in every reachable state. */
  predicate Composable(a: Atom, minted: seq<Atom>) {
    a.expr.ECompose? ==> forall h <- a.expr.atoms :: exists m <- minted :: m.hash == h && m.clock < a.clock
  }

  lemma {:induction false} ResidentsComposable(es: seq<Event>)
    requires ComposesMinted(es)
    ensures forall p <- After(es).view.Keys :: Composable(After(es).view[p], Minted(es))
  {
    hide Composable, Genuine, Step, Minted;
    if es != [] {
      var init, e := es[..|es| - 1], es[|es| - 1];
      assert forall k :: 0 <= k < |init| ==> init[k] == es[k] && init[..k] == es[..k];
      ResidentsComposable(init);
      MintedClocks(init);
      forall p | p in After(es).view ensures Composable(After(es).view[p], Minted(es)) {
        StepResident(After(init), e, p);
        MoreMinted(es);
        var a := After(es).view[p];
        if p in After(init).view && a == After(init).view[p] {
          StillComposable(a, Minted(init), Minted(es));
        } else {
          assert e.expr.ECompose? ==> forall h <- e.expr.atoms :: IsMinted(h, Minted(init));
          NewlyComposable(a, Minted(init), After(init).clock);
          StillComposable(a, Minted(init), Minted(es));
        }
      }
    }
  }

  /** After a step, a resident is an old one or the atom just minted. */
  lemma StepResident(s: State, e: Event, p: string)
    requires p in Step(s, e).view
    ensures (p in s.view && Step(s, e).view[p] == s.view[p])
            || (e.Append? && Step(s, e).view[p] == MintAtom(e.expr, e.path, s.clock + 1, e.now, e.expires))
  {
    hide Genuine, SameContent;
  }

  lemma MoreMinted(es: seq<Event>)
    requires es != []
    ensures forall m <- Minted(es[..|es| - 1]) :: m in Minted(es)
  {
  }

  lemma StillComposable(a: Atom, minted: seq<Atom>, more: seq<Atom>)
    requires Composable(a, minted) && forall m <- minted :: m in more
    ensures Composable(a, more)
  {
    if a.expr.ECompose? {
      forall h | h in a.expr.atoms ensures exists m <- more :: m.hash == h && m.clock < a.clock {
        var m :| m in minted && m.hash == h && m.clock < a.clock;
        assert m in more;
      }
    }
  }

  lemma NewlyComposable(a: Atom, minted: seq<Atom>, clock: nat)
    requires (a.expr.ECompose? ==> forall h <- a.expr.atoms :: IsMinted(h, minted)) && a.clock == clock + 1
    requires forall m <- minted :: m.clock <= clock
    ensures Composable(a, minted)
  {
    if a.expr.ECompose? {
      forall h | h in a.expr.atoms ensures exists m <- minted :: m.hash == h && m.clock < a.clock {
        assert IsMinted(h, minted);
        var m :| m in minted && m.hash == h;
      }
    }
  }

  lemma ChildrenAreOlder(es: seq<Event>)
    requires ComposesMinted(es)
    ensures OlderChildren(After(es).view)
  {
    ResidentsComposable(es);
    MintedClocks(es);
    AfterInv(es);
    var view := After(es).view;
    forall p, q | p in view && q in view && view[p].expr.ECompose? && view[q].hash in view[p].expr.atoms
      ensures view[q].clock < view[p].clock
    {
      assert Composable(view[p], Minted(es));
      var m :| m in Minted(es) && m.hash == view[q].hash && m.clock < view[p].clock;
      EqualHashEqualClock(m, view[q]);
    }
  }

  // ---------------------------------------------------------------- refinement

  /** A plain map from path to what was last written there. */
  type Plain = map<string, Content>

  function Observe(m: Plain, path: string, now: int): Option<Content> {
    if path in m && !Past(m[path].expires, now) then Some(m[path]) else None
  }

  function ContentAt(view: View, path: string, now: int): Option<Content> {
    var a := Lookup(view, path, now);
    if a.None? then None else Some(ContentOf(a.value))
  }

  function Written(expr: Expr, expires: Deadline): Content {
    if expr.EConst? && expr.v != Nil then Bytes(Serialize(expr.v), expires) else Whole(expr, expires)
  }

  /** The appends of a run, last write wins; sweeps do nothing. */
  function PlainAfter(es: seq<Event>): Plain {
    if es == [] then map[] else
      var m := PlainAfter(es[..|es| - 1]);
      match es[|es| - 1]
      case Append(expr, path, expires, _) => m[path := Written(expr, expires)]
      case _ => m
  }

  /** The single-lock cache: every append installs. */
  function SingleStep(s: State, e: Event): State {
    match e
    case Append(expr, path, expires, now) =>
      State(s.view[path := MintAtom(expr, path, s.clock + 1, now, expires)], s.clock + 1)
    case Evict(path) => s.(view := s.view - {path})
    case Sweep(now) => s.(view := Swept(s.view, now))
  }

  function SingleAfter(es: seq<Event>): State {
    if es == [] then State(map[], 0) else SingleStep(SingleAfter(es[..|es| - 1]), es[|es| - 1])
  }

  /** Nothing is evicted for space, and no sweep is ahead of the reader's clock. */
  predicate Timely(es: seq<Event>, now: int) {
    && (forall i :: 0 <= i < |es| ==> !es[i].Evict?)
    && (forall i :: 0 <= i < |es| && es[i].Sweep? ==> es[i].now <= now)
  }

  /** The map agrees with the view wherever the view has an atom, and elsewhere holds only what has expired. */
  predicate Refines(view: View, m: Plain, now: int) {
    && (forall p <- view.Keys :: p in m && m[p] == ContentOf(view[p]))
    && (forall p <- m.Keys :: p !in view ==> Past(m[p].expires, now))
  }

  lemma RefinesObserve(view: View, m: Plain, now: int, path: string)
    requires Refines(view, m, now)
    ensures ContentAt(view, path, now) == Observe(m, path, now)
  {
  }

  lemma {:induction false} TimelyInit(es: seq<Event>, now: int)
    requires es != [] && Timely(es, now)
    ensures Timely(es[..|es| - 1], now)
  {
    var init := es[..|es| - 1];
    assert forall k :: 0 <= k < |init| ==> init[k] == es[k];
  }

  lemma {:induction false} ShardedRefines(es: seq<Event>, now: int)
    requires Timely(es, now)
    ensures Refines(After(es).view, PlainAfter(es), now)
  {
    if es != [] {
      var init, e := es[..|es| - 1], es[|es| - 1];
      TimelyInit(es, now);
      assert e == es[|es| - 1];
      ShardedRefines(init, now);
      AfterInv(init);
    }
  }

  lemma {:induction false} SingleRefines(es: seq<Event>, now: int)
    requires Timely(es, now)
    ensures Refines(SingleAfter(es).view, PlainAfter(es), now)
  {
    if es != [] {
      var init, e := es[..|es| - 1], es[|es| - 1];
      TimelyInit(es, now);
      assert e == es[|es| - 1];
      SingleRefines(init, now);
    }
  }

  /** The appends of a run without its sweeps. */
  function Appends(es: seq<Event>): seq<Event> {
    if es == [] then [] else
      Appends(es[..|es| - 1]) + (if es[|es| - 1].Append? then [es[|es| - 1]] else [])
  }

  lemma {:induction false} PlainIgnoresSweeps(es: seq<Event>)
    ensures PlainAfter(es) == PlainAfter(Appends(es))
  {
    if es != [] {
      PlainIgnoresSweeps(es[..|es| - 1]);
      if es[|es| - 1].Append? {
        var all := Appends(es);
        assert all[..|all| - 1] == Appends(es[..|es| - 1]);
      } else {
        assert Appends(es) == Appends(es[..|es| - 1]);
      }
    }
  }

  /**
   Refinement. While nothing is evicted for space, the sharded cache, the single-lock cache and a
   plain last-write map answer every read with the same content and deadline, although each cache
   sweeps at moments of its own and the sharded one skips same-content writes.
   */
  lemma CachesAgree(es: seq<Event>, es': seq<Event>, now: int, path: string)
    requires Timely(es, now) && Timely(es', now) && Appends(es) == Appends(es')
    ensures ContentAt(After(es).view, path, now) == Observe(PlainAfter(Appends(es)), path, now)
    ensures ContentAt(SingleAfter(es').view, path, now) == Observe(PlainAfter(Appends(es)), path, now)
  {
    hide *;
    ShardedRefines(es, now);
    SingleRefines(es', now);
    PlainIgnoresSweeps(es);
    PlainIgnoresSweeps(es');
    RefinesObserve(After(es).view, PlainAfter(es), now, path);
    RefinesObserve(SingleAfter(es').view, PlainAfter(es'), now, path);
  }
}
