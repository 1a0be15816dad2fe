/** The S, K, I interpreter behind EApply (internal/engine/incremental.go, applyCombinator). */
module Combinator {
  import opened Core

  // ---------------------------------------------------------------- the interpreter

  function Field(fields: map<string, Value>, name: string): Value {
    if name in fields then fields[name] else Nil
  }

  function Neutral(f: Value, a: Value): Value {
    VRecord(map["fn" := f, "arg" := a])
  }

  /**
   `applyCombinator`. The S rule may run forever, so `fuel` bounds the depth of its
   recursion; None means the bound was reached.
   */
  function Apply(f: Value, a: Value, fuel: nat): Option<Value>
    decreases fuel
  {
    match f
    case VString(s) =>
      if s == "I" then Some(a)
      else if s == "K" then Some(VRecord(map["fn" := VString("K_partial"), "arg1" := a]))
      else if s == "S" then Some(VRecord(map["fn" := VString("S_partial1"), "arg1" := a]))
      else Some(Neutral(f, a))
    case VRecord(fields) =>
      var fn := Field(fields, "fn");
      if fn == VString("K_partial") then
        Some(Field(fields, "arg1"))
      else if fn == VString("S_partial1") then
        Some(VRecord(map["fn" := VString("S_partial2"), "arg1" := Field(fields, "arg1"), "arg2" := a]))
      else if fn == VString("S_partial2") then
        if fuel == 0 then None else
          var ac := Apply(Field(fields, "arg1"), a, fuel - 1);
          var bc := Apply(Field(fields, "arg2"), a, fuel - 1);
          if ac.None? || bc.None? then None else Apply(ac.value, bc.value, fuel - 1)
      else
        Some(Neutral(f, a))
    case _ => Some(Neutral(f, a))
  }

  /** The closures of S with two arguments, on which the interpreter recurs. */
  predicate WaitsForThird(f: Value) {
    f.VRecord? && Field(f.fields, "fn") == VString("S_partial2")
  }

  lemma ApplyAtOnce(f: Value, a: Value, fuel: nat)
    requires !WaitsForThird(f)
    ensures Apply(f, a, fuel) == Apply(f, a, 0)
  {
  }

  lemma ApplyThird(f: Value, a: Value, fuel: nat)
    requires WaitsForThird(f)
    ensures Apply(f, a, fuel) == if fuel == 0 then None else Third(f, a, fuel - 1)
  {
  }

  /** The S rule. */
  function Third(f: Value, a: Value, fuel: nat): Option<Value>
    requires WaitsForThird(f)
  {
    var ac, bc := Apply(Field(f.fields, "arg1"), a, fuel), Apply(Field(f.fields, "arg2"), a, fuel);
    if ac.None? || bc.None? then None else Apply(ac.value, bc.value, fuel)
  }

  /** More fuel never changes an answer. */
  lemma {:induction false} FuelIsIrrelevant(f: Value, a: Value, n: nat, m: nat)
    requires n <= m && Apply(f, a, n).Some?
    ensures Apply(f, a, m) == Apply(f, a, n)
    decreases n
  {
    hide Apply, Field;
    if WaitsForThird(f) {
      ApplyThird(f, a, n);
      ApplyThird(f, a, m);
      var x, y := Field(f.fields, "arg1"), Field(f.fields, "arg2");
      FuelIsIrrelevant(x, a, n - 1, m - 1);
      FuelIsIrrelevant(y, a, n - 1, m - 1);
      FuelIsIrrelevant(Apply(x, a, n - 1).value, Apply(y, a, n - 1).value, n - 1, m - 1);
    } else {
      ApplyAtOnce(f, a, n);
      ApplyAtOnce(f, a, m);
    }
  }

  // ---------------------------------------------------------------- the calculus

  datatype Term = S | K | I | Leaf(v: Value) | App(fn: Term, arg: Term)

  function Contract(t: Term): Option<Term> {
    match t
    case App(I, x) => Some(x)
    case App(App(K, x), y) => Some(x)
    case App(App(App(S, x), y), z) => Some(App(App(x, z), App(y, z)))
    case _ => None
  }

  predicate Normal(t: Term) {
    Contract(t).None? && (t.App? ==> Normal(t.fn) && Normal(t.arg))
  }

  /** One rewrite anywhere in the term. */
  predicate Step(t: Term, u: Term) {
    Contract(t) == Some(u) ||
    (t.App? && u.App? && ((Step(t.fn, u.fn) && t.arg == u.arg) || (t.fn == u.fn && Step(t.arg, u.arg))))
  }

  predicate IsRun(run: seq<Term>) {
    |run| > 0 && forall i :: 0 <= i < |run| - 1 ==> Step(run[i], run[i + 1])
  }

  predicate Joins(run: seq<Term>, t: Term, u: Term) {
    IsRun(run) && run[0] == t && run[|run| - 1] == u
  }

  ghost predicate Reaches(t: Term, u: Term) {
    exists run :: Joins(run, t, u)
  }

  lemma ReachesRefl(t: Term)
    ensures Reaches(t, t)
  {
    assert Joins([t], t, t);
  }

  lemma ReachesStep(t: Term, u: Term)
    requires Step(t, u)
    ensures Reaches(t, u)
  {
    assert Joins([t, u], t, u);
  }

  lemma ReachesTrans(t: Term, u: Term, w: Term)
    requires Reaches(t, u) && Reaches(u, w)
    ensures Reaches(t, w)
  {
    var p :| Joins(p, t, u);
    var q :| Joins(q, u, w);
    var run := p + q[1..];
    forall i | 0 <= i < |run| - 1
      ensures Step(run[i], run[i + 1])
    {
      if i >= |p| - 1 {
        assert run[i] == q[i - |p| + 1] && run[i + 1] == q[i - |p| + 2];
      }
    }
    assert Joins(run, t, w);
  }

  lemma ReachesApp(f: Term, f': Term, a: Term, a': Term)
    requires Reaches(f, f') && Reaches(a, a')
    ensures Reaches(App(f, a), App(f', a'))
  {
    var p :| Joins(p, f, f');
    var q :| Joins(q, a, a');
    var pf := seq(|p|, i requires 0 <= i < |p| => App(p[i], a));
    var qa := seq(|q|, i requires 0 <= i < |q| => App(f', q[i]));
    assert Joins(pf, App(f, a), App(f', a));
    assert Joins(qa, App(f', a), App(f', a'));
    ReachesTrans(App(f, a), App(f', a), App(f', a'));
  }

  // ---------------------------------------------------------------- values as terms

  predicate Reserved(v: Value) {
    v == VString("K_partial") || v == VString("S_partial1") || v == VString("S_partial2")
  }

  /** The term a value stands for: closures are partial applications, other data are constants. */
  function Decode(v: Value): Term {
    if v == VString("S") then S
    else if v == VString("K") then K
    else if v == VString("I") then I
    else if !v.VRecord? then Leaf(v)
    else if v.fields.Keys == {"fn", "arg1"} && v.fields["fn"] == VString("K_partial") then
      App(K, Decode(v.fields["arg1"]))
    else if v.fields.Keys == {"fn", "arg1"} && v.fields["fn"] == VString("S_partial1") then
      App(S, Decode(v.fields["arg1"]))
    else if v.fields.Keys == {"fn", "arg1", "arg2"} && v.fields["fn"] == VString("S_partial2") then
      App(App(S, Decode(v.fields["arg1"])), Decode(v.fields["arg2"]))
    else if v.fields.Keys == {"fn", "arg"} then
      App(Decode(v.fields["fn"]), Decode(v.fields["arg"]))
    else Leaf(v)
  }

  /** The head of the term is a constant, so no argument can make it a redex. */
  predicate Stuck(t: Term) {
    t.Leaf? || (t.App? && Stuck(t.fn))
  }

  /** The values on which the interpreter works: no reserved name outside a well-shaped closure. */
  predicate Coded(v: Value) {
    if !v.VRecord? then !Reserved(v)
    else if "fn" in v.fields && v.fields["fn"] == VString("S_partial2") then
      v.fields.Keys == {"fn", "arg1", "arg2"} && Coded(v.fields["arg1"]) && Coded(v.fields["arg2"])
    else if "fn" in v.fields && Reserved(v.fields["fn"]) then
      v.fields.Keys == {"fn", "arg1"} && Coded(v.fields["arg1"])
    else if v.fields.Keys == {"fn", "arg"} then
      Coded(v.fields["fn"]) && Coded(v.fields["arg"]) && Stuck(Decode(v.fields["fn"]))
    else true
  }

  lemma {:induction false} StuckHeadIsNoRedex(t: Term, a: Term)
    requires Stuck(t)
    ensures Contract(App(t, a)).None?
  {
    if t.App? {
      assert Stuck(t.fn);
      if t.fn.App? { assert Stuck(t.fn.fn); }
    }
  }

  lemma {:induction false} CodedIsNormal(v: Value)
    requires Coded(v)
    ensures Normal(Decode(v))
  {
    if v.VRecord? {
      if "fn" in v.fields && v.fields["fn"] == VString("S_partial2") {
        CodedIsNormal(v.fields["arg1"]);
        CodedIsNormal(v.fields["arg2"]);
      } else if "fn" in v.fields && Reserved(v.fields["fn"]) {
        CodedIsNormal(v.fields["arg1"]);
      } else if v.fields.Keys == {"fn", "arg"} {
        CodedIsNormal(v.fields["fn"]);
        CodedIsNormal(v.fields["arg"]);
        StuckHeadIsNoRedex(Decode(v.fields["fn"]), Decode(v.fields["arg"]));
      }
    }
  }

  /** The head of the term tells which kind of record the value is. */
  lemma ClosureShape(v: Value)
    requires Coded(v) && Decode(v).App?
    ensures v.VRecord?
    ensures var t, keys := Decode(v).fn, v.fields.Keys;
            || (Stuck(t) && keys == {"fn", "arg"} && t == Decode(v.fields["fn"]))
            || (t == K && keys == {"fn", "arg1"} && v.fields["fn"] == VString("K_partial"))
            || (t == S && keys == {"fn", "arg1"} && v.fields["fn"] == VString("S_partial1"))
            || (t.App? && t.fn == S && keys == {"fn", "arg1", "arg2"} && v.fields["fn"] == VString("S_partial2"))
  {
  }

  lemma {:induction false} StuckIsNoClosure(t: Term)
    requires Stuck(t)
    ensures t != S && t != K && !(t.App? && t.fn == S)
  {
    if t.App? { assert Stuck(t.fn); }
  }

  /** Different values stand for different terms. */
  lemma {:induction false} DecodeInjective(u: Value, v: Value)
    requires Coded(u) && Coded(v) && Decode(u) == Decode(v)
    ensures u == v
  {
    if Decode(u).App? {
      var p, q := u.fields, v.fields;
      ClosureShape(u);
      ClosureShape(v);
      if Stuck(Decode(u).fn) {
        StuckIsNoClosure(Decode(u).fn);
        DecodeInjective(p["fn"], q["fn"]);
        DecodeInjective(p["arg"], q["arg"]);
      } else {
        DecodeInjective(p["arg1"], q["arg1"]);
        if "arg2" in p {
          DecodeInjective(p["arg2"], q["arg2"]);
        }
      }
      assert p == q;
    }
  }

  lemma NeutralIsCoded(f: Value, a: Value)
    requires Coded(f) && Coded(a) && Stuck(Decode(f))
    ensures Coded(Neutral(f, a)) && Decode(Neutral(f, a)) == App(Decode(f), Decode(a))
  {
    var r := Neutral(f, a);
    assert r.fields.Keys == {"fn", "arg"};
  }

  lemma ReachesByS(x: Term, y: Term, z: Term, xz: Term, yz: Term, r: Term)
    requires Reaches(App(x, z), xz) && Reaches(App(y, z), yz) && Reaches(App(xz, yz), r)
    ensures Reaches(App(App(App(S, x), y), z), r)
  {
    var t := App(App(App(S, x), y), z);
    var u := App(App(x, z), App(y, z));
    ReachesStep(t, u);
    ReachesApp(App(x, z), xz, App(y, z), yz);
    ReachesTrans(t, u, App(xz, yz));
    ReachesTrans(t, App(xz, yz), r);
  }

  predicate Named(f: Value) {
    f == VString("I") || f == VString("K") || f == VString("S")
  }

  predicate WaitsForSecond(f: Value) {
    f.VRecord? && (Field(f.fields, "fn") == VString("K_partial") || Field(f.fields, "fn") == VString("S_partial1"))
  }

  function OneArg(name: string, x: Value): Value {
    VRecord(map["fn" := VString(name), "arg1" := x])
  }

  function TwoArgs(x: Value, y: Value): Value {
    VRecord(map["fn" := VString("S_partial2"), "arg1" := x, "arg2" := y])
  }

  lemma NamesAreCoded()
    ensures Decode(VString("S")) == S && Decode(VString("K")) == K && Decode(VString("I")) == I
  {
  }

  lemma OneArgIsCoded(name: string, x: Value)
    requires (name == "K_partial" || name == "S_partial1") && Coded(x)
    ensures Coded(OneArg(name, x)) && Decode(OneArg(name, x)) == App(if name == "K_partial" then K else S, Decode(x))
  {
    assert OneArg(name, x).fields.Keys == {"fn", "arg1"};
  }

  lemma TwoArgsAreCoded(x: Value, y: Value)
    requires Coded(x) && Coded(y)
    ensures Coded(TwoArgs(x, y)) && Decode(TwoArgs(x, y)) == App(App(S, Decode(x)), Decode(y))
  {
    assert TwoArgs(x, y).fields.Keys == {"fn", "arg1", "arg2"};
  }

  /** A coded closure with one argument. */
  lemma OneArgInside(f: Value)
    requires WaitsForSecond(f) && Coded(f)
    ensures "arg1" in f.fields && Coded(f.fields["arg1"])
    ensures Decode(f) == App(if Field(f.fields, "fn") == VString("K_partial") then K else S, Decode(f.fields["arg1"]))
  {
  }

  lemma ApplyNamed(f: Value, a: Value)
    requires Named(f) && Coded(a)
    ensures Apply(f, a, 0).Some? && Coded(Apply(f, a, 0).value)
    ensures var t, u := App(Decode(f), Decode(a)), Decode(Apply(f, a, 0).value); t == u || Step(t, u)
  {
    hide Coded, Decode;
    NamesAreCoded();
    if f == VString("K") { OneArgIsCoded("K_partial", a); }
    if f == VString("S") { OneArgIsCoded("S_partial1", a); }
  }

  lemma ApplySecond(f: Value, a: Value)
    requires WaitsForSecond(f) && Coded(f) && Coded(a)
    ensures Apply(f, a, 0).Some? && Coded(Apply(f, a, 0).value)
    ensures var t, u := App(Decode(f), Decode(a)), Decode(Apply(f, a, 0).value); t == u || Step(t, u)
  {
    hide Coded, Decode;
    OneArgInside(f);
    if Field(f.fields, "fn") == VString("S_partial1") { TwoArgsAreCoded(f.fields["arg1"], a); }
  }

  lemma ApplyNeutral(f: Value, a: Value)
    requires Coded(f) && !Named(f) && !WaitsForSecond(f) && !WaitsForThird(f)
    ensures Apply(f, a, 0) == Some(Neutral(f, a)) && Stuck(Decode(f))
  {
  }

  /** The rules that answer at once. */
  lemma ApplyAtOnceSound(f: Value, a: Value)
    requires Coded(f) && Coded(a) && !WaitsForThird(f)
    ensures Apply(f, a, 0).Some?
    ensures var r := Apply(f, a, 0).value;
            Coded(r) && Reaches(App(Decode(f), Decode(a)), Decode(r))
  {
    hide *;
    var t := App(Decode(f), Decode(a));
    ReachesRefl(t);
    if Named(f) {
      ApplyNamed(f, a);
      if t != Decode(Apply(f, a, 0).value) { ReachesStep(t, Decode(Apply(f, a, 0).value)); }
    } else if WaitsForSecond(f) {
      ApplySecond(f, a);
      if t != Decode(Apply(f, a, 0).value) { ReachesStep(t, Decode(Apply(f, a, 0).value)); }
    } else {
      ApplyNeutral(f, a);
      NeutralIsCoded(f, a);
    }
  }

  /** How the interpreter answers on the closure of S with two arguments. */
  lemma ApplyByS(f: Value, a: Value, fuel: nat) returns (x: Value, y: Value, ac: Value, bc: Value)
    requires WaitsForThird(f) && Coded(f) && Apply(f, a, fuel).Some?
    ensures fuel > 0 && Coded(x) && Coded(y) && Decode(f) == App(App(S, Decode(x)), Decode(y))
    ensures Apply(x, a, fuel - 1) == Some(ac) && Apply(y, a, fuel - 1) == Some(bc)
    ensures Apply(f, a, fuel) == Apply(ac, bc, fuel - 1)
  {
    x, y := f.fields["arg1"], f.fields["arg2"];
    ac, bc := Apply(x, a, fuel - 1).value, Apply(y, a, fuel - 1).value;
  }

  /**
   Whenever the interpreter answers, the answer codes a normal form that (f a) reduces to
   by the S, K and I rules.
   */
  lemma {:induction false} ApplySound(f: Value, a: Value, fuel: nat)
    requires Coded(f) && Coded(a) && Apply(f, a, fuel).Some?
    ensures var r := Apply(f, a, fuel).value;
            Coded(r) && Normal(Decode(r)) && Reaches(App(Decode(f), Decode(a)), Decode(r))
    decreases fuel
  {
    hide *;
    if WaitsForThird(f) {
      var x, y, ac, bc := ApplyByS(f, a, fuel);
      ApplySound(x, a, fuel - 1);
      ApplySound(y, a, fuel - 1);
      ApplySound(ac, bc, fuel - 1);
      ReachesByS(Decode(x), Decode(y), Decode(a), Decode(ac), Decode(bc), Decode(Apply(f, a, fuel).value));
    } else {
      ApplyAtOnce(f, a, fuel);
      ApplyAtOnceSound(f, a);
    }
    CodedIsNormal(Apply(f, a, fuel).value);
  }

  // ---------------------------------------------------------------- confluence

  /** Parallel rewriting: any set of disjoint or nested redexes at once. */
  predicate Par(t: Term, u: Term) {
    if !t.App? then t == u else
      || (u.App? && Par(t.fn, u.fn) && Par(t.arg, u.arg))
      || (t.fn == I && Par(t.arg, u))
      || (t.fn.App? && t.fn.fn == K && Par(t.fn.arg, u))
      || (t.fn.App? && t.fn.fn.App? && t.fn.fn.fn == S &&
          u.App? && u.fn.App? && u.arg.App? && u.fn.arg == u.arg.arg &&
          Par(t.fn.fn.arg, u.fn.fn) && Par(t.fn.arg, u.arg.fn) && Par(t.arg, u.arg.arg))
  }

  /** All redexes of the term contracted at once. */
  function Develop(t: Term): Term {
    match t
    case App(I, x) => Develop(x)
    case App(App(K, x), y) => Develop(x)
    case App(App(App(S, x), y), z) => App(App(Develop(x), Develop(z)), App(Develop(y), Develop(z)))
    case App(f, a) => App(Develop(f), Develop(a))
    case _ => t
  }

  function DevelopN(t: Term, n: nat): Term
    decreases n
  {
    if n == 0 then t else DevelopN(Develop(t), n - 1)
  }

  lemma ParRefl(t: Term)
    ensures Par(t, t)
  {
  }

  lemma {:induction false} StepIsPar(t: Term, u: Term)
    requires Step(t, u)
    ensures Par(t, u)
  {
    if Contract(t) == Some(u) {
      match t
      case App(I, x) => ParRefl(x);
      case App(App(K, x), y) => ParRefl(x);
      case App(App(App(S, x), y), z) => ParRefl(x); ParRefl(y); ParRefl(z);
    } else if Step(t.fn, u.fn) && t.arg == u.arg {
      StepIsPar(t.fn, u.fn);
      ParRefl(t.arg);
    } else {
      StepIsPar(t.arg, u.arg);
      ParRefl(t.fn);
    }
  }

  lemma ParPartial(c: Term, x: Term, w: Term)
    requires c == S || c == K
    requires Par(App(c, x), w)
    ensures w.App? && w.fn == c && Par(x, w.arg)
  {
  }

  lemma ParPartial2(x: Term, y: Term, w: Term)
    requires Par(App(App(S, x), y), w)
    ensures w.App? && w.fn.App? && w.fn.fn == S && Par(x, w.fn.arg) && Par(y, w.arg)
  {
    ParPartial(S, x, w.fn);
  }

  /** Takahashi's triangle: every parallel step can be completed to the full development. */
  lemma {:induction false} Triangle(t: Term, u: Term)
    requires Par(t, u)
    ensures Par(u, Develop(t))
  {
    match t
    case App(I, x) =>
      if Par(x, u) { Triangle(x, u); } else { Triangle(x, u.arg); }
    case App(App(K, x), y) =>
      if Par(x, u) {
        Triangle(x, u);
      } else {
        ParPartial(K, x, u.fn);
        Triangle(x, u.fn.arg);
      }
    case App(App(App(S, x), y), z) =>
      if u.App? && Par(t.fn, u.fn) && Par(z, u.arg) {
        ParPartial2(x, y, u.fn);
        Triangle(x, u.fn.fn.arg);
        Triangle(y, u.fn.arg);
        Triangle(z, u.arg);
      } else {
        Triangle(x, u.fn.fn);
        Triangle(y, u.arg.fn);
        Triangle(z, u.arg.arg);
        assert Par(u.fn, App(Develop(x), Develop(z)));
        assert Par(u.arg, App(Develop(y), Develop(z)));
      }
    case App(f, a) =>
      Triangle(f, u.fn);
      Triangle(a, u.arg);
    case _ =>
  }

  lemma {:induction false} DevelopMonotone(t: Term, u: Term, n: nat)
    requires Par(t, u)
    ensures Par(DevelopN(t, n), DevelopN(u, n))
    decreases n
  {
    if n > 0 {
      Triangle(t, u);
      Triangle(u, Develop(t));
      DevelopMonotone(Develop(t), Develop(u), n - 1);
    }
  }

  lemma {:induction false} NormalIsFixed(t: Term, u: Term)
    requires Normal(t) && Par(t, u)
    ensures u == t
  {
    if t.App? {
      NormalIsFixed(t.fn, u.fn);
      NormalIsFixed(t.arg, u.arg);
    }
  }

  lemma {:induction false} DevelopFixed(t: Term, n: nat)
    requires Normal(t)
    ensures DevelopN(t, n) == t
    decreases n
  {
    if n > 0 {
      ParRefl(t);
      Triangle(t, t);
      NormalIsFixed(t, Develop(t));
      DevelopFixed(t, n - 1);
    }
  }

  lemma {:induction false} RunIsDevelopment(run: seq<Term>)
    requires IsRun(run) && Normal(run[|run| - 1])
    ensures DevelopN(run[0], |run| - 1) == run[|run| - 1]
    decreases |run|
  {
    if |run| > 1 {
      var n := |run| - 2;
      RunIsDevelopment(run[1..]);
      StepIsPar(run[0], run[1]);
      Triangle(run[0], run[1]);
      DevelopMonotone(run[1], Develop(run[0]), n);
      NormalIsFixed(run[|run| - 1], DevelopN(Develop(run[0]), n));
    }
  }

  lemma {:induction false} DevelopAdd(t: Term, m: nat, n: nat)
    ensures DevelopN(t, m + n) == DevelopN(DevelopN(t, m), n)
    decreases m
  {
    if m > 0 {
      DevelopAdd(Develop(t), m - 1, n);
    }
  }

  /** A term has at most one normal form. */
  lemma NormalFormUnique(t: Term, u: Term, w: Term)
    requires Reaches(t, u) && Reaches(t, w) && Normal(u) && Normal(w)
    ensures u == w
  {
    var p :| Joins(p, t, u);
    var q :| Joins(q, t, w);
    RunIsDevelopment(p);
    RunIsDevelopment(q);
    if |p| <= |q| {
      DevelopAdd(t, |p| - 1, |q| - |p|);
      DevelopFixed(u, |q| - |p|);
    } else {
      DevelopAdd(t, |q| - 1, |p| - |q|);
      DevelopFixed(w, |p| - |q|);
    }
  }

  /**
   The interpreter's answer is the only one there is: a value coding a normal form reachable
   from (f a), by whatever reduction order, is the value returned.
   */
  lemma ApplyIsTheNormalForm(f: Value, a: Value, fuel: nat, v: Value)
    requires Coded(f) && Coded(a) && Apply(f, a, fuel).Some?
    requires Coded(v) && Reaches(App(Decode(f), Decode(a)), Decode(v))
    ensures Apply(f, a, fuel) == Some(v)
  {
    var r := Apply(f, a, fuel).value;
    ApplySound(f, a, fuel);
    CodedIsNormal(v);
    NormalFormUnique(App(Decode(f), Decode(a)), Decode(r), Decode(v));
    DecodeInjective(r, v);
  }
}
