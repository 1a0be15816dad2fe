/**
 What same-value dedup does to what was written (internal/storage/sharded_frontier.go, sameAtomContent): which writes are
 shown as they were made, and which are taken for repeats.
 */
module DedupRuns {
  import opened Core
  import opened FrontierSpec
  import opened Encoding

  // ---------------------------------------------------------------- one write after another

  function Writes(es: seq<Event>, path: string, v: Value, w: Value, d: Deadline, first: int, second: int): seq<Event> {
    es + [Append(EConst(v), path, d, first)] + [Append(EConst(w), path, d, second)]
  }

  /** The resident is the write: expression, path, deadline, time and newest clock. */
  predicate ShowsWrite(s: State, path: string, e: Expr, d: Deadline, now: int) {
    && path in s.view && s.view[path].expr == e && s.view[path].path == path && s.view[path].expires == d
    && s.view[path].phys == now && s.view[path].clock == s.clock && s.view[path].past == [] && s.view[path].nonce == 0
  }

  lemma AfterMore(es: seq<Event>, e: Event)
    ensures After(es + [e]) == Step(After(es), e)
  {
    hide Step;
    assert (es + [e])[..|es|] == es;
  }

  /** An append shows what was written, unless the resident has the same bytes and deadline; then it changes nothing. */
  lemma AppendShown(s: State, e: Expr, path: string, d: Deadline, now: int)
    requires Inv(s)
    ensures var s' := Step(s, Append(e, path, d, now));
            if path in s.view && e.EConst? && s.view[path].expr.EConst? && e.v != Nil && s.view[path].expr.v != Nil
               && s.view[path].expires == d && Serialize(s.view[path].expr.v) == Serialize(e.v)
            then s'.view == s.view else ShowsWrite(s', path, e, d, now)
    ensures forall p :: p != path ==> ResidentAt(Step(s, Append(e, path, d, now)).view, p) == ResidentAt(s.view, p)
  {
    hide Serialize, Genuine, Inv;
    AppendChangesIff(s, e, path, d, now);
  }

  lemma FirstWrite(s: State, v: Value, path: string, d: Deadline, now: int)
    requires Inv(s) && v != Nil
    ensures var view := Step(s, Append(EConst(v), path, d, now)).view;
            && path in view && view[path].expr.EConst? && view[path].expr.v != Nil && view[path].expires == d
            && Serialize(view[path].expr.v) == Serialize(v)
  {
    hide Serialize, Genuine, Inv, Step;
    AppendShown(s, EConst(v), path, d, now);
  }

  /**
   A write with the deadline of the one before it is shown if and only if its bytes differ; otherwise it changes nothing,
   whatever run came before.
   */
  lemma OverwriteShownIff(es: seq<Event>, path: string, v: Value, w: Value, d: Deadline, first: int, second: int)
    requires v != Nil && w != Nil
    ensures var one, all := es + [Append(EConst(v), path, d, first)], Writes(es, path, v, w, d, first, second);
            if Serialize(v) == Serialize(w) then After(all).view == After(one).view
            else ShowsWrite(After(all), path, EConst(w), d, second)
  {
    hide Serialize, Inv, Step, After, ShowsWrite;
    var one := es + [Append(EConst(v), path, d, first)];
    AfterInv(es);
    AfterInv(one);
    AfterMore(es, Append(EConst(v), path, d, first));
    AfterMore(one, Append(EConst(w), path, d, second));
    FirstWrite(After(es), v, path, d, first);
    AppendShown(After(one), EConst(w), path, d, second);
  }

  /** A push onto a list is shown if and only if what is pushed has bytes. */
  lemma PushShownIff(es: seq<Event>, path: string, xs: seq<Value>, x: Value, d: Deadline, first: int, second: int)
    ensures var one, all := es + [Append(EConst(VArray(xs)), path, d, first)],
                            Writes(es, path, VArray(xs), VArray(xs + [x]), d, first, second);
            if Serialize(x) == [] then After(all).view == After(one).view
            else ShowsWrite(After(all), path, EConst(VArray(xs + [x])), d, second)
  {
    hide *;
    ArrayBytes(xs, [x], x);
    OverwriteShownIff(es, path, VArray(xs), VArray(xs + [x]), d, first, second);
  }

  /** A push of the empty string is lost: the list keeps its old elements, and nothing tells. */
  lemma EmptyPushIsLost(path: string, ss: seq<string>, first: int, second: int, now: int)
    ensures var r := Lookup(After(Writes([], path, Strings(ss), Strings(ss + [""]), Never, first, second)).view, path, now);
            r.Some? && r.value.expr == EConst(Strings(ss)) && Strings(ss) != Strings(ss + [""])
  {
    hide Serialize, Step, After, Genuine, Inv;
    var one := [Append(EConst(Strings(ss)), path, Never, first)];
    assert [] + one == one;
    StringsSnoc(ss, "");
    StringBytes("");
    PushShownIff([], path, Strings(ss).elems, VString(""), Never, first, second);
    AfterInv([]);
    AfterMore([], one[0]);
    EmptyStart();
    AppendShown(After([]), one[0].expr, path, Never, first);
  }

  lemma EmptyStart()
    ensures After([]).view == map[]
  {
  }

  /** A new member of a record is shown if and only if its key or its value has bytes; set members always have. */
  lemma FieldShownIff(es: seq<Event>, path: string, m: map<string, Value>, k: string, v: Value, d: Deadline, first: int, second: int)
    requires k !in m
    ensures var one, all := es + [Append(EConst(VRecord(m)), path, d, first)],
                            Writes(es, path, VRecord(m), VRecord(m[k := v]), d, first, second);
            if k == "" && Serialize(v) == [] then After(all).view == After(one).view
            else ShowsWrite(After(all), path, EConst(VRecord(m[k := v])), d, second)
    ensures Serialize(VInt(1)) != []
  {
    hide *;
    IntBytes(1);
    NewField(m, k, v);
    OverwriteShownIff(es, path, VRecord(m), VRecord(m[k := v]), d, first, second);
  }

  lemma NewField(m: map<string, Value>, k: string, v: Value)
    requires k !in m
    ensures Serialize(VRecord(m)) == Serialize(VRecord(m[k := v])) <==> k == "" && Serialize(v) == []
  {
    hide Serialize;
    RecordGrows(m, k, v);
    if k == "" && Serialize(v) == [] { NoBytes(m, k, v); }
  }

  /** The empty key sorts first. */
  lemma NoBytes(m: map<string, Value>, k: string, v: Value)
    requires k !in m && k == "" && Serialize(v) == []
    ensures Serialize(VRecord(m)) == Serialize(VRecord(m[k := v]))
  {
    hide Serialize;
    RecordBytes(map[], k, v, m);
    assert map[] + map[k := v] + m == m[k := v];
  }

  // ---------------------------------------------------------------- whole runs

  /** The last append at a path. */
  function LastWrite(es: seq<Event>, path: string): (r: Option<Event>)
    ensures r.Some? ==> r.value.Append? && r.value.path == path && r.value in es
  {
    if es == [] then None
    else if es[|es| - 1].Append? && es[|es| - 1].path == path then Some(es[|es| - 1])
    else LastWrite(es[..|es| - 1], path)
  }

  /** The constants written at the path are told apart by their bytes. */
  predicate ToldApart(es: seq<Event>, path: string) {
    forall i, j :: 0 <= i < |es| && 0 <= j < |es| && WritesConst(es[i], path) && WritesConst(es[j], path) ==>
      Serialize(es[i].expr.v) == Serialize(es[j].expr.v) ==> es[i].expr == es[j].expr
  }

  predicate WritesConst(e: Event, path: string) {
    e.Append? && e.path == path && e.expr.EConst?
  }

  /** A resident with the expression and deadline of the last write, or none, once that has expired. */
  predicate Follows(s: State, es: seq<Event>, path: string, now: int) {
    match LastWrite(es, path)
    case None => path !in s.view
    case Some(e) =>
      if path in s.view then s.view[path].expr == e.expr && s.view[path].expires == e.expires
      else Past(e.expires, now)
  }

  lemma {:induction false} LastWriteFollows(es: seq<Event>, path: string, now: int)
    requires Timely(es, now) && ToldApart(es, path)
    ensures Follows(After(es), es, path, now)
  {
    hide Serialize, Step, Inv, After;
    if es == [] {
      EmptyStart();
    } else {
      var init, e := es[..|es| - 1], es[|es| - 1];
      assert es == init + [e];
      assert forall i :: 0 <= i < |init| ==> init[i] == es[i];
      TimelyInit(es, now);
      LastWriteFollows(init, path, now);
      AfterMore(init, e);
      AfterInv(init);
      match e {
        case Append(expr, p, d, at) =>
          AppendShown(After(init), expr, p, d, at);
          if p == path { AppendFollows(init, e, path, now); }
          assert p != path ==> ResidentAt(Step(After(init), e).view, path) == ResidentAt(After(init).view, path);
        case Evict(_) =>
        case Sweep(at) => SweepAt(After(init), at, path);
      }
    }
  }

  lemma AppendFollows(init: seq<Event>, e: Event, path: string, now: int)
    requires e.Append? && e.path == path && ToldApart(init + [e], path) && Follows(After(init), init, path, now)
    ensures Follows(Step(After(init), e), init + [e], path, now)
  {
    hide Serialize, Step, Inv, After;
    var s, es := After(init), init + [e];
    AfterInv(init);
    AppendShown(s, e.expr, path, e.expires, e.now);
    if path in s.view {
      var last := LastWrite(init, path).value;
      var i :| 0 <= i < |init| && init[i] == last;
      assert es[i] == last && es[|init|] == e;
    }
  }

  lemma SweepAt(s: State, at: int, path: string)
    ensures ResidentAt(Step(s, Sweep(at)).view, path) ==
            if path in s.view && !Past(s.view[path].expires, at) then Some(s.view[path]) else None
  {
  }

  /**
   The last write is shown exactly. Where the constants written at a path are told apart by their bytes, as strings, 64-bit
   integers and byte strings are, a read answers expression and deadline of the last write until that deadline.
   */
  lemma LastWriteExact(es: seq<Event>, path: string, now: int)
    requires Timely(es, now) && ToldApart(es, path)
    ensures var r, e := Lookup(After(es).view, path, now), LastWrite(es, path);
            && (r.Some? <==> e.Some? && !Past(e.value.expires, now))
            && (r.Some? ==> r.value.expr == e.value.expr && r.value.expires == e.value.expires)
  {
    hide After, ToldApart, Timely, LastWrite;
    LastWriteFollows(es, path, now);
  }

  /** One kind of scalar for the whole run is enough. */
  lemma OneKindToldApart(es: seq<Event>, path: string)
    requires forall i, j :: 0 <= i < |es| && 0 <= j < |es| && WritesConst(es[i], path) && WritesConst(es[j], path) ==>
               OneKind(es[i].expr.v, es[j].expr.v)
    ensures ToldApart(es, path)
  {
    hide Serialize;
    forall i, j | 0 <= i < |es| && 0 <= j < |es| && WritesConst(es[i], path) && WritesConst(es[j], path)
                  && Serialize(es[i].expr.v) == Serialize(es[j].expr.v)
      ensures es[i].expr == es[j].expr
    {
      ScalarsApart(es[i].expr.v, es[j].expr.v);
    }
  }
}
