/**
 Field access over compositions (internal/engine/incremental.go, extractField), in both evaluators: a field of a composition is
 the value of the child of that path, a field that is not there is null.
 */
module FieldReads {
  import opened Core
  import opened ProofSpec
  import opened StaleNodes
  import opened Composition

  // ---------------------------------------------------------------- node trees

  predicate HasKid(t: Tree, i: nat, c: string) {
    exists j :: i <= j < |t.kids| && t.kids[j].path == c
  }

  lemma {:induction false} RecordKeys(t: Tree, i: nat, rec: map<string, Value>, x: map<string, Expr>, ap: Applier, c: string)
    requires i <= |t.kids| && EvalKids(t, i, rec, x, ap).Ok?
    ensures var r := EvalKids(t, i, rec, x, ap).value; r.VRecord? && (c in r.fields <==> c in rec || HasKid(t, i, c))
    decreases |t.kids| - i
  {
    hide Eval;
    if i < |t.kids| {
      var r := Eval(t.kids[i], x, ap);
      RecordKeys(t, i + 1, rec[t.kids[i].path := r.value], x, ap, c);
      if HasKid(t, i, c) && t.kids[i].path != c {
        var j :| i <= j < |t.kids| && t.kids[j].path == c;
        assert HasKid(t, i + 1, c);
      }
    }
  }

  /** The node reads a field of its first child, which is a composition that evaluates. */
  predicate ReadsField(t: Tree, x: map<string, Expr>, ap: Applier, field: string) {
    && t.kids != [] && t.path in x && x[t.path].EFieldAccess? && x[t.path].field == field
    && t.kids[0].path in x && x[t.kids[0].path].ECompose? && Eval(t.kids[0], x, ap).Ok?
  }

  /** A field of a composition is the value of the child of that path; without such a child it is null. */
  lemma FieldOfComposition(t: Tree, x: map<string, Expr>, ap: Applier, field: string, k: nat)
    requires ReadsField(t, x, ap, field)
    ensures var c := t.kids[0];
            && (k < |c.kids| && c.kids[k].path == field && Apart(c, k) ==> Eval(t, x, ap) == Eval(c.kids[k], x, ap))
            && (!HasKid(c, 0, field) ==> Eval(t, x, ap) == Ok(VNull))
  {
    hide EvalKids;
    var c := t.kids[0];
    assert Eval(c, x, ap) == EvalKids(c, 0, map[], x, ap);
    RecordKeys(c, 0, map[], x, ap, field);
    if k < |c.kids| && c.kids[k].path == field && Apart(c, k) { EvalField(c, 0, map[], x, ap, k); }
  }

  /** A field of anything but a record is null. */
  lemma FieldOfConstant(t: Tree, x: map<string, Expr>, ap: Applier)
    requires t.kids != [] && t.path in x && x[t.path].EFieldAccess? && t.kids[0].path in x
    requires x[t.kids[0].path].EConst? && !x[t.kids[0].path].v.VRecord?
    ensures Eval(t, x, ap) == Ok(VNull)
  {
  }

  // ---------------------------------------------------------------- expressions against a store

  /** Composed hash `k` resolves, and no later one resolves to the same path. */
  predicate Stands(s: Store, atoms: seq<Hash>, k: nat) {
    && k < |atoms| && Resolve(s, atoms[k]).Some?
    && forall j :: k < j < |atoms| && Resolve(s, atoms[j]).Some? ==> Resolve(s, atoms[j]).value.path != Resolve(s, atoms[k]).value.path
  }

  lemma {:induction false} TreeKeeps(s: Store, atoms: seq<Hash>, rec: map<string, Value>, ap: Applier, fuel: nat, c: string)
    requires c in rec && forall j :: 0 <= j < |atoms| && Resolve(s, atoms[j]).Some? ==> Resolve(s, atoms[j]).value.path != c
    ensures var r := TreeRecord(s, atoms, rec, ap, fuel);
            r.Some? && r.value.Ok? ==> r.value.value.VRecord? && c in r.value.value.fields && r.value.value.fields[c] == rec[c]
    decreases |atoms|
  {
    hide TreeValue, Resolve;
    if atoms != [] {
      var a := Resolve(s, atoms[0]);
      if a.Some? {
        var r := TreeValue(s, a.value.expr, ap, fuel);
        if r.Some? && r.value.Ok? { TreeKeeps(s, atoms[1..], rec[a.value.path := r.value.value], ap, fuel, c); }
      }
    }
  }

  lemma {:induction false} TreeField(s: Store, atoms: seq<Hash>, rec: map<string, Value>, ap: Applier, fuel: nat, k: nat)
    requires Stands(s, atoms, k)
    requires var r := TreeRecord(s, atoms, rec, ap, fuel); r.Some? && r.value.Ok?
    ensures var m, c := TreeRecord(s, atoms, rec, ap, fuel).value.value, Resolve(s, atoms[k]).value;
            m.VRecord? && c.path in m.fields && TreeValue(s, c.expr, ap, fuel) == Some(Ok(m.fields[c.path]))
    decreases |atoms|
  {
    hide TreeValue, Resolve;
    var a := Resolve(s, atoms[0]).value;
    var r := TreeValue(s, a.expr, ap, fuel).value.value;
    if k == 0 {
      TreeKeeps(s, atoms[1..], rec[a.path := r], ap, fuel, a.path);
    } else {
      assert atoms[1..][k - 1] == atoms[k];
      TreeField(s, atoms[1..], rec[a.path := r], ap, fuel, k - 1);
    }
  }

  /** The same against a store: a field of a composition is the value of what the hash of that path resolves to. */
  lemma FieldOfStored(s: Store, atoms: seq<Hash>, field: string, ap: Applier, fuel: nat, k: nat)
    requires Stands(s, atoms, k) && Resolve(s, atoms[k]).value.path == field
    requires var r := TreeValue(s, ECompose(atoms), ap, fuel + 1); r.Some? && r.value.Ok?
    ensures TreeValue(s, EFieldAccess(field, ECompose(atoms)), ap, fuel + 2) == TreeValue(s, Resolve(s, atoms[k]).value.expr, ap, fuel)
  {
    hide Resolve, TreeRecord;
    TreeField(s, atoms, map[], ap, fuel, k);
  }

  /** A hash resolves to the current atom of its path; one whose path is gone counts as it was. */
  lemma ResolvesTo(s: Store, h: Hash)
    requires h in s.index
    ensures s.index[h].path in s.frontier && s.index[h].path != "" ==> Resolve(s, h) == Some(s.frontier[s.index[h].path])
    ensures s.index[h].path !in s.frontier ==> Resolve(s, h) == Some(s.index[h])
  {
  }
}
