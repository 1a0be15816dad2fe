/**
 What `Serialize` yields for every kind of value (internal/core/types.go): the laws that determine it, and which values it
 tells apart.
 */
module Encoding {
  import opened Core

  // ---------------------------------------------------------------- arrays

  lemma {:induction false} AllOf(w: Value, w': Value, xs: seq<Value>)
    requires forall i :: 0 <= i < |xs| ==> xs[i] < w && xs[i] < w'
    ensures SerializeAll(w, xs) == SerializeAll(w', xs)
    decreases |xs|
  {
    if xs != [] { AllOf(w, w', xs[1..]); }
  }

  ghost predicate AllIn(w: Value, xs: seq<Value>) {
    forall i :: 0 <= i < |xs| ==> xs[i] < w
  }

  lemma AllCons(w: Value, x: Value, xs: seq<Value>)
    requires x < w && AllIn(w, xs)
    ensures AllIn(w, [x] + xs) && SerializeAll(w, [x] + xs) == Serialize(x) + SerializeAll(w, xs)
  {
    hide Serialize;
    assert ([x] + xs)[1..] == xs;
  }

  lemma {:induction false} AllConcat(w: Value, xs: seq<Value>, ys: seq<Value>)
    requires AllIn(w, xs) && AllIn(w, ys)
    ensures AllIn(w, xs + ys) && SerializeAll(w, xs + ys) == SerializeAll(w, xs) + SerializeAll(w, ys)
    decreases |xs|
  {
    hide Serialize, SerializeAll;
    if xs == [] {
      assert xs + ys == ys;
      NoneOf(w);
    } else {
      var x, rest := xs[0], xs[1..];
      assert xs == [x] + rest && xs + ys == [x] + (rest + ys);
      AllConcat(w, rest, ys);
      AllCons(w, x, rest);
      AllCons(w, x, rest + ys);
    }
  }

  lemma NoneOf(w: Value)
    ensures SerializeAll(w, []) == []
  {
  }

  /** The bytes of an array are those of its elements, in order. */
  lemma ArrayBytes(xs: seq<Value>, ys: seq<Value>, x: Value)
    ensures Serialize(VArray([])) == []
    ensures Serialize(VArray([x])) == Serialize(x)
    ensures Serialize(VArray(xs + ys)) == Serialize(VArray(xs)) + Serialize(VArray(ys))
  {
    var all := VArray(xs + ys);
    forall i | 0 <= i < |xs| ensures xs[i] < all { assert (xs + ys)[i] == xs[i]; assert all.elems[i] < all; }
    forall i | 0 <= i < |ys| ensures ys[i] < all { assert (xs + ys)[|xs| + i] == ys[i]; assert all.elems[|xs| + i] < all; }
    AllConcat(all, xs, ys);
    AllOf(all, VArray(xs), xs);
    AllOf(all, VArray(ys), ys);
    ArrayOne(x);
  }

  lemma ArrayOne(x: Value)
    ensures Serialize(VArray([x])) == Serialize(x)
  {
    var w := VArray([x]);
    assert [x][1..] == [];
    assert SerializeAll(w, [x]) == Serialize(x) + SerializeAll(w, []);
    assert SerializeAll(w, []) == [];
  }

  // ---------------------------------------------------------------- records

  lemma SortedStep(keys: set<string>, k: string)
    requires IsLeast(k, keys)
    ensures SortedKeys(keys) == [k] + SortedKeys(keys - {k})
  {
    forall j | IsLeast(j, keys) ensures j == k { LeqAntisymmetric(j, k); }
  }

  /** Every key of `a` sorts before every key of `b`. */
  predicate AllBefore(a: set<string>, b: set<string>) {
    forall x <- a, y <- b :: Leq(x, y) && x != y
  }

  lemma LeastFirst(a: set<string>, b: set<string>, k: string)
    requires AllBefore(a, b) && IsLeast(k, a)
    ensures IsLeast(k, a + b) && AllBefore(a - {k}, b) && a + b - {k} == (a - {k}) + b
  {
    hide Leq;
  }

  lemma {:induction false} SortedConcat(a: set<string>, b: set<string>)
    requires AllBefore(a, b)
    ensures SortedKeys(a + b) == SortedKeys(a) + SortedKeys(b)
    decreases |a|
  {
    hide *;
    if a == {} {
      assert a + b == b;
      SortedNone();
    } else {
      LeastExists(a);
      var k :| IsLeast(k, a);
      LeastIn(a, k);
      LeastFirst(a, b, k);
      SortedStep(a, k);
      SortedStep(a + b, k);
      SortedConcat(a - {k}, b);
    }
  }

  lemma LeastIn(a: set<string>, k: string)
    requires IsLeast(k, a)
    ensures k in a
  {
  }

  lemma SortedNone()
    ensures SortedKeys({}) == []
  {
  }

  lemma {:induction false} FieldsOf(w: Value, w': Value, keys: seq<string>)
    requires w.VRecord? && w'.VRecord?
    requires forall k <- keys :: k in w.fields && k in w'.fields && w.fields[k] == w'.fields[k]
    ensures SerializeFields(w, keys) == SerializeFields(w', keys)
    decreases |keys|
  {
    hide Serialize;
    if keys != [] { FieldsOf(w, w', keys[1..]); }
  }

  lemma {:induction false} FieldsConcat(w: Value, ks: seq<string>, ls: seq<string>)
    requires w.VRecord? && (forall k <- ks :: k in w.fields) && (forall k <- ls :: k in w.fields)
    ensures SerializeFields(w, ks + ls) == SerializeFields(w, ks) + SerializeFields(w, ls)
    decreases |ks|
  {
    hide Serialize;
    if ks == [] {
      assert ks + ls == ls;
    } else {
      assert (ks + ls)[1..] == ks[1..] + ls;
      FieldsConcat(w, ks[1..], ls);
    }
  }

  lemma RecordIs(m: map<string, Value>)
    ensures Serialize(VRecord(m)) == SerializeFields(VRecord(m), SortedKeys(m.Keys))
  {
  }

  lemma RecordConcat(a: map<string, Value>, b: map<string, Value>)
    requires AllBefore(a.Keys, b.Keys)
    ensures Serialize(VRecord(a + b)) == Serialize(VRecord(a)) + Serialize(VRecord(b))
  {
    hide Serialize, SerializeFields, SortedKeys, Leq;
    var all := VRecord(a + b);
    assert (a + b).Keys == a.Keys + b.Keys;
    SortedConcat(a.Keys, b.Keys);
    RecordIs(a);
    RecordIs(b);
    RecordIs(a + b);
    FieldsConcat(all, SortedKeys(a.Keys), SortedKeys(b.Keys));
    FieldsOf(all, VRecord(a), SortedKeys(a.Keys));
    FieldsOf(all, VRecord(b), SortedKeys(b.Keys));
  }

  lemma RecordOne(k: string, v: Value)
    ensures Serialize(VRecord(map[])) == []
    ensures Serialize(VRecord(map[k := v])) == Octets(k) + Serialize(v)
  {
    hide Serialize, SortedKeys, Leq;
    var m := map[k := v];
    RecordIs(m);
    var none: map<string, Value> := map[];
    RecordIs(none);
    SortedNone();
    assert none.Keys == {};
    assert m.Keys == {k};
    LeqTotal(k, k);
    SortedStep({k}, k);
    assert {k} - {k} == {};
    assert [k][1..] == [];
  }

  /** The bytes of a record: key and value of each field, in key order. */
  lemma RecordBytes(a: map<string, Value>, k: string, v: Value, b: map<string, Value>)
    requires AllBefore(a.Keys, {k}) && AllBefore({k}, b.Keys)
    ensures Serialize(VRecord(map[])) == []
    ensures Serialize(VRecord(a + map[k := v] + b)) == Serialize(VRecord(a)) + Octets(k) + Serialize(v) + Serialize(VRecord(b))
  {
    hide Serialize, Leq;
    var m := map[k := v];
    assert m.Keys == {k} && (a + m).Keys == a.Keys + {k};
    BeforeTrans(a.Keys, k, b.Keys);
    RecordConcat(a, m);
    RecordConcat(a + m, b);
    RecordOne(k, v);
  }

  /** The fields before and after a new key. */
  lemma SplitAt(m: map<string, Value>, k: string, v: Value) returns (a: map<string, Value>, b: map<string, Value>)
    requires k !in m
    ensures m == a + b && m[k := v] == a + map[k := v] + b
    ensures AllBefore(a.Keys, {k}) && AllBefore({k}, b.Keys)
  {
    hide Leq;
    a := map j | j in m && Leq(j, k) :: m[j];
    b := map j | j in m && !Leq(j, k) :: m[j];
    forall j | j in b ensures Leq(k, j) { LeqTotal(j, k); }
  }

  lemma BeforeTrans(a: set<string>, k: string, b: set<string>)
    requires AllBefore(a, {k}) && AllBefore({k}, b)
    ensures AllBefore(a, b)
  {
    hide Leq;
    forall x, y | x in a && y in b ensures Leq(x, y) && x != y {
      LeqTransitive(x, k, y);
      if x == y { LeqAntisymmetric(x, k); }
    }
  }

  /** A record with one more field has that much more bytes. */
  lemma RecordGrows(m: map<string, Value>, k: string, v: Value)
    requires k !in m
    ensures |Serialize(VRecord(m[k := v]))| == |Serialize(VRecord(m))| + |k| + |Serialize(v)|
  {
    hide Serialize, Leq, AllBefore;
    var a, b := SplitAt(m, k, v);
    RecordBytes(a, k, v, b);
    BeforeTrans(a.Keys, k, b.Keys);
    RecordConcat(a, b);
  }

  // ---------------------------------------------------------------- scalars

  predicate Int64(n: int) {
    -0x8000_0000_0000_0000 <= n < 0x8000_0000_0000_0000
  }

  /** The number eight octets stand for, most significant first. */
  function Number(bytes: seq<Symbol>): int {
    if bytes == [] then 0
    else Number(bytes[..|bytes| - 1]) * 0x100 + (if bytes[|bytes| - 1].Octet? then bytes[|bytes| - 1].c as int else 0)
  }

  lemma NumberNext(bytes: seq<Symbol>, i: nat)
    requires i < |bytes| && bytes[i].Octet?
    ensures Number(bytes[..i + 1]) == Number(bytes[..i]) * 0x100 + bytes[i].c as int
  {
    assert bytes[..i + 1][..i] == bytes[..i];
  }

  lemma IntOctets(n: int)
    ensures var b, u := Serialize(VInt(n)), n % 0x1_0000_0000_0000_0000;
            && |b| == 8 && (forall i :: 0 <= i < 8 ==> b[i].Octet?)
            && b[0].c as int == u / 0x100_0000_0000_0000 && b[1].c as int == u / 0x1_0000_0000_0000 % 0x100
            && b[2].c as int == u / 0x100_0000_0000 % 0x100 && b[3].c as int == u / 0x1_0000_0000 % 0x100
            && b[4].c as int == u / 0x100_0000 % 0x100 && b[5].c as int == u / 0x1_0000 % 0x100
            && b[6].c as int == u / 0x100 % 0x100 && b[7].c as int == u % 0x100
  {
  }

  /** An integer is written as the eight octets, most significant first, of its value modulo 2^64. */
  lemma IntBytes(n: int)
    ensures var b := Serialize(VInt(n)); |b| == 8 && forall i :: 0 <= i < 8 ==> b[i].Octet? && b[i].c as int < 0x100
    ensures Number(Serialize(VInt(n))) == n % 0x1_0000_0000_0000_0000
  {
    hide Number, Serialize;
    var b := Serialize(VInt(n));
    var u := n % 0x1_0000_0000_0000_0000;
    IntOctets(n);
    NumberNone();
    Quotients(u);
    assert b[..0] == [] && b[..8] == b;
    NumberStep(b, 0, 0, u / 0x100_0000_0000_0000);
    NumberStep(b, 1, u / 0x100_0000_0000_0000, u / 0x1_0000_0000_0000);
    NumberStep(b, 2, u / 0x1_0000_0000_0000, u / 0x100_0000_0000);
    NumberStep(b, 3, u / 0x100_0000_0000, u / 0x1_0000_0000);
    NumberStep(b, 4, u / 0x1_0000_0000, u / 0x100_0000);
    NumberStep(b, 5, u / 0x100_0000, u / 0x1_0000);
    NumberStep(b, 6, u / 0x1_0000, u / 0x100);
    NumberStep(b, 7, u / 0x100, u);
  }

  lemma NumberStep(b: seq<Symbol>, i: nat, before: int, v: int)
    requires i < |b| && b[i].Octet? && Number(b[..i]) == before && before == v / 0x100 && b[i].c as int == v % 0x100
    ensures Number(b[..i + 1]) == v
  {
    hide Number;
    NumberNext(b, i);
  }

  lemma Quotients(u: int)
    requires 0 <= u < 0x1_0000_0000_0000_0000
    ensures u / 0x100_0000_0000_0000 < 0x100 && u / 0x1_0000_0000_0000 / 0x100 == u / 0x100_0000_0000_0000
    ensures u / 0x100_0000_0000 / 0x100 == u / 0x1_0000_0000_0000 && u / 0x1_0000_0000 / 0x100 == u / 0x100_0000_0000
    ensures u / 0x100_0000 / 0x100 == u / 0x1_0000_0000 && u / 0x1_0000 / 0x100 == u / 0x100_0000
    ensures u / 0x100 / 0x100 == u / 0x1_0000
  {
  }

  lemma NumberNone()
    ensures Number([]) == 0
  {
  }

  predicate OneKind(v: Value, w: Value) {
    || (v.VBool? && w.VBool?) || (v.VString? && w.VString?) || (v.VBytes? && w.VBytes?)
    || (v.VInt? && w.VInt? && Int64(v.n) && Int64(w.n))
  }

  /** Values of one scalar kind are told apart by their bytes. */
  lemma ScalarsApart(v: Value, w: Value)
    requires OneKind(v, w)
    ensures Serialize(v) == Serialize(w) <==> v == w
  {
    match v {
      case VInt(n) => IntsApart(n, w.n);
      case VString(s) => OctetsInjective(s, w.s);
      case VBytes(s) => OctetsInjective(s, w.bs);
      case _ =>
    }
  }

  lemma IntsApart(n: int, m: int)
    requires Int64(n) && Int64(m)
    ensures Serialize(VInt(n)) == Serialize(VInt(m)) <==> n == m
  {
    hide Serialize, Number;
    IntBytes(n);
    IntBytes(m);
  }

  // ---------------------------------------------------------------- lists of strings

  function Strings(ss: seq<string>): Value {
    VArray(seq(|ss|, i requires 0 <= i < |ss| => VString(ss[i])))
  }

  function Glued(ss: seq<string>): string {
    if ss == [] then "" else Glued(ss[..|ss| - 1]) + ss[|ss| - 1]
  }

  lemma StringsSnoc(ss: seq<string>, s: string)
    ensures Strings(ss + [s]) == VArray(Strings(ss).elems + [VString(s)])
  {
  }

  lemma {:induction false} ListBytes(ss: seq<string>)
    ensures Serialize(Strings(ss)) == Octets(Glued(ss))
  {
    hide Serialize;
    if ss == [] {
      ArrayBytes([], [], VNull);
      assert Strings(ss) == VArray([]);
    } else {
      var init, s := ss[..|ss| - 1], ss[|ss| - 1];
      ListBytes(init);
      assert ss == init + [s];
      StringsSnoc(init, s);
      ArrayBytes(Strings(init).elems, [VString(s)], VString(s));
      StringBytes(s);
    }
  }

  lemma StringBytes(s: string)
    ensures Serialize(VString(s)) == Octets(s)
  {
  }

  /** Two lists of strings have the same bytes if and only if they read the same without their boundaries. */
  lemma ListsConfusedIff(ss: seq<string>, ts: seq<string>)
    ensures Serialize(Strings(ss)) == Serialize(Strings(ts)) <==> Glued(ss) == Glued(ts)
  {
    hide Serialize, Strings;
    ListBytes(ss);
    ListBytes(ts);
    OctetsInjective(Glued(ss), Glued(ts));
  }
}
