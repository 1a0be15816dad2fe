/** One shard of the proof cache (internal/engine/cache.go): a map and a recency list over the same elements. */
module ProofCache {
  import opened Core

  // ---------------------------------------------------------------- specification

  /** A pointer to a materialized proof. */
  type ProofRef = nat

  /** A cached proof under its key; the front of a list is the most recently used. */
  datatype Entry = Entry(key: Hash, proof: ProofRef)

  function Find(l: seq<Entry>, k: Hash): Option<Entry> {
    if l == [] then None else if l[0].key == k then Some(l[0]) else Find(l[1..], k)
  }

  function Without(l: seq<Entry>, k: Hash): seq<Entry> {
    if l == [] then [] else if l[0].key == k then l[1..] else [l[0]] + Without(l[1..], k)
  }

  function GetList(l: seq<Entry>, k: Hash): seq<Entry> {
    if Find(l, k).Some? then [Find(l, k).value] + Without(l, k) else l
  }

  function SetList(l: seq<Entry>, capacity: int, k: Hash, p: ProofRef): seq<Entry> {
    if Find(l, k).Some? then [Entry(k, p)] + Without(l, k)
    else if |l| >= capacity && l != [] then [Entry(k, p)] + l[..|l| - 1]
    else [Entry(k, p)] + l
  }

  datatype Op = Get(k: Hash) | Set(k: Hash, p: ProofRef)

  function Run(ops: seq<Op>, capacity: int): seq<Entry> {
    if ops == [] then [] else
      var l := Run(ops[..|ops| - 1], capacity);
      match ops[|ops| - 1]
      case Get(k) => GetList(l, k)
      case Set(k, p) => SetList(l, capacity, k, p)
  }

  /** The keys touched along a run: every Set, and every Get that hit. */
  function Touches(ops: seq<Op>, capacity: int): seq<Hash> {
    if ops == [] then [] else
      var init := ops[..|ops| - 1];
      match ops[|ops| - 1]
      case Get(k) => Touches(init, capacity) + (if Find(Run(init, capacity), k).Some? then [k] else [])
      case Set(k, _) => Touches(init, capacity) + [k]
  }

  function Remove(ks: seq<Hash>, k: Hash): seq<Hash> {
    if ks == [] then [] else if ks[0] == k then ks[1..] else [ks[0]] + Remove(ks[1..], k)
  }

  /** Distinct keys, most recently touched first. */
  function Recent(touches: seq<Hash>): seq<Hash> {
    if touches == [] then [] else
      var k := touches[|touches| - 1];
      [k] + Remove(Recent(touches[..|touches| - 1]), k)
  }

  function First(ks: seq<Hash>, n: nat): seq<Hash> {
    if |ks| <= n then ks else ks[..n]
  }

  function KeysOf(l: seq<Entry>): (ks: seq<Hash>)
    ensures |ks| == |l| && forall i :: 0 <= i < |l| ==> ks[i] == l[i].key
  {
    seq(|l|, i requires 0 <= i < |l| => l[i].key)
  }

  function LastSet(ops: seq<Op>, k: Hash): Option<ProofRef> {
    if ops == [] then None
    else if ops[|ops| - 1].Set? && ops[|ops| - 1].k == k then Some(ops[|ops| - 1].p)
    else LastSet(ops[..|ops| - 1], k)
  }

  /** The list never holds fewer than one entry's room: a capacity below one works as one. */
  function Room(capacity: int): nat {
    if capacity < 1 then 1 else capacity
  }

  // ---------------------------------------------------------------- list lemmas

  predicate NoDup(ks: seq<Hash>) {
    forall i, j :: 0 <= i < j < |ks| ==> ks[i] != ks[j]
  }

  lemma {:induction false} RemoveMembers(ks: seq<Hash>, k: Hash)
    requires NoDup(ks)
    ensures NoDup(Remove(ks, k)) && forall x :: x in Remove(ks, k) <==> x in ks && x != k
    ensures k !in ks ==> Remove(ks, k) == ks
  {
    if ks != [] {
      assert ks == [ks[0]] + ks[1..];
      assert ks[0] !in ks[1..];
      if ks[0] != k { RemoveMembers(ks[1..], k); }
    }
  }

  lemma {:induction false} RecentNoDup(touches: seq<Hash>)
    ensures NoDup(Recent(touches))
  {
    if touches != [] {
      RecentNoDup(touches[..|touches| - 1]);
      RemoveMembers(Recent(touches[..|touches| - 1]), touches[|touches| - 1]);
    }
  }

  lemma FirstCons(x: Hash, rest: seq<Hash>, n: nat)
    requires n > 0
    ensures First([x] + rest, n) == [x] + First(rest, n - 1)
  {
  }

  lemma RemoveCons(x: Hash, rest: seq<Hash>, k: Hash)
    ensures Remove([x] + rest, k) == if x == k then rest else [x] + Remove(rest, k)
  {
    assert ([x] + rest)[1..] == rest;
  }

  /** Removing a key that is among the first n leaves the first n-1 of the rest. */
  lemma {:induction false} FirstRemove(ks: seq<Hash>, k: Hash, n: nat)
    requires n > 0 && k in First(ks, n)
    ensures First(Remove(ks, k), n - 1) == Remove(First(ks, n), k)
  {
    hide Remove;
    var x, rest := ks[0], ks[1..];
    assert ks == [x] + rest;
    FirstCons(x, rest, n);
    hide First;
    RemoveCons(x, rest, k);
    RemoveCons(x, First(rest, n - 1), k);
    if x != k {
      assert k in First(rest, n - 1);
      if n == 1 { FirstNone(rest); }
      FirstRemove(rest, k, n - 1);
      FirstCons(x, Remove(rest, k), n - 1);
    }
  }

  lemma FirstNone(ks: seq<Hash>)
    ensures First(ks, 0) == []
  {
  }

  /** Removing a key that is not among the first n leaves them. */
  lemma {:induction false} FirstKeeps(ks: seq<Hash>, k: Hash, n: nat)
    requires k !in First(ks, n) && |ks| >= n
    ensures |Remove(ks, k)| >= n - 1 && First(Remove(ks, k), n - 1) == ks[..n - 1]
    requires n > 0
  {
    assert ks[0] == First(ks, n)[0];
    if n > 1 {
      var rest := ks[1..];
      assert First(ks, n)[1..] == First(rest, n - 1);
      FirstKeeps(rest, k, n - 1);
      assert ks[..n - 1] == [ks[0]] + rest[..n - 2];
    }
  }

  lemma KeysCons(e: Entry, rest: seq<Entry>)
    ensures KeysOf([e] + rest) == [e.key] + KeysOf(rest)
  {
  }

  lemma {:induction false} FindIffKey(l: seq<Entry>, k: Hash)
    ensures Find(l, k).Some? <==> k in KeysOf(l)
    ensures Find(l, k).Some? ==> Find(l, k).value in l && Find(l, k).value.key == k
    ensures KeysOf(Without(l, k)) == Remove(KeysOf(l), k)
    ensures forall e :: e in Without(l, k) ==> e in l
  {
    hide Remove;
    if l != [] {
      var e, rest := l[0], l[1..];
      assert l == [e] + rest;
      FindIffKey(rest, k);
      KeysCons(e, rest);
      KeysCons(e, Without(rest, k));
      RemoveCons(e.key, KeysOf(rest), k);
    } else {
      RemoveNone(k);
    }
  }

  lemma RemoveNone(k: Hash)
    ensures Remove([], k) == []
  {
  }

  // ---------------------------------------------------------------- characterisation

  ghost predicate Characterised(l: seq<Entry>, ops: seq<Op>, capacity: int) {
    && KeysOf(l) == First(Recent(Touches(ops, capacity)), Room(capacity))
    && forall e <- l :: LastSet(ops, e.key) == Some(e.proof)
  }

  lemma TouchResident(recent: seq<Hash>, keys: seq<Hash>, k: Hash, room: nat)
    requires NoDup(recent) && room > 0 && keys == First(recent, room) && k in keys
    ensures [k] + Remove(keys, k) == First([k] + Remove(recent, k), room)
  {
    FirstRemove(recent, k, room);
    var r := Remove(recent, k);
    assert First([k] + r, room) == [k] + First(r, room - 1);
  }

  lemma TouchAbsent(recent: seq<Hash>, keys: seq<Hash>, k: Hash, room: nat)
    requires NoDup(recent) && room > 0 && keys == First(recent, room) && k !in keys
    ensures First([k] + Remove(recent, k), room) == [k] + (if |keys| >= room then keys[..|keys| - 1] else keys)
  {
    var r := Remove(recent, k);
    assert First([k] + r, room) == [k] + First(r, room - 1);
    if |recent| >= room {
      FirstKeeps(recent, k, room);
    } else {
      RemoveMembers(recent, k);
    }
  }

  lemma Snoc(ops: seq<Op>, op: Op, capacity: int)
    ensures Touches(ops + [op], capacity) ==
              Touches(ops, capacity) + (if op.Set? || Find(Run(ops, capacity), op.k).Some? then [op.k] else [])
    ensures forall k :: LastSet(ops + [op], k) == if op.Set? && op.k == k then Some(op.p) else LastSet(ops, k)
    ensures Run(ops + [op], capacity) ==
              if op.Get? then GetList(Run(ops, capacity), op.k) else SetList(Run(ops, capacity), capacity, op.k, op.p)
  {
    assert (ops + [op])[..|ops + [op]| - 1] == ops;
  }

  lemma RecentSnoc(ts: seq<Hash>, k: Hash)
    ensures Recent(ts + [k]) == [k] + Remove(Recent(ts), k)
  {
    assert (ts + [k])[..|ts|] == ts;
  }

  lemma GetStep(l: seq<Entry>, ops: seq<Op>, capacity: int, k: Hash)
    requires Characterised(l, ops, capacity) && l == Run(ops, capacity)
    ensures Characterised(GetList(l, k), ops + [Get(k)], capacity)
  {
    hide Touches, Run, LastSet, Recent, First, Remove, NoDup, Without, Find;
    Snoc(ops, Get(k), capacity);
    FindIffKey(l, k);
    var ts := Touches(ops, capacity);
    RecentNoDup(ts);
    if Find(l, k).Some? {
      TouchResident(Recent(ts), KeysOf(l), k, Room(capacity));
      RecentSnoc(ts, k);
      KeysCons(Find(l, k).value, Without(l, k));
    } else {
      assert Touches(ops + [Get(k)], capacity) == ts;
    }
  }

  lemma SetKeys(l: seq<Entry>, recent: seq<Hash>, capacity: int, k: Hash, p: ProofRef)
    requires KeysOf(l) == First(recent, Room(capacity)) && NoDup(recent)
    ensures KeysOf(SetList(l, capacity, k, p)) == First([k] + Remove(recent, k), Room(capacity))
  {
    hide Remove, NoDup;
    FindIffKey(l, k);
    var l' := SetList(l, capacity, k, p);
    if Find(l, k).Some? {
      TouchResident(recent, KeysOf(l), k, Room(capacity));
      assert KeysOf(l') == [k] + KeysOf(Without(l, k));
    } else {
      TouchAbsent(recent, KeysOf(l), k, Room(capacity));
      assert KeysOf(l') == [k] + (if |l| >= Room(capacity) then KeysOf(l)[..|l| - 1] else KeysOf(l));
    }
  }

  lemma SetStep(l: seq<Entry>, ops: seq<Op>, capacity: int, k: Hash, p: ProofRef)
    requires Characterised(l, ops, capacity) && l == Run(ops, capacity)
    ensures Characterised(SetList(l, capacity, k, p), ops + [Set(k, p)], capacity)
  {
    hide Touches, Run, LastSet, Recent, First, Find, Without;
    Snoc(ops, Set(k, p), capacity);
    var ts := Touches(ops, capacity);
    RecentNoDup(ts);
    RecentSnoc(ts, k);
    SetKeys(l, Recent(ts), capacity, k, p);
    NoKeyTwice(l, capacity, ops, k);
    var l' := SetList(l, capacity, k, p);
    forall e | e in l' ensures LastSet(ops + [Set(k, p)], e.key) == Some(e.proof) {
      if e != Entry(k, p) { assert e in l && e.key != k; }
    }
  }

  /** Apart from the new entry, no entry left by a Set has its key. */
  lemma NoKeyTwice(l: seq<Entry>, capacity: int, ops: seq<Op>, k: Hash)
    requires Characterised(l, ops, capacity)
    ensures forall e <- Without(l, k) :: e in l && e.key != k
    ensures Find(l, k).None? ==> forall e <- l :: e.key != k
  {
    hide Find, Without, Touches, Recent, LastSet, Remove;
    FindIffKey(l, k);
    RecentNoDup(Touches(ops, capacity));
    RemoveMembers(KeysOf(l), k);
    var w := Without(l, k);
    forall e | e in w ensures e.key != k {
      var i :| 0 <= i < |w| && w[i] == e;
      assert KeysOf(w)[i] in KeysOf(w);
    }
    forall e | e in l ensures e.key in KeysOf(l) {
      var i :| 0 <= i < |l| && l[i] == e;
      assert KeysOf(l)[i] == e.key;
    }
  }

  /**
   After any run of Gets and Sets the resident keys are exactly the most recently touched distinct
   keys that fit, in order of recency, and each holds the proof last Set for it.
   */
  lemma {:induction false} LruExact(ops: seq<Op>, capacity: int)
    ensures Characterised(Run(ops, capacity), ops, capacity)
  {
    hide Characterised;
    if ops == [] {
      EmptyRun(capacity);
    } else {
      var init, op := ops[..|ops| - 1], ops[|ops| - 1];
      LruExact(init, capacity);
      assert ops == init + [op];
      match op
      case Get(k) => GetStep(Run(init, capacity), init, capacity, k);
      case Set(k, p) => SetStep(Run(init, capacity), init, capacity, k, p);
    }
  }

  lemma EmptyRun(capacity: int)
    ensures Characterised(Run([], capacity), [], capacity)
  {
  }

  // ---------------------------------------------------------------- the shard

  /** A list element: the entry it holds is updated in place. */
  class Element {
    const key: Hash
    var proof: ProofRef

    constructor (key: Hash, proof: ProofRef)
      ensures this.key == key && this.proof == proof
    {
      this.key, this.proof := key, proof;
    }
  }

  predicate Distinct(l: seq<Element>) {
    forall i, j :: 0 <= i < j < |l| ==> l[i].key != l[j].key
  }

  /** Map and list describe the same elements. */
  predicate Agree(entries: map<Hash, Element>, l: seq<Element>) {
    && (forall i :: 0 <= i < |l| ==> l[i].key in entries && entries[l[i].key] == l[i])
    && (forall k <- entries.Keys :: entries[k] in l && entries[k].key == k)
  }

  class CacheShard {
    var entries: map<Hash, Element>
    var lru: seq<Element>
    const capacity: int

    constructor (capacity: int)
      ensures Valid() && Contents() == [] && this.capacity == capacity && lru == []
    {
      this.capacity := capacity;
      entries, lru := map[], [];
    }

    ghost predicate Valid()
      reads this
    {
      Distinct(lru) && Agree(entries, lru)
    }

    ghost function Contents(): seq<Entry>
      reads this, lru
    {
      ContentsOf(lru)
    }

    /** The position of a key's element in the list. */
    method Locate(key: Hash) returns (i: nat)
      requires Valid() && key in entries
      ensures i < |lru| && lru[i] == entries[key] && lru[i].key == key
      ensures Find(Contents(), key) == Some(Entry(key, lru[i].proof))
      ensures Without(Contents(), key) == ContentsOf(Cut(lru, i))
    {
      hide Find, Without, Distinct, Agree, Cut;
      InList(entries, lru, key);
      ghost var at :| 0 <= at < |lru| && lru[at] == entries[key];
      i := 0;
      while lru[i] != entries[key]
        invariant i <= at
        decreases at - i
      {
        i := i + 1;
      }
      FoundIn(lru, i);
    }

    /** `Get`: a hit moves the element to the front. */
    method Get(key: Hash) returns (r: Option<ProofRef>)
      requires Valid()
      modifies this`lru
      ensures Valid() && Contents() == GetList(old(Contents()), key)
      ensures r == if Find(old(Contents()), key).Some? then Some(Find(old(Contents()), key).value.proof) else None
      ensures forall e <- lru :: e in old(lru)
    {
      hide Find, Without, Distinct, Agree, Cut;
      if key !in entries {
        NotFound(entries, lru, key);
        return None;
      }
      var i := Locate(key);
      MoveOk(entries, lru, i);
      TailOf(lru, i);
      ContentsCons(lru[i], Cut(lru, i));
      r := Some(lru[i].proof);
      lru := [lru[i]] + Cut(lru, i);
    }

    /** The hit branch of `Set`: the element keeps its place in the map, takes the new proof, moves to the front. */
    method Replace(key: Hash, proof: ProofRef)
      requires Valid() && key in entries
      modifies this`lru, lru
      ensures Valid() && Contents() == [Entry(key, proof)] + Without(old(Contents()), key)
      ensures forall e <- lru :: e in old(lru)
    {
      hide Find, Without, Distinct, Agree, Cut;
      var i := Locate(key);
      MoveOk(entries, lru, i);
      NotInRest(lru, i);
      var elem, tail := lru[i], Cut(lru, i);
      TailOf(lru, i);
      ghost var rest := ContentsOf(tail);
      lru := [elem] + tail;
      elem.proof := proof;
      assert ContentsOf(tail) == rest;
      ContentsCons(elem, tail);
    }

    /** Pushes a new element to the front. */
    method PushFront(key: Hash, proof: ProofRef)
      requires Valid() && key !in entries
      modifies this
      ensures Valid() && Contents() == [Entry(key, proof)] + old(Contents())
      ensures forall e <- lru :: e in old(lru) || fresh(e)
    {
      hide Distinct, Agree;
      var elem := new Element(key, proof);
      PushOk(entries, lru, elem);
      lru := [elem] + lru;
      entries := entries[key := elem];
      assert Contents() == [Entry(key, proof)] + old(Contents());
    }

    /** Evicts the oldest element. */
    method DropBack()
      requires Valid() && lru != []
      modifies this
      ensures Valid() && Contents() == old(Contents())[..|old(lru)| - 1]
      ensures lru == old(lru)[..|old(lru)| - 1] && entries.Keys <= old(entries.Keys)
    {
      hide Distinct, Agree;
      DropBackOk(entries, lru);
      entries := entries - {lru[|lru| - 1].key};
      lru := lru[..|lru| - 1];
    }

    /** `Set`: replaces in place, or evicts the oldest when full and pushes to the front. */
    method Set(key: Hash, proof: ProofRef)
      requires Valid()
      modifies this, lru
      ensures Valid() && Contents() == SetList(old(Contents()), capacity, key, proof)
      ensures forall e <- lru :: e in old(lru) || fresh(e)
    {
      hide Find, Without, Distinct, Agree;
      if key in entries {
        Present(entries, lru, key);
        Replace(key, proof);
        return;
      }
      NotFound(entries, lru, key);
      if |lru| >= capacity && lru != [] {
        DropBack();
      }
      PushFront(key, proof);
    }

    /** `Delete`. */
    method Delete(key: Hash)
      requires Valid()
      modifies this
      ensures Valid() && Contents() == (if key in old(entries) then Without(old(Contents()), key) else old(Contents()))
      ensures entries == old(entries) - {key}
    {
      hide Find, Without, Distinct, Agree;
      if key in entries {
        var i := Locate(key);
        CutOk(entries, lru, i);
        entries := entries - {key};
        lru := Cut(lru, i);
      }
    }
  }

  function Cut(l: seq<Element>, i: nat): seq<Element>
    requires i < |l|
  {
    l[..i] + l[i + 1..]
  }

  ghost function ContentsOf(l: seq<Element>): (c: seq<Entry>)
    reads l
    ensures |c| == |l| && forall i :: 0 <= i < |l| ==> c[i] == Entry(l[i].key, l[i].proof)
  {
    seq(|l|, i requires 0 <= i < |l| reads l => Entry(l[i].key, l[i].proof))
  }

  lemma ContentsCons(e: Element, l: seq<Element>)
    ensures ContentsOf([e] + l) == [Entry(e.key, e.proof)] + ContentsOf(l)
  {
  }

  lemma TailOf(l: seq<Element>, i: nat)
    requires i < |l|
    ensures forall e <- Cut(l, i) :: e in l
  {
  }

  lemma {:induction false} FoundAt(c: seq<Entry>, i: nat)
    requires i < |c| && forall a, b :: 0 <= a < b < |c| ==> c[a].key != c[b].key
    ensures Find(c, c[i].key) == Some(c[i]) && Without(c, c[i].key) == c[..i] + c[i + 1..]
    decreases i
  {
    if i > 0 {
      FoundAt(c[1..], i - 1);
      assert c[..i] + c[i + 1..] == [c[0]] + (c[1..][..i - 1] + c[1..][i..]);
    }
  }

  lemma FoundIn(l: seq<Element>, i: nat)
    requires i < |l| && Distinct(l)
    ensures Find(ContentsOf(l), l[i].key) == Some(Entry(l[i].key, l[i].proof))
    ensures Without(ContentsOf(l), l[i].key) == ContentsOf(Cut(l, i))
  {
    hide Find, Without;
    FoundAt(ContentsOf(l), i);
    assert ContentsOf(Cut(l, i)) == ContentsOf(l)[..i] + ContentsOf(l)[i + 1..];
  }

  lemma InList(entries: map<Hash, Element>, l: seq<Element>, key: Hash)
    requires Agree(entries, l) && key in entries
    ensures entries[key] in l && entries[key].key == key
  {
  }

  lemma {:induction false} FindNone(c: seq<Entry>, k: Hash)
    requires forall i :: 0 <= i < |c| ==> c[i].key != k
    ensures Find(c, k).None?
  {
    if c != [] { FindNone(c[1..], k); }
  }

  lemma NotFound(entries: map<Hash, Element>, l: seq<Element>, key: Hash)
    requires Agree(entries, l) && key !in entries
    ensures Find(ContentsOf(l), key).None?
  {
    FindNone(ContentsOf(l), key);
  }

  lemma Present(entries: map<Hash, Element>, l: seq<Element>, key: Hash)
    requires Distinct(l) && Agree(entries, l) && key in entries
    ensures Find(ContentsOf(l), key).Some?
  {
    hide Find;
    assert entries[key] in l;
    var i :| 0 <= i < |l| && l[i] == entries[key];
    FoundAt(ContentsOf(l), i);
  }

  lemma MoveOk(entries: map<Hash, Element>, l: seq<Element>, i: nat)
    requires i < |l| && Distinct(l) && Agree(entries, l)
    ensures Distinct([l[i]] + Cut(l, i)) && Agree(entries, [l[i]] + Cut(l, i))
  {
    hide Distinct, Agree;
    CutOk(entries, l, i);
    CutKeys(entries, l, i);
    var entries' := entries - {l[i].key};
    PushOk(entries', Cut(l, i), l[i]);
    assert entries'[l[i].key := l[i]] == entries;
  }

  lemma CutKeys(entries: map<Hash, Element>, l: seq<Element>, i: nat)
    requires i < |l| && Agree(entries, l)
    ensures l[i].key in entries && entries[l[i].key] == l[i]
  {
  }

  lemma CutOk(entries: map<Hash, Element>, l: seq<Element>, i: nat)
    requires i < |l| && Distinct(l) && Agree(entries, l)
    ensures Distinct(Cut(l, i)) && Agree(entries - {l[i].key}, Cut(l, i))
  {
    hide Cut;
    CutAt(l, i);
    var l' := Cut(l, i);
    forall k | k in entries - {l[i].key} ensures entries[k] in l' {
      var j :| 0 <= j < |l| && l[j] == entries[k];
      assert l'[if j < i then j else j - 1] == l[j];
    }
  }

  lemma CutAt(l: seq<Element>, i: nat)
    requires i < |l|
    ensures |Cut(l, i)| == |l| - 1
    ensures forall j :: 0 <= j < i ==> Cut(l, i)[j] == l[j]
    ensures forall j :: i <= j < |l| - 1 ==> Cut(l, i)[j] == l[j + 1]
    ensures forall j :: i < j < |l| ==> Cut(l, i)[j - 1] == l[j]
  {
  }

  lemma NotInRest(l: seq<Element>, i: nat)
    requires i < |l| && Distinct(l)
    ensures l[i] !in Cut(l, i)
  {
  }

  lemma DropBackOk(entries: map<Hash, Element>, l: seq<Element>)
    requires l != [] && Distinct(l) && Agree(entries, l)
    ensures Distinct(l[..|l| - 1]) && Agree(entries - {l[|l| - 1].key}, l[..|l| - 1])
  {
    CutOk(entries, l, |l| - 1);
    assert Cut(l, |l| - 1) == l[..|l| - 1];
  }

  lemma PushOk(entries: map<Hash, Element>, l: seq<Element>, e: Element)
    requires Distinct(l) && Agree(entries, l) && e.key !in entries
    ensures Distinct([e] + l) && Agree(entries[e.key := e], [e] + l)
  {
    var entries', l' := entries[e.key := e], [e] + l;
    forall k | k in entries' ensures entries'[k] in l' {
      if k != e.key {
        var j :| 0 <= j < |l| && l[j] == entries[k];
        assert l'[j + 1] == l[j];
      }
    }
  }
}
