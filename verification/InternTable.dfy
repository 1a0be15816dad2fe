/**
 * The intern table in place (internal/core/intern.go): 256 shards of hash buckets, a read probe, a second search,
 * an append and a global ID counter.
 */
module InternTable {
  import opened Core
  import opened InternSpec

  /** What one call does to the known nodes: the ID of an equal node, or the next ID for a new one. */
  ghost predicate Interns(nodes: Nodes, next: nat, s: Shape, nodes': Nodes, next': nat, id: nat) {
    if s in nodes.Values then nodes' == nodes && next' == next && id in nodes && nodes[id] == s
    else id == next + 1 && next' == next + 1 && nodes' == nodes[id := s]
  }

  /** The invariant of the table between calls. */
  ghost predicate TableInv(nodes: Nodes, next: nat) {
    Founded(nodes) && Unique(nodes) && forall id <- nodes :: id <= next
  }

  lemma InternsKeeps(nodes: Nodes, next: nat, s: Shape, nodes': Nodes, next': nat, id: nat)
    requires TableInv(nodes, next) && Interns(nodes, next, s, nodes', next', id) && KidsIn(nodes, s)
    ensures TableInv(nodes', next') && id in nodes' && nodes'[id] == s
    ensures forall k <- nodes :: k in nodes' && nodes'[k] == nodes[k]
  {
    hide Founded, Unique;
    if s !in nodes.Values {
      AddKeeps(nodes, id, s);
    }
  }

  /** One call of a run: the shape asked for, the ID returned and the nodes known afterwards. */
  datatype Call = Call(s: Shape, id: nat, nodes: Nodes, next: nat)

  function NodesBefore(run: seq<Call>, i: nat): Nodes
    requires i <= |run|
  {
    if i == 0 then map[] else run[i - 1].nodes
  }

  function NextBefore(run: seq<Call>, i: nat): nat
    requires i <= |run|
  {
    if i == 0 then 0 else run[i - 1].next
  }

  /** A sequence of `Intern` calls on an empty table; children come from results already returned. */
  ghost predicate IsRun(run: seq<Call>) {
    forall i :: 0 <= i < |run| ==>
      && Interns(NodesBefore(run, i), NextBefore(run, i), run[i].s, run[i].nodes, run[i].next, run[i].id)
      && forall k <- Kids(run[i].s) :: exists j :: 0 <= j < i && run[j].id == k
  }

  lemma RunAt(run: seq<Call>, i: nat)
    requires IsRun(run) && i < |run|
    ensures Interns(NodesBefore(run, i), NextBefore(run, i), run[i].s, run[i].nodes, run[i].next, run[i].id)
    ensures forall k <- Kids(run[i].s) :: exists j :: 0 <= j < i && run[j].id == k
  {
  }

  /** The first `n` results are known nodes holding what was asked for. */
  ghost predicate Recorded(run: seq<Call>, n: nat, nodes: Nodes)
    requires n <= |run|
  {
    forall j :: 0 <= j < n ==> run[j].id in nodes && nodes[run[j].id] == run[j].s
  }

  lemma {:induction false} RunKeeps(run: seq<Call>, n: nat)
    requires IsRun(run) && n <= |run|
    ensures TableInv(NodesBefore(run, n), NextBefore(run, n)) && Recorded(run, n, NodesBefore(run, n))
  {
    hide TableInv, Interns, IsRun;
    if n == 0 {
      EmptyInv();
    } else {
      var i := n - 1;
      RunKeeps(run, i);
      RunAt(run, i);
      hide Kids;
      forall k | k in Kids(run[i].s) ensures k in NodesBefore(run, i) {
        var j :| 0 <= j < i && run[j].id == k;
      }
      InternsKeeps(NodesBefore(run, i), NextBefore(run, i), run[i].s, run[i].nodes, run[i].next, run[i].id);
    }
  }

  lemma EmptyInv()
    ensures TableInv(map[], 0)
  {
  }

  /** Over every sequence of calls, two results have the same ID if and only if the expressions are deeply equal. */
  lemma SameIdIffEqualOverRuns(run: seq<Call>, i: nat, j: nat)
    requires IsRun(run) && i < |run| && j < |run|
    ensures var nodes := NodesBefore(run, |run|);
            && Founded(nodes) && run[i].id in nodes && run[j].id in nodes
            && nodes[run[i].id] == run[i].s
            && (run[i].id == run[j].id <==> Deep(nodes, run[i].id) == Deep(nodes, run[j].id))
  {
    hide IsRun, Deep;
    RunKeeps(run, |run|);
    SameIdIffDeeplyEqual(NodesBefore(run, |run|), run[i].id, run[j].id);
  }

  // ---------------------------------------------------------------- the table itself

  datatype Interned = Interned(id: nat, s: Shape)

  type Buckets = map<nat, seq<Interned>>

  function Bucket(shard: Buckets, h: nat): seq<Interned> {
    if h in shard then shard[h] else []
  }

  /** `exprEqual`: kind and own fields, children by ID, atom lists element by element. */
  method ExprEqual(a: Shape, b: Shape) returns (same: bool)
    ensures same <==> a == b
  {
    if a.Compose? && b.Compose? {
      if |a.atoms| != |b.atoms| {
        return false;
      }
      for i := 0 to |a.atoms|
        invariant a.atoms[..i] == b.atoms[..i]
      {
        if a.atoms[i] != b.atoms[i] {
          return false;
        }
      }
      assert a.atoms == a.atoms[..|a.atoms|] == b.atoms[..|b.atoms|] == b.atoms;
      return true;
    }
    match a {
      case Const(t) => same := b.Const? && t == b.text;
      case Field(f, src) => same := b.Field? && f == b.field && src == b.source;
      case Apply(f, x) => same := b.Apply? && f == b.fn && x == b.arg;
      case Compose(_) => same := false;
    }
  }

  /** The candidate loop of `Intern`. */
  method Scan(bucket: seq<Interned>, s: Shape) returns (found: Option<Interned>)
    ensures found.Some? ==> found.value in bucket && found.value.s == s
    ensures found.None? ==> forall e <- bucket :: e.s != s
  {
    for i := 0 to |bucket|
      invariant forall j :: 0 <= j < i ==> bucket[j].s != s
    {
      var same := ExprEqual(s, bucket[i].s);
      if same {
        return Some(bucket[i]);
      }
    }
    return None;
  }

  /** The bucket of a hash, in the shard named by its low eight bits. */
  function BucketAt(b: seq<Buckets>, h: nat): seq<Interned>
    requires |b| == SHARDS
  {
    Bucket(b[h % SHARDS], h)
  }

  function Put(b: seq<Buckets>, h: nat, e: Interned): (b': seq<Buckets>)
    requires |b| == SHARDS
    ensures |b'| == SHARDS
  {
    var shard: Buckets := b[h % SHARDS][h := BucketAt(b, h) + [e]];
    b[h % SHARDS := shard]
  }

  lemma BucketPut(b: seq<Buckets>, h: nat, e: Interned, g: nat)
    requires |b| == SHARDS
    ensures BucketAt(Put(b, h, e), g) == if g == h then BucketAt(b, h) + [e] else BucketAt(b, g)
  {
  }

  /** Every bucket entry is a known node under its own hash, and every known node is in its bucket. */
  ghost predicate BucketsOk(b: seq<Buckets>, nodes: Nodes, hash: Shape -> nat)
    requires |b| == SHARDS
  {
    && (forall h: nat, e :: e in BucketAt(b, h) ==> e.id in nodes && nodes[e.id] == e.s && hash(e.s) == h)
    && (forall id <- nodes :: Interned(id, nodes[id]) in BucketAt(b, hash(nodes[id])))
  }

  lemma PutOk(b: seq<Buckets>, nodes: Nodes, hash: Shape -> nat, id: nat, s: Shape)
    requires |b| == SHARDS && BucketsOk(b, nodes, hash) && id !in nodes
    ensures BucketsOk(Put(b, hash(s), Interned(id, s)), nodes[id := s], hash)
  {
    hide BucketAt, Put;
    var b', nodes' := Put(b, hash(s), Interned(id, s)), nodes[id := s];
    forall h: nat, e | e in BucketAt(b', h) ensures e.id in nodes' && nodes'[e.id] == e.s && hash(e.s) == h {
      BucketPut(b, hash(s), Interned(id, s), h);
    }
    forall k | k in nodes' ensures Interned(k, nodes'[k]) in BucketAt(b', hash(nodes'[k])) {
      BucketPut(b, hash(s), Interned(id, s), hash(nodes'[k]));
    }
  }

  lemma Hit(b: seq<Buckets>, nodes: Nodes, next: nat, hash: Shape -> nat, e: Interned)
    requires |b| == SHARDS && BucketsOk(b, nodes, hash) && e in BucketAt(b, hash(e.s))
    ensures Interns(nodes, next, e.s, nodes, next, e.id)
  {
    hide BucketAt;
    assert nodes[e.id] in nodes.Values;
  }

  lemma Miss(b: seq<Buckets>, nodes: Nodes, hash: Shape -> nat, s: Shape)
    requires |b| == SHARDS && BucketsOk(b, nodes, hash) && forall e <- BucketAt(b, hash(s)) :: e.s != s
    ensures s !in nodes.Values
  {
    hide BucketAt;
    forall id | id in nodes ensures nodes[id] != s {
      assert Interned(id, nodes[id]) in BucketAt(b, hash(nodes[id]));
    }
  }

  class InternTable {
    const hash: Shape -> nat
    var shards: array<Buckets>
    var next: nat
    ghost var nodes: Nodes

    ghost predicate Valid()
      reads this, shards
    {
      shards.Length == SHARDS && TableInv(nodes, next) && BucketsOk(shards[..], nodes, hash)
    }

    constructor (hash: Shape -> nat)
      ensures Valid() && fresh(shards) && nodes == map[] && next == 0 && this.hash == hash
    {
      this.hash := hash;
      shards := new Buckets[SHARDS](_ => map[]);
      next, nodes := 0, map[];
      new;
      EmptyInv();
    }

    /** `Intern`: the probe under the read lock, then the locked half. */
    method Intern(s: Shape) returns (id: nat)
      requires Valid() && KidsIn(nodes, s)
      modifies this`next, this`nodes, shards
      ensures Valid() && Interns(old(nodes), old(next), s, nodes, next, id)
    {
      hide Interns, TableInv, BucketsOk;
      var h := hash(s);
      assert shards[h % SHARDS] == shards[..][h % SHARDS];
      var found := Scan(Bucket(shards[h % SHARDS], h), s);
      if found.Some? {
        Hit(shards[..], nodes, next, hash, found.value);
        return found.value.id;
      }
      id := InternLocked(s);
    }

    /** The half under the write lock, which another caller may have preceded: search again, then append. */
    method InternLocked(s: Shape) returns (id: nat)
      requires Valid() && KidsIn(nodes, s)
      modifies this`next, this`nodes, shards
      ensures Valid() && Interns(old(nodes), old(next), s, nodes, next, id)
    {
      hide Interns, TableInv, BucketsOk;
      var h := hash(s);
      assert shards[h % SHARDS] == shards[..][h % SHARDS];
      var found := Scan(Bucket(shards[h % SHARDS], h), s);
      if found.Some? {
        Hit(shards[..], nodes, next, hash, found.value);
        return found.value.id;
      }
      id := Append(s);
    }

    /** A new ID, and the node joins its bucket. */
    method Append(s: Shape) returns (id: nat)
      requires Valid() && KidsIn(nodes, s) && forall e <- BucketAt(shards[..], hash(s)) :: e.s != s
      modifies this`next, this`nodes, shards
      ensures Valid() && Interns(old(nodes), old(next), s, nodes, next, id)
    {
      hide TableInv, KidsIn, BucketsOk;
      Miss(shards[..], nodes, hash, s);
      FreshId(nodes, next);
      next := next + 1;
      id := next;
      InternsKeeps(nodes, next - 1, s, nodes[id := s], next, id);
      PutOk(shards[..], nodes, hash, id, s);
      var h := hash(s);
      var shard := shards[h % SHARDS];
      ghost var b := shards[..];
      shards[h % SHARDS] := shard[h := Bucket(shard, h) + [Interned(id, s)]];
      nodes := nodes[id := s];
      assert shards[..] == Put(b, h, Interned(id, s));
    }
  }

  lemma FreshId(nodes: Nodes, next: nat)
    requires TableInv(nodes, next)
    ensures next + 1 !in nodes
  {
  }
}
