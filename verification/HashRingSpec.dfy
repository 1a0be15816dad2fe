/**
 * The consistent-hash ring as a value: sorted virtual-node points and their owners
 * (internal/cluster/hashring.go).
 */
module HashRingSpec {
  import opened Decimals

  const SPACE := 0x1_0000_0000_0000_0000

  /** A 64-bit hash. */
  type Point = x: int | 0 <= x < SPACE

  datatype Ring = Ring(keys: seq<Point>, nodes: map<Point, string>)

  /** Go map lookup: the zero value for a missing key. */
  function Look(nodes: map<Point, string>, k: Point): string {
    if k in nodes then nodes[k] else ""
  }

  predicate Sorted(s: seq<Point>) {
    forall i, j :: 0 <= i < j < |s| ==> s[i] <= s[j]
  }

  // ---------------------------------------------------------------- sorting

  function Insert(s: seq<Point>, x: Point): seq<Point> {
    if s == [] || x <= s[0] then [x] + s else [s[0]] + Insert(s[1..], x)
  }

  function SortKeys(s: seq<Point>): seq<Point> {
    if s == [] then [] else Insert(SortKeys(s[1..]), s[0])
  }

  lemma ConsSorted(x: Point, s: seq<Point>)
    requires Sorted(s) && forall y <- s :: x <= y
    ensures Sorted([x] + s)
  {
    var t := [x] + s;
    forall i, j | 0 <= i < j < |t| ensures t[i] <= t[j] {
      assert t[j] == s[j - 1] && s[j - 1] in s;
      if i > 0 { assert t[i] == s[i - 1]; }
    }
  }

  lemma {:induction false} InsertOk(s: seq<Point>, x: Point)
    requires Sorted(s)
    ensures Sorted(Insert(s, x)) && multiset(Insert(s, x)) == multiset(s) + multiset{x}
  {
    hide Sorted;
    if s == [] {
      ConsSorted(x, s);
    } else if x <= s[0] {
      HeadIsLeastOf(s);
      ConsSorted(x, s);
    } else {
      HeadOff(s);
      HeadIsLeastOf(s);
      InsertOk(s[1..], x);
      var t := Insert(s[1..], x);
      forall y | y in t ensures s[0] <= y {
        assert y in multiset(t);
        assert y in multiset(s[1..]) || y == x;
        assert y in s[1..] ==> y in s;
      }
      ConsSorted(s[0], t);
      assert multiset([s[0]] + t) == multiset{s[0]} + multiset(t);
    }
  }

  lemma HeadIsLeastOf(s: seq<Point>)
    requires s != [] && Sorted(s)
    ensures forall y <- s :: s[0] <= y
  {
  }

  lemma {:induction false} SortKeysOk(s: seq<Point>)
    ensures Sorted(SortKeys(s)) && multiset(SortKeys(s)) == multiset(s)
  {
    if s != [] {
      SortKeysOk(s[1..]);
      InsertOk(SortKeys(s[1..]), s[0]);
      assert s == [s[0]] + s[1..];
    }
  }

  lemma HeadIsLeast(a: seq<Point>, x: Point)
    requires Sorted(a) && x in multiset(a)
    ensures a != [] && a[0] <= x && a[0] in multiset(a)
  {
    assert x in a;
  }

  lemma HeadOff(a: seq<Point>)
    requires a != [] && Sorted(a)
    ensures multiset(a) == multiset{a[0]} + multiset(a[1..]) && Sorted(a[1..])
  {
    assert a == [a[0]] + a[1..];
  }

  lemma Cancel(x: Point, a: multiset<Point>, b: multiset<Point>)
    requires multiset{x} + a == multiset{x} + b
    ensures a == b
  {
    assert a == (multiset{x} + a) - multiset{x} == (multiset{x} + b) - multiset{x} == b;
  }

  /** A sorted sequence is determined by its elements. */
  lemma {:induction false} SortedUnique(a: seq<Point>, b: seq<Point>)
    requires Sorted(a) && Sorted(b) && multiset(a) == multiset(b)
    ensures a == b
  {
    hide Sorted;
    assert |a| == |multiset(a)| && |b| == |multiset(b)|;
    if a != [] {
      HeadIsLeast(b, a[0]);
      HeadIsLeast(a, b[0]);
      HeadOff(a);
      HeadOff(b);
      Cancel(a[0], multiset(a[1..]), multiset(b[1..]));
      SortedUnique(a[1..], b[1..]);
      assert a == [a[0]] + a[1..] && b == [b[0]] + b[1..];
    }
  }

  // ---------------------------------------------------------------- ownership

  /** How far clockwise `t` lies from `k`. */
  function Distance(k: Point, t: Point): nat {
    (t - k) % SPACE
  }

  lemma DistanceCases(k: Point, t: Point)
    ensures Distance(k, t) == if k <= t then t - k else t - k + SPACE
  {
  }

  /** `t` is the first point of the ring at or after `k`, wrapping past the top of the hash space. */
  ghost predicate IsSuccessor(keys: seq<Point>, k: Point, t: Point) {
    t in keys && forall u <- keys :: Distance(k, t) <= Distance(k, u)
  }

  lemma SuccessorUnique(keys: seq<Point>, k: Point, t: Point, u: Point)
    requires IsSuccessor(keys, k, t) && IsSuccessor(keys, k, u)
    ensures t == u
  {
    DistanceCases(k, t);
    DistanceCases(k, u);
  }

  lemma {:induction false} SuccessorExists(keys: seq<Point>, k: Point) returns (t: Point)
    requires keys != []
    ensures IsSuccessor(keys, k, t)
  {
    hide Distance;
    t := keys[0];
    if |keys| > 1 {
      var u := SuccessorExists(keys[1..], k);
      if Distance(k, u) < Distance(k, t) { t := u; }
      forall v | v in keys ensures Distance(k, t) <= Distance(k, v) {
        assert v == keys[0] || v in keys[1..];
      }
    }
  }

  /** The node a hashed key is routed to. */
  ghost predicate Owns(r: Ring, k: Point, node: string) {
    if r.keys == [] then node == ""
    else exists t :: IsSuccessor(r.keys, k, t) && node == Look(r.nodes, t)
  }

  /** Every key has exactly one owner. */
  lemma OneOwner(r: Ring, k: Point) returns (node: string)
    ensures forall n :: Owns(r, k, n) <==> n == node
  {
    hide IsSuccessor;
    node := "";
    if r.keys != [] {
      var t := SuccessorExists(r.keys, k);
      node := Look(r.nodes, t);
      forall n | Owns(r, k, n) ensures n == node {
        var u :| IsSuccessor(r.keys, k, u) && n == Look(r.nodes, u);
        SuccessorUnique(r.keys, k, t, u);
      }
    }
  }

  // ---------------------------------------------------------------- Add

  /** Every vnode hash gets the node as owner, the last writer winning a collision. */
  function Assign(nodes: map<Point, string>, hs: seq<Point>, node: string): map<Point, string> {
    map k | k in nodes.Keys + (set h | h in hs) :: if k in hs then node else nodes[k]
  }

  lemma AssignOne(nodes: map<Point, string>, hs: seq<Point>, node: string, h: Point)
    ensures Assign(nodes, hs + [h], node) == Assign(nodes, hs, node)[h := node]
  {
  }

  function AddRing(r: Ring, node: string, hs: seq<Point>): Ring {
    Ring(SortKeys(r.keys + hs), Assign(r.nodes, hs, node))
  }

  lemma AddedKeys(r: Ring, node: string, hs: seq<Point>)
    ensures Sorted(AddRing(r, node, hs).keys)
    ensures multiset(AddRing(r, node, hs).keys) == multiset(r.keys) + multiset(hs)
    ensures forall k :: k in AddRing(r, node, hs).keys <==> k in r.keys || k in hs
  {
    SortKeysOk(r.keys + hs);
    var keys := AddRing(r, node, hs).keys;
    forall k ensures k in keys <==> k in r.keys || k in hs {
      assert k in keys <==> k in multiset(keys);
      assert k in multiset(r.keys) + multiset(hs) <==> k in r.keys || k in hs;
    }
  }

  /**
   * Adding a node moves a key only to that node, on every ring: the owner becomes the node exactly when one of its
   * points is at least as near as every point already there, and is unchanged otherwise.
   */
  lemma AddMovesOnlyToNew(r: Ring, node: string, hs: seq<Point>, k: Point, before: string, after: string)
    requires Owns(r, k, before) && Owns(AddRing(r, node, hs), k, after)
    ensures after == before || after == node
    ensures Takes(r.keys, hs, k) ==> after == node
    ensures !Takes(r.keys, hs, k) ==> after == before
  {
    hide Distance, AddRing;
    AddedKeys(r, node, hs);
    var r' := AddRing(r, node, hs);
    assert r'.nodes == Assign(r.nodes, hs, node) by { AddRingNodes(r, node, hs); }
    if r'.keys == [] {
      EmptyAdd(r.keys, hs, r'.keys);
    } else {
      var t :| IsSuccessor(r'.keys, k, t) && after == Look(r'.nodes, t);
      if t in hs {
        assert Takes(r.keys, hs, k);
      } else {
        assert IsSuccessor(r.keys, k, t);
        var u :| IsSuccessor(r.keys, k, u) && before == Look(r.nodes, u);
        SuccessorUnique(r.keys, k, t, u);
        if Takes(r.keys, hs, k) {
          var h :| h in hs && forall u <- r.keys :: Distance(k, h) <= Distance(k, u);
          assert IsSuccessor(r'.keys, k, t) && h in r'.keys;
          DistanceInjective(k, h, t);
        }
      }
    }
  }

  /** Some point of `hs` is at least as near clockwise as every point of `keys`. */
  ghost predicate Takes(keys: seq<Point>, hs: seq<Point>, k: Point) {
    exists h <- hs :: forall u <- keys :: Distance(k, h) <= Distance(k, u)
  }

  lemma AddRingNodes(r: Ring, node: string, hs: seq<Point>)
    ensures AddRing(r, node, hs).nodes == Assign(r.nodes, hs, node)
  {
  }

  lemma EmptyAdd(a: seq<Point>, b: seq<Point>, all: seq<Point>)
    requires all == [] && multiset(all) == multiset(a) + multiset(b)
    ensures a == [] && b == []
  {
    assert |multiset(all)| == |multiset(a)| + |multiset(b)|;
    assert |a| == |multiset(a)| && |b| == |multiset(b)|;
  }

  lemma DistanceInjective(k: Point, t: Point, u: Point)
    ensures Distance(k, t) == Distance(k, u) <==> t == u
  {
    DistanceCases(k, t);
    DistanceCases(k, u);
  }

  // ---------------------------------------------------------------- Remove

  /** The filter of `Remove`, left to right: a dropped key also loses its owner entry. */
  function Filter(keys: seq<Point>, nodes: map<Point, string>, node: string): (seq<Point>, map<Point, string>) {
    if keys == [] then ([], nodes)
    else if Look(nodes, keys[0]) != node then
      var rest := Filter(keys[1..], nodes, node);
      ([keys[0]] + rest.0, rest.1)
    else Filter(keys[1..], nodes - {keys[0]}, node)
  }

  lemma FilterStep(k: Point, rest: seq<Point>, nodes: map<Point, string>, node: string)
    ensures Look(nodes, k) != node ==>
              Filter([k] + rest, nodes, node) == ([k] + Filter(rest, nodes, node).0, Filter(rest, nodes, node).1)
    ensures Look(nodes, k) == node ==> Filter([k] + rest, nodes, node) == Filter(rest, nodes - {k}, node)
  {
    assert ([k] + rest)[1..] == rest;
  }

  function RemoveRing(r: Ring, node: string): Ring {
    var (keys, nodes) := Filter(r.keys, r.nodes, node);
    Ring(keys, nodes)
  }

  /** How often a key that occurred `count` times survives the filter. */
  function Survivors(count: nat, owner: string, present: bool, node: string): nat {
    if owner != node then count
    else if !present || node == "" then 0
    else if count == 0 then 0 else count - 1
  }

  lemma {:induction false} FilterCounts(keys: seq<Point>, nodes: map<Point, string>, node: string, k: Point)
    ensures multiset(Filter(keys, nodes, node).0)[k] ==
            Survivors(multiset(keys)[k], Look(nodes, k), k in nodes, node)
    ensures k in Filter(keys, nodes, node).1 <==> k in nodes && (k in keys ==> nodes[k] != node)
    ensures k in Filter(keys, nodes, node).1 ==> Filter(keys, nodes, node).1[k] == nodes[k]
  {
    if keys != [] {
      assert keys == [keys[0]] + keys[1..];
      if Look(nodes, keys[0]) != node {
        FilterCounts(keys[1..], nodes, node, k);
        var rest := Filter(keys[1..], nodes, node).0;
        assert multiset([keys[0]] + rest) == multiset{keys[0]} + multiset(rest);
      } else {
        FilterCounts(keys[1..], nodes - {keys[0]}, node, k);
      }
    }
  }

  lemma {:induction false} FilterSorted(keys: seq<Point>, nodes: map<Point, string>, node: string)
    requires Sorted(keys)
    ensures Sorted(Filter(keys, nodes, node).0)
    ensures forall k <- Filter(keys, nodes, node).0 :: k in keys
  {
    if keys != [] {
      if Look(nodes, keys[0]) != node {
        FilterSorted(keys[1..], nodes, node);
        ConsSorted(keys[0], Filter(keys[1..], nodes, node).0);
      } else {
        FilterSorted(keys[1..], nodes - {keys[0]}, node);
      }
    }
  }

  /** Removing a node moves only that node's keys, on every ring. */
  lemma RemoveMovesOnlyOwn(r: Ring, node: string, k: Point, before: string, after: string)
    requires Sorted(r.keys)
    requires Owns(r, k, before) && Owns(RemoveRing(r, node), k, after)
    ensures before != node ==> after == before
  {
    hide Distance, Filter;
    var r' := RemoveRing(r, node);
    FilterSorted(r.keys, r.nodes, node);
    if r.keys == [] {
      FilterEmpty(r.nodes, node);
    } else if before != node {
      var t :| IsSuccessor(r.keys, k, t) && before == Look(r.nodes, t);
      FilterCounts(r.keys, r.nodes, node, t);
      assert t in multiset(r.keys);
      assert t in multiset(r'.keys);
      assert IsSuccessor(r'.keys, k, t);
      var u :| IsSuccessor(r'.keys, k, u) && after == Look(r'.nodes, u);
      SuccessorUnique(r'.keys, k, t, u);
    }
  }

  lemma FilterEmpty(nodes: map<Point, string>, node: string)
    ensures Filter([], nodes, node) == ([], nodes)
  {
  }

  /** Every owner entry belongs to a point of the ring; kept by every run, collisions or not. */
  predicate Rooted(r: Ring) {
    Sorted(r.keys) && forall k <- r.nodes :: k in r.keys
  }

  lemma AddKeepsRooted(r: Ring, node: string, hs: seq<Point>)
    requires Rooted(r)
    ensures Rooted(AddRing(r, node, hs))
  {
    hide Sorted, SortKeys;
    AddedKeys(r, node, hs);
  }

  lemma RemoveKeepsRooted(r: Ring, node: string)
    requires Rooted(r)
    ensures Rooted(RemoveRing(r, node))
  {
    hide Filter;
    FilterSorted(r.keys, r.nodes, node);
    var r' := RemoveRing(r, node);
    forall k | k in r'.nodes ensures k in r'.keys {
      FilterCounts(r.keys, r.nodes, node, k);
      assert k in multiset(r.keys);
      assert k in multiset(r'.keys);
    }
  }

  /** A point of the ring without an owner: a lookup that lands on it answers the empty string. */
  predicate Dangling(r: Ring, k: Point) {
    k in r.keys && k !in r.nodes
  }

  /**
   * `Remove` takes a named node off the ring for good, yet a point of the node that occurs more than once stays in the
   * key list without an owner: exactly the points that were dangling before or belonged to the node twice.
   */
  lemma RemoveDanglesIffDoubled(r: Ring, node: string, k: Point)
    requires Rooted(r) && node != ""
    ensures node !in RemoveRing(r, node).nodes.Values
    ensures Dangling(RemoveRing(r, node), k) <==>
            Dangling(r, k) || (k in r.nodes && r.nodes[k] == node && multiset(r.keys)[k] >= 2)
  {
    hide Filter, Sorted;
    var r' := RemoveRing(r, node);
    forall j | j in r'.nodes ensures r'.nodes[j] != node { FilterCounts(r.keys, r.nodes, node, j); }
    FilterCounts(r.keys, r.nodes, node, k);
    assert k in r'.keys <==> multiset(r'.keys)[k] > 0;
    assert k in r.keys <==> multiset(r.keys)[k] > 0;
  }

  predicate Distinct(hs: seq<Point>) {
    forall i, j :: 0 <= i < j < |hs| ==> hs[i] != hs[j]
  }

  lemma {:induction false} DistinctCounts(hs: seq<Point>)
    ensures Distinct(hs) <==> forall k :: multiset(hs)[k] <= 1
  {
    if hs != [] {
      DistinctCounts(hs[1..]);
      var rest := hs[1..];
      assert hs == [hs[0]] + rest;
      assert multiset(hs) == multiset{hs[0]} + multiset(rest);
      if Distinct(hs) {
        assert hs[0] !in rest;
        assert Distinct(rest);
      } else if hs[0] in rest {
        assert multiset(hs)[hs[0]] > 1;
      } else {
        assert !Distinct(rest);
        var k :| multiset(rest)[k] > 1;
        assert multiset(hs)[k] > 1;
      }
    }
  }

  /**
   * `Remove` after `Add` of a new node restores the ring exactly if and only if the node's virtual hashes are pairwise
   * distinct and none is already owned. A node named by the empty string is restored under other conditions, because
   * a missing owner reads as the empty string.
   */
  lemma RemoveUndoesAddIff(r: Ring, node: string, hs: seq<Point>)
    requires Sorted(r.keys) && node !in r.nodes.Values
    ensures RemoveRing(AddRing(r, node, hs), node) == r <==>
            if node == "" then (forall k <- r.keys :: k in r.nodes) && (forall h <- hs :: h !in r.nodes)
            else Distinct(hs) && forall h <- hs :: h !in r.nodes
  {
    hide Sorted, Filter, AddRing, Distinct;
    AddedKeys(r, node, hs);
    AddRingNodes(r, node, hs);
    var a := AddRing(r, node, hs);
    var b := RemoveRing(a, node);
    FilterSorted(a.keys, a.nodes, node);
    forall k ensures UndoneAt(r, node, hs, k) <==>
                     (multiset(b.keys)[k] == multiset(r.keys)[k] && Look'(b.nodes, k) == Look'(r.nodes, k))
    {
      UndoAt(r, node, hs, k);
    }
    UndoneEverywhere(r, node, hs, b);
    DistinctCounts(hs);
    if forall k :: UndoneAt(r, node, hs, k) {
      forall h | h in hs ensures h !in r.nodes { assert UndoneAt(r, node, hs, h); }
      forall k | k in r.keys && node == "" ensures k in r.nodes { assert UndoneAt(r, node, hs, k); }
      forall k ensures node != "" ==> multiset(hs)[k] <= 1 { assert UndoneAt(r, node, hs, k); }
    }
  }

  function Look'(nodes: map<Point, string>, k: Point): (bool, string) {
    (k in nodes, Look(nodes, k))
  }

  /** What restoring one point asks for. */
  predicate UndoneAt(r: Ring, node: string, hs: seq<Point>, k: Point) {
    if node == "" then (k in r.keys ==> k in r.nodes) && (k in hs ==> k !in r.nodes)
    else multiset(hs)[k] <= 1 && (k in hs ==> k !in r.nodes)
  }

  lemma UndoAt(r: Ring, node: string, hs: seq<Point>, k: Point)
    requires node !in r.nodes.Values
    ensures var b := RemoveRing(AddRing(r, node, hs), node);
            UndoneAt(r, node, hs, k) <==>
            (multiset(b.keys)[k] == multiset(r.keys)[k] && Look'(b.nodes, k) == Look'(r.nodes, k))
  {
    hide Filter, AddRing;
    AddedKeys(r, node, hs);
    AddRingNodes(r, node, hs);
    var a := AddRing(r, node, hs);
    FilterCounts(a.keys, a.nodes, node, k);
    assert k in hs <==> multiset(hs)[k] > 0;
    assert k in r.keys <==> multiset(r.keys)[k] > 0;
    assert k in r.nodes ==> r.nodes[k] != node;
  }

  lemma UndoneEverywhere(r: Ring, node: string, hs: seq<Point>, b: Ring)
    requires Sorted(r.keys) && Sorted(b.keys)
    requires forall k :: UndoneAt(r, node, hs, k) <==>
                         (multiset(b.keys)[k] == multiset(r.keys)[k] && Look'(b.nodes, k) == Look'(r.nodes, k))
    ensures b == r <==> forall k :: UndoneAt(r, node, hs, k)
  {
    hide UndoneAt;
    if forall k :: UndoneAt(r, node, hs, k) {
      forall k ensures multiset(b.keys)[k] == multiset(r.keys)[k] && Look'(b.nodes, k) == Look'(r.nodes, k) {
        assert UndoneAt(r, node, hs, k);
      }
      assert multiset(b.keys) == multiset(r.keys);
      SortedUnique(b.keys, r.keys);
      SameMap(b.nodes, r.nodes);
    }
  }

  lemma SameMap(m: map<Point, string>, n: map<Point, string>)
    requires forall k :: Look'(m, k) == Look'(n, k)
    ensures m == n
  {
    forall k ensures k in m <==> k in n { assert Look'(m, k) == Look'(n, k); }
    forall k | k in m ensures m[k] == n[k] { assert Look'(m, k) == Look'(n, k); }
  }

  // ---------------------------------------------------------------- whole runs

  datatype Change = Join(node: string) | Leave(node: string)

  /** The ring after a run of membership changes, starting empty. */
  function RunRing(run: seq<Change>, points: string -> seq<Point>): Ring {
    if run == [] then Ring([], map[])
    else
      var r := RunRing(run[..|run| - 1], points);
      match run[|run| - 1]
      case Join(n) => AddRing(r, n, points(n))
      case Leave(n) => RemoveRing(r, n)
  }

  function Members(run: seq<Change>): set<string> {
    if run == [] then {}
    else
      var ms := Members(run[..|run| - 1]);
      match run[|run| - 1]
      case Join(n) => ms + {n}
      case Leave(n) => ms - {n}
  }

  /** Only nodes of `names` take part and none joins while it is a member. */
  ghost predicate Orderly(run: seq<Change>, names: set<string>) {
    forall i :: 0 <= i < |run| ==>
      run[i].node in names && (run[i].Join? ==> run[i].node !in Members(run[..i]))
  }

  ghost predicate Separated(points: string -> seq<Point>, names: set<string>) {
    && (forall a <- names :: Distinct(points(a)))
    && (forall a <- names, b <- names, k <- points(a) :: k in points(b) ==> a == b)
  }

  /** The ring holds each member's points once, under that member, and nothing else. */
  ghost predicate Reflects(r: Ring, ms: set<string>, points: string -> seq<Point>) {
    && Sorted(r.keys)
    && (forall k :: multiset(r.keys)[k] == if k in r.nodes then 1 else 0)
    && OwnersAre(r.nodes, ms, points)
  }

  ghost predicate OwnersAre(nodes: map<Point, string>, ms: set<string>, points: string -> seq<Point>) {
    && (forall k <- nodes :: nodes[k] in ms && k in points(nodes[k]))
    && (forall m <- ms, k <- points(m) :: k in nodes && nodes[k] == m)
  }

  lemma ReflectsUnique(a: Ring, b: Ring, ms: set<string>, points: string -> seq<Point>)
    requires Reflects(a, ms, points) && Reflects(b, ms, points)
    ensures a == b
  {
    hide Sorted;
    assert a.nodes == b.nodes;
    assert multiset(a.keys) == multiset(b.keys);
    SortedUnique(a.keys, b.keys);
  }

  lemma JoinCounts(r: Ring, n: string, hs: seq<Point>, k: Point)
    requires multiset(r.keys)[k] == if k in r.nodes then 1 else 0
    requires Distinct(hs) && (k in hs ==> k !in r.nodes)
    ensures multiset(AddRing(r, n, hs).keys)[k] == if k in AddRing(r, n, hs).nodes then 1 else 0
  {
    hide AddRing, Distinct;
    AddedKeys(r, n, hs);
    AddRingNodes(r, n, hs);
    DistinctCounts(hs);
    assert k in hs <==> multiset(hs)[k] > 0;
  }

  lemma OwnedElsewhere(r: Ring, ms: set<string>, names: set<string>, points: string -> seq<Point>, n: string, k: Point)
    requires Reflects(r, ms, points) && Separated(points, names) && ms <= names && n in names && n !in ms
    requires k in r.nodes
    ensures k !in points(n)
  {
    hide Sorted, Distinct;
    assert k in points(r.nodes[k]);
  }

  lemma JoinReflects(r: Ring, ms: set<string>, names: set<string>, points: string -> seq<Point>, n: string)
    requires Reflects(r, ms, points) && Separated(points, names) && ms <= names && n in names && n !in ms
    ensures Reflects(AddRing(r, n, points(n)), ms + {n}, points)
  {
    hide Sorted, AddRing, Distinct;
    var hs := points(n);
    var r' := AddRing(r, n, hs);
    assert Distinct(hs);
    forall k | k in r.nodes ensures k !in hs { OwnedElsewhere(r, ms, names, points, n, k); }
    hide Separated, Assign, OwnersAre;
    AddedKeys(r, n, hs);
    AddRingNodes(r, n, hs);
    forall k ensures multiset(r'.keys)[k] == if k in r'.nodes then 1 else 0 { JoinCounts(r, n, hs, k); }
    JoinOwners(r.nodes, ms, points, n);
  }

  lemma JoinOwners(nodes: map<Point, string>, ms: set<string>, points: string -> seq<Point>, n: string)
    requires OwnersAre(nodes, ms, points) && forall k <- nodes :: k !in points(n)
    ensures OwnersAre(Assign(nodes, points(n), n), ms + {n}, points)
  {
    var nodes' := Assign(nodes, points(n), n);
    forall m, k | m in ms + {n} && k in points(m) ensures k in nodes' && nodes'[k] == m {
      if m in ms { assert k in nodes; }
    }
  }

  lemma LeaveReflects(r: Ring, ms: set<string>, names: set<string>, points: string -> seq<Point>, n: string)
    requires Reflects(r, ms, points) && Separated(points, names) && ms <= names && n in names
    ensures Reflects(RemoveRing(r, n), ms - {n}, points)
  {
    hide Sorted, Filter, Separated, OwnersAre;
    var r' := RemoveRing(r, n);
    FilterSorted(r.keys, r.nodes, n);
    forall k ensures k in r'.nodes <==> k in r.nodes && r.nodes[k] != n
      ensures k in r'.nodes ==> r'.nodes[k] == r.nodes[k]
      ensures multiset(r'.keys)[k] == if k in r'.nodes then 1 else 0
    {
      LeaveAt(r, n, k);
    }
    LeaveOwners(r.nodes, r'.nodes, ms, points, n);
  }

  lemma LeaveAt(r: Ring, n: string, k: Point)
    requires multiset(r.keys)[k] == if k in r.nodes then 1 else 0
    ensures var r' := RemoveRing(r, n);
            && (k in r'.nodes <==> k in r.nodes && r.nodes[k] != n)
            && (k in r'.nodes ==> r'.nodes[k] == r.nodes[k])
            && multiset(r'.keys)[k] == if k in r'.nodes then 1 else 0
  {
    hide Filter;
    FilterCounts(r.keys, r.nodes, n, k);
    assert k in r.keys <==> multiset(r.keys)[k] > 0;
  }

  lemma LeaveOwners(nodes: map<Point, string>, nodes': map<Point, string>, ms: set<string>, points: string -> seq<Point>, n: string)
    requires OwnersAre(nodes, ms, points)
    requires forall k :: (k in nodes' <==> k in nodes && nodes[k] != n) && (k in nodes' ==> nodes'[k] == nodes[k])
    ensures OwnersAre(nodes', ms - {n}, points)
  {
  }

  lemma {:induction false} RunReflects(run: seq<Change>, names: set<string>, points: string -> seq<Point>)
    requires Orderly(run, names) && Separated(points, names)
    ensures Reflects(RunRing(run, points), Members(run), points) && Members(run) <= names
  {
    hide AddRing, RemoveRing, Separated;
    if run == [] {
    } else {
      var before := run[..|run| - 1];
      forall i | 0 <= i < |before|
        ensures before[i].node in names && (before[i].Join? ==> before[i].node !in Members(before[..i]))
      {
        assert before[..i] == run[..i] && before[i] == run[i];
      }
      RunReflects(before, names, points);
      var r, ms := RunRing(before, points), Members(before);
      match run[|run| - 1] {
        case Join(n) => JoinReflects(r, ms, names, points, n);
        case Leave(n) => LeaveReflects(r, ms, names, points, n);
      }
    }
  }

  /**
   * Routing without a coordinator: with collision-free points, any two runs that end with the same members end with
   * the same ring, whatever joined and left in between and in whatever order.
   */
  lemma SameMembersSameRing(run: seq<Change>, other: seq<Change>, names: set<string>, points: string -> seq<Point>)
    requires Orderly(run, names) && Orderly(other, names) && Separated(points, names)
    requires Members(run) == Members(other)
    ensures RunRing(run, points) == RunRing(other, points)
  {
    RunReflects(run, names, points);
    RunReflects(other, names, points);
    ReflectsUnique(RunRing(run, points), RunRing(other, points), Members(run), points);
  }

  // ---------------------------------------------------------------- vnode labels

  /** What `itoa` returns: decimal digits, and nothing at all for a negative number. */
  function Itoa(i: int): string {
    if i < 0 then "" else Decimal(i)
  }

  lemma DecimalHasNoHash(i: nat)
    ensures '#' !in Decimal(i)
  {
    ParseDecimal(i);
  }

  lemma DecimalInjective(i: nat, j: nat)
    requires Decimal(i) == Decimal(j)
    ensures i == j
  {
    ParseDecimal(i);
    ParseDecimal(j);
  }

  function VnodeLabel(node: string, i: int): string {
    node + "#vn#" + Itoa(i)
  }

  /** A suffix without '#' starts right after the last '#'. */
  lemma LastHash(a: string, x: string)
    requires '#' !in x
    ensures (a + "#" + x)[|a|] == '#'
    ensures forall p :: |a| < p < |a + "#" + x| ==> (a + "#" + x)[p] != '#'
  {
    forall p | |a| < p < |a + "#" + x| ensures (a + "#" + x)[p] != '#' {
      assert (a + "#" + x)[p] == x[p - |a| - 1];
    }
  }

  lemma SuffixUnique(a: string, x: string, b: string, y: string)
    requires '#' !in x && '#' !in y && a + "#" + x == b + "#" + y
    ensures a == b && x == y
  {
    LastHash(a, x);
    LastHash(b, y);
    var s := a + "#" + x;
    assert |a| == |b|;
    assert a == s[..|a|] && b == s[..|b|];
    assert x == s[|a| + 1..] && y == s[|b| + 1..];
  }

  /** No two virtual nodes share a label, whatever characters the node names hold. */
  lemma LabelInjective(a: string, i: nat, b: string, j: nat)
    requires VnodeLabel(a, i) == VnodeLabel(b, j)
    ensures a == b && i == j
  {
    hide Decimal;
    DecimalHasNoHash(i);
    DecimalHasNoHash(j);
    var a', b' := a + "#vn", b + "#vn";
    assert VnodeLabel(a, i) == a' + "#" + Decimal(i);
    assert VnodeLabel(b, j) == b' + "#" + Decimal(j);
    SuffixUnique(a', Decimal(i), b', Decimal(j));
    assert a == a'[..|a|] && b == b'[..|b|];
    DecimalInjective(i, j);
  }

  /** The hashes `Add` puts on the ring. */
  function VnodeHashes(hash: string -> Point, node: string, replicas: nat): seq<Point> {
    seq<Point>(replicas, i => hash(VnodeLabel(node, i)))
  }

  function Labels(node: string, replicas: nat): set<string> {
    set i | 0 <= i < replicas :: VnodeLabel(node, i)
  }

  /** A hash without collisions among the labels gives distinct points, disjoint between two nodes. */
  lemma SeparatedHashes(hash: string -> Point, a: string, b: string, replicas: nat)
    requires forall s, t <- Labels(a, replicas) + Labels(b, replicas) :: hash(s) == hash(t) ==> s == t
    ensures Distinct(VnodeHashes(hash, a, replicas))
    ensures a != b ==> forall h <- VnodeHashes(hash, a, replicas) :: h !in VnodeHashes(hash, b, replicas)
  {
    hide VnodeLabel;
    var ha, hb := VnodeHashes(hash, a, replicas), VnodeHashes(hash, b, replicas);
    forall i, j | 0 <= i < j < |ha| ensures ha[i] != ha[j] {
      assert VnodeLabel(a, i) in Labels(a, replicas) && VnodeLabel(a, j) in Labels(a, replicas);
      if VnodeLabel(a, i) == VnodeLabel(a, j) { LabelInjective(a, i, a, j); }
    }
    forall i, j | a != b && 0 <= i < |ha| && 0 <= j < |hb| ensures ha[i] != hb[j] {
      assert VnodeLabel(a, i) in Labels(a, replicas) && VnodeLabel(b, j) in Labels(b, replicas);
      if VnodeLabel(a, i) == VnodeLabel(b, j) { LabelInjective(a, i, b, j); }
    }
  }
}
