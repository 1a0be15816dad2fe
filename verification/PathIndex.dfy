/** The index from path to node, and the receipts, of a built tree (internal/engine/compose.go). */
module PathIndex {
  import opened Core
  import opened ProofSpec
  import opened ProofReads

  /** `pathIndex[path] = node` along the depth-first construction: the last node of a path wins. */
  function IndexTree(t: Tree, pos: Pos, ix: map<string, Pos>): map<string, Pos>
    decreases t
  {
    IndexUpTo(t, pos, |t.kids|, ix[t.path := pos])
  }

  function IndexUpTo(t: Tree, pos: Pos, k: nat, ix: map<string, Pos>): map<string, Pos>
    requires k <= |t.kids|
    decreases t, k
  {
    if k == 0 then ix else IndexTree(t.kids[k - 1], pos + [k - 1], IndexUpTo(t, pos, k - 1, ix))
  }

  /** The node at `r`, below `pos`, has path `c`. */
  predicate Names(t: Tree, pos: Pos, r: Pos, c: string) {
    pos <= r && InTree(t, r[|pos|..]) && Sub(t, r[|pos|..]).path == c
  }

  lemma KidNames(t: Tree, pos: Pos, i: nat, r: Pos, c: string)
    requires i < |t.kids|
    ensures Names(t.kids[i], pos + [i], r, c) ==> Names(t, pos, r, c)
    ensures pos + [i] <= r && Names(t, pos, r, c) ==> Names(t.kids[i], pos + [i], r, c)
  {
    if pos + [i] <= r {
      assert r[|pos|] == i;
      assert r[|pos|..][1..] == r[|pos + [i]|..];
    }
  }

  /** Every entry is old or names a node of the tree. */
  lemma {:induction false} IndexSound(t: Tree, pos: Pos, ix: map<string, Pos>, c: string)
    requires c in IndexTree(t, pos, ix)
    ensures var p := IndexTree(t, pos, ix)[c]; Names(t, pos, p, c) || (c in ix && p == ix[c])
    decreases t
  {
    hide IndexUpTo;
    IndexUpToSound(t, pos, |t.kids|, ix[t.path := pos], c);
    assert pos[|pos|..] == [];
    assert Names(t, pos, pos, t.path);
  }

  lemma {:induction false} IndexUpToSound(t: Tree, pos: Pos, k: nat, ix: map<string, Pos>, c: string)
    requires k <= |t.kids| && c in IndexUpTo(t, pos, k, ix)
    ensures var p := IndexUpTo(t, pos, k, ix)[c]; Names(t, pos, p, c) || (c in ix && p == ix[c])
    decreases t, k
  {
    hide IndexTree, Names;
    if k > 0 {
      var ix' := IndexUpTo(t, pos, k - 1, ix);
      var p := IndexUpTo(t, pos, k, ix)[c];
      IndexSound(t.kids[k - 1], pos + [k - 1], ix', c);
      if Names(t.kids[k - 1], pos + [k - 1], p, c) {
        KidNames(t, pos, k - 1, p, c);
      } else {
        IndexUpToSound(t, pos, k - 1, ix, c);
      }
    }
  }

  /** Every node's path is indexed, under a node of the tree with that path. */
  lemma {:induction false} IndexComplete(t: Tree, pos: Pos, ix: map<string, Pos>, c: string, r: Pos)
    requires Names(t, pos, r, c) || (c in ix && Names(t, pos, ix[c], c))
    ensures c in IndexTree(t, pos, ix) && Names(t, pos, IndexTree(t, pos, ix)[c], c)
    decreases t
  {
    hide IndexUpTo;
    assert pos[|pos|..] == [];
    if r != pos && Names(t, pos, r, c) {
      assert pos + [r[|pos|]] <= r;
    }
    IndexUpToComplete(t, pos, |t.kids|, ix[t.path := pos], c, r);
  }

  lemma {:induction false} IndexUpToComplete(t: Tree, pos: Pos, k: nat, ix: map<string, Pos>, c: string, r: Pos)
    requires k <= |t.kids|
    requires (pos < r && r[|pos|] < k && Names(t, pos, r, c)) || (c in ix && Names(t, pos, ix[c], c))
    ensures c in IndexUpTo(t, pos, k, ix) && Names(t, pos, IndexUpTo(t, pos, k, ix)[c], c)
    decreases t, k
  {
    hide IndexTree;
    if k > 0 {
      var ix' := IndexUpTo(t, pos, k - 1, ix);
      var kid, at := t.kids[k - 1], pos + [k - 1];
      var all := IndexUpTo(t, pos, k, ix);
      if pos < r && r[|pos|] == k - 1 && Names(t, pos, r, c) {
        assert at <= r;
        KidNames(t, pos, k - 1, r, c);
        IndexComplete(kid, at, ix', c, r);
        KidNames(t, pos, k - 1, all[c], c);
      } else {
        IndexUpToComplete(t, pos, k - 1, ix, c, r);
        IndexKeeps(kid, at, ix', c);
        IndexSound(kid, at, ix', c);
        KidNames(t, pos, k - 1, all[c], c);
      }
    }
  }

  lemma {:induction false} IndexKeeps(t: Tree, pos: Pos, ix: map<string, Pos>, c: string)
    requires c in ix
    ensures c in IndexTree(t, pos, ix)
    decreases t
  {
    IndexUpToKeeps(t, pos, |t.kids|, ix[t.path := pos], c);
  }

  lemma {:induction false} IndexUpToKeeps(t: Tree, pos: Pos, k: nat, ix: map<string, Pos>, c: string)
    requires k <= |t.kids| && c in ix
    ensures c in IndexUpTo(t, pos, k, ix)
    decreases t, k
  {
    if k > 0 {
      IndexUpToKeeps(t, pos, k - 1, ix, c);
      IndexKeeps(t.kids[k - 1], pos + [k - 1], IndexUpTo(t, pos, k - 1, ix), c);
    }
  }

  /** No path occurs at two nodes, and none is empty. */
  ghost predicate Distinct(t: Tree) {
    && (forall p, q :: InTree(t, p) && InTree(t, q) && Sub(t, p).path == Sub(t, q).path ==> p == q)
    && (forall p :: InTree(t, p) ==> Sub(t, p).path != "")
  }

  function Receipt(t: Tree, f: Frontier): map<string, Hash> {
    map c | c in IndexTree(t, [], map[]) && c != "" && c in f :: f[c].hash
  }

  lemma GroundedIndex(t: Tree)
    ensures Grounded(t, IndexTree(t, [], map[]))
  {
    var ix := IndexTree(t, [], map[]);
    forall c | c in ix
      ensures InTree(t, ix[c]) && Sub(t, ix[c]).path == c
    {
      IndexSound(t, [], map[], c);
      assert ix[c][0..] == ix[c];
    }
  }

  lemma {:induction false} DistinctIsIndexed(root: Tree, t: Tree, pos: Pos, f: Frontier)
    requires Distinct(root) && InTree(root, pos) && t == Sub(root, pos)
    requires forall q :: InTree(root, q) ==> Sub(root, q).path in f
    ensures Indexed(t, pos, IndexTree(root, [], map[]), Receipt(root, f))
    decreases t
  {
    hide IndexTree;
    var ix := IndexTree(root, [], map[]);
    assert pos[0..] == pos;
    IndexComplete(root, [], map[], t.path, pos);
    assert ix[t.path][0..] == ix[t.path];
    forall i | 0 <= i < |t.kids|
      ensures Indexed(t.kids[i], pos + [i], ix, Receipt(root, f))
    {
      SubKid(root, pos, i);
      DistinctIsIndexed(root, t.kids[i], pos + [i], f);
    }
  }
}
