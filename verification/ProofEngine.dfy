/**
 The proof graph as objects (internal/engine/proof.go, incremental.go): nodes linked by child
 and parent pointers, dirty flags and cached values updated in place. Every method is proved to
 follow the function of the same name in ProofSpec and ProofReads.
 */
module ProofEngine {
  import opened Core
  import S = ProofSpec
  import R = ProofReads

  class ProofNode {
    var expr: Expr
    var children: seq<ProofNode>
    var parent: ProofNode?
    var cachedValue: Value
    var dirty: bool
    var sourceHash: Hash
    const sourcePath: string
    /** Where the node sits in its graph. */
    ghost const pos: S.Pos

    constructor (expr: Expr, hash: Hash, path: string, parent: ProofNode?, ghost pos: S.Pos)
      ensures State() == S.NodeState(expr, hash, Nil, false)
      ensures this.sourcePath == path && this.parent == parent && this.pos == pos && children == []
    {
      this.expr, this.sourceHash, this.sourcePath, this.parent := expr, hash, path, parent;
      this.pos := pos;
      children, cachedValue, dirty := [], Nil, false;
    }

    ghost function State(): S.NodeState
      reads this`expr, this`sourceHash, this`cachedValue, this`dirty
    {
      S.NodeState(expr, sourceHash, cachedValue, dirty)
    }
  }

  /** `FindChangedPaths`: the receipt paths whose current hash differs, in the order met. */
  method FindChangedPaths(entries: map<string, Hash>, frontier: S.Frontier) returns (buf: seq<string>)
    ensures R.Lists(buf, R.Changed(entries, frontier))
    ensures |buf| == |R.Changed(entries, frontier)|
  {
    hide Scanned;
    buf := [];
    var todo := entries.Keys;
    ghost var changed := R.Changed(entries, frontier);
    ScanStart(changed, todo);
    while todo != {}
      invariant todo <= entries.Keys && Scanned(buf, changed, todo)
      decreases todo
    {
      var path :| path in todo;
      ScanStep(buf, changed, todo, path);
      if !R.Current(path, entries[path], frontier) {
        buf := buf + [path];
      }
      todo := todo - {path};
    }
    ScanEnd(buf, changed);
  }

  class MaterializedProof {
    var value: Value
    var versionVector: map<string, Hash>
    const pathToNode: map<string, ProofNode>
    const rootNode: ProofNode
    var changedPaths: nat
    var cacheHits: nat
    var cacheMisses: nat

    ghost const tree: S.Tree
    ghost const repr: set<ProofNode>
    /** The only node at a position. */
    ghost const at: map<S.Pos, ProofNode>
    ghost var st: S.States

    constructor (root: ProofNode, index: map<string, ProofNode>, vv: map<string, Hash>,
                 ghost tree: S.Tree, ghost at: map<S.Pos, ProofNode>, ghost st: S.States)
      ensures rootNode == root && pathToNode == index && versionVector == vv
      ensures this.tree == tree && this.at == at && this.repr == at.Values && this.st == st && value == Nil
    {
      rootNode, pathToNode, versionVector, value := root, index, vv, Nil;
      changedPaths, cacheHits, cacheMisses := 0, 0, 0;
      this.tree, this.at, this.repr, this.st := tree, at, at.Values, st;
    }

    /** The pointers describe the tree: children and parents are where the positions say. */
    ghost predicate Linked()
      reads repr`children, repr`parent
    {
      && (forall n <- repr :: NodeLinked(n))
      && rootNode in repr && rootNode.pos == []
      && (forall p <- pathToNode.Keys :: pathToNode[p] in repr)
    }

    ghost predicate NodeLinked(n: ProofNode)
      reads n`children, n`parent
    {
      && n.pos in at && at[n.pos] == n && R.InTree(tree, n.pos)
      && n.sourcePath == R.Sub(tree, n.pos).path && |n.children| == |R.Sub(tree, n.pos).kids|
      && (forall i :: 0 <= i < |n.children| ==> n.children[i] in repr && n.children[i].pos == n.pos + [i])
      && (n.pos == [] ==> n.parent == null)
      && (n.pos != [] ==> n.parent != null && n.parent in repr && n.parent.pos == n.pos[..|n.pos| - 1])
    }

    /** `st` is what the nodes hold. */
    ghost predicate Mirrors()
      reads this`st, repr`expr, repr`sourceHash, repr`cachedValue, repr`dirty
    {
      forall n <- repr :: S.Node(st, n.pos) == n.State()
    }

    ghost function Index(): map<string, S.Pos> {
      map p | p in pathToNode :: pathToNode[p].pos
    }

    /** The proof as a value. */
    ghost function Abs(): R.Proof
      reads this`st, this`versionVector, this`value
    {
      R.Proof(tree, st, versionVector, Index(), value)
    }

    ghost predicate Holds(n: ProofNode, t: S.Tree) {
      n in repr && R.InTree(tree, n.pos) && t == R.Sub(tree, n.pos)
    }

    lemma ChildHolds(n: ProofNode, t: S.Tree, i: nat)
      requires Linked() && Holds(n, t) && i < |t.kids|
      ensures i < |n.children| && Holds(n.children[i], t.kids[i])
      ensures n.children[i].pos == n.pos + [i] && n.children[i].sourcePath == t.kids[i].path
    {
      assert NodeLinked(n);
      R.SubKid(tree, n.pos, i);
      assert NodeLinked(n.children[i]);
    }

    lemma NodesApart()
      requires Linked()
      ensures forall n <- repr :: n.pos in at && at[n.pos] == n
    {
      forall n | n in repr ensures n.pos in at && at[n.pos] == n { assert NodeLinked(n); }
    }

    lemma ParentHolds(n: ProofNode)
      requires Linked() && n in repr
      ensures n.parent == null <==> n.pos == []
      ensures n.parent != null ==> n.parent in repr && n.parent.pos == n.pos[..|n.pos| - 1]
    {
      assert NodeLinked(n);
    }

    lemma ShapeHolds(n: ProofNode, t: S.Tree)
      requires Linked() && Holds(n, t)
      ensures |n.children| == |t.kids| && n.sourcePath == t.path
    {
      assert NodeLinked(n);
    }

    /** `PropagateDirtyUp`, following the parent pointers. */
    method PropagateDirtyUp(n: ProofNode)
      requires Linked() && Mirrors() && n in repr
      modifies this`st, repr`dirty
      ensures Mirrors() && st == S.PropagateDirtyUp(old(st), n.pos)
      decreases |n.pos|
    {
      hide Linked;
      if n.dirty { return; }
      NodesApart();
      ParentHolds(n);
      n.dirty := true;
      st := st[n.pos := S.Node(st, n.pos).(dirty := true)];
      if n.parent != null {
        PropagateDirtyUp(n.parent);
      }
    }

    /** `ResetDirty`, following the child pointers. */
    method ResetDirty(n: ProofNode, ghost t: S.Tree)
      requires Linked() && Holds(n, t)
      modifies repr`dirty
      ensures forall m <- repr :: m.dirty == (old(m.dirty) && !(n.pos <= m.pos))
      decreases t
    {
      hide Linked;
      NodesApart();
      ShapeHolds(n, t);
      n.dirty := false;
      var i := 0;
      while i < |n.children|
        invariant 0 <= i <= |n.children|
        invariant forall m <- repr :: m.dirty == (old(m.dirty) && !Visited(n.pos, i, m.pos))
      {
        ChildHolds(n, t, i);
        ResetDirty(n.children[i], t.kids[i]);
        forall q ensures Visited(n.pos, i + 1, q) <==> Visited(n.pos, i, q) || n.pos + [i] <= q {
          VisitedNext(n.pos, i, q);
        }
        i := i + 1;
      }
      forall m | m in repr ensures Visited(n.pos, |t.kids|, m.pos) <==> n.pos <= m.pos {
        AllVisited(n, t, m);
      }
    }

    lemma AllVisited(n: ProofNode, t: S.Tree, m: ProofNode)
      requires Linked() && Holds(n, t) && m in repr
      ensures Visited(n.pos, |t.kids|, m.pos) <==> n.pos <= m.pos
    {
      assert NodeLinked(m);
      if n.pos < m.pos {
        R.PrefixInTree(tree, n.pos, m.pos);
        assert m.pos[|n.pos|..][0] == m.pos[|n.pos|];
      }
    }

    /** `reduceDirty`. The source unrolls the loop over children for up to three of them. */
    method ReduceDirty(n: ProofNode, f: S.Frontier, ap: S.Applier, ghost t: S.Tree) returns (r: S.Outcome)
      requires Linked() && Mirrors() && Holds(n, t)
      modifies this`st, this`cacheHits, this`cacheMisses, repr`expr, repr`sourceHash, repr`cachedValue, repr`dirty
      ensures Mirrors()
      ensures var o := S.Reduce(t, n.pos, old(st), f, ap);
              && r == o.res && st == o.st
              && cacheHits == old(cacheHits) + o.hits && cacheMisses == old(cacheMisses) + o.misses
      decreases t, 2
    {
      hide Linked, Mirrors, R.Sub, R.InTree, S.Compute;
      ShapeHolds(n, t);
      NodeMirrored(n);
      if !n.dirty && n.cachedValue != Nil {
        cacheHits := cacheHits + 1;
        return S.Ok(n.cachedValue);
      }
      cacheMisses := cacheMisses + 1;
      RenewNode(n, f);
      NodeMirrored(n);
      r := ReduceRenewed(n, f, ap, t);
      NodeMirrored(n);
      if r.Err? { return; }
      KeepValue(n, r.value);
    }

    lemma NodeMirrored(n: ProofNode)
      requires Mirrors() && n in repr
      ensures S.Node(st, n.pos) == n.State()
    {
    }

    /** The result is kept in the node, which is clean from now on. */
    method KeepValue(n: ProofNode, v: Value)
      requires Linked() && Mirrors() && n in repr
      modifies this`st, repr`cachedValue, repr`dirty
      ensures Mirrors() && st == old(st)[n.pos := S.Node(old(st), n.pos).(cached := v, dirty := false)]
    {
      hide Linked;
      NodesApart();
      n.cachedValue := v;
      n.dirty := false;
      st := st[n.pos := S.Node(st, n.pos).(cached := v, dirty := false)];
    }

    /** A dirty node takes over the current expression of its path. */
    method RenewNode(n: ProofNode, f: S.Frontier)
      requires Linked() && Mirrors() && n in repr
      modifies this`st, repr`expr, repr`sourceHash
      ensures Mirrors() && st == old(st)[n.pos := S.Refreshed(S.Node(old(st), n.pos), n.sourcePath, f)]
    {
      hide Linked;
      NodesApart();
      if n.sourcePath != "" && n.dirty {
        if n.sourcePath in f {
          n.expr := f[n.sourcePath].expr;
          n.sourceHash := f[n.sourcePath].hash;
        }
      }
      st := st[n.pos := S.Refreshed(S.Node(st, n.pos), n.sourcePath, f)];
      assert n.State() == S.Node(st, n.pos);
    }

    /** The evaluation of a node by the kind of its expression, before its result is kept. */
    method ReduceRenewed(n: ProofNode, f: S.Frontier, ap: S.Applier, ghost t: S.Tree) returns (r: S.Outcome)
      requires Linked() && Mirrors() && Holds(n, t)
      modifies this`st, this`cacheHits, this`cacheMisses, repr`expr, repr`sourceHash, repr`cachedValue, repr`dirty
      ensures Mirrors() && n.State() == old(n.State())
      ensures var o := S.Compute(t, n.pos, old(n.expr), old(st), f, ap);
              && r == o.res && st == o.st
              && cacheHits == old(cacheHits) + o.hits && cacheMisses == old(cacheMisses) + o.misses
      decreases t, 1
    {
      hide Linked, Mirrors, R.Sub, R.InTree, S.Reduce, S.ReduceKids;
      ShapeHolds(n, t);
      NodeMirrored(n);
      S.ComputeFrame(t, n.pos, n.expr, st, f, ap, n.pos);
      match n.expr {
        case EConst(v) =>
          r := S.Ok(v);
        case EFieldAccess(field, _) =>
          if n.children == [] { return S.Err(S.MissingChildren); }
          ChildHolds(n, t, 0);
          r := ReduceDirty(n.children[0], f, ap, t.kids[0]);
          if r.Ok? { r := S.Ok(S.ExtractField(field, r.value)); }
        case ECompose(_) =>
          r := ReduceChildren(n, f, ap, t);
        case EApply(_, _) =>
          if |n.children| < 2 { return S.Err(S.MissingChildren); }
          ChildHolds(n, t, 0);
          ChildHolds(n, t, 1);
          var fv := ReduceDirty(n.children[0], f, ap, t.kids[0]);
          if fv.Err? {
            NodeMirrored(n);
            return fv;
          }
          var av := ReduceDirty(n.children[1], f, ap, t.kids[1]);
          r := if av.Err? then av else S.Ok(ap(fv.value, av.value));
        case EOpaque(_) =>
          r := S.Err(S.Unsupported);
      }
      NodeMirrored(n);
    }

    /** The record of all children, in order. */
    method ReduceChildren(n: ProofNode, f: S.Frontier, ap: S.Applier, ghost t: S.Tree) returns (r: S.Outcome)
      requires Linked() && Mirrors() && Holds(n, t)
      modifies this`st, this`cacheHits, this`cacheMisses, repr`expr, repr`sourceHash, repr`cachedValue, repr`dirty
      ensures Mirrors()
      ensures var o := S.ReduceKids(t, n.pos, 0, map[], old(st), f, ap);
              && r == o.res && st == o.st
              && cacheHits == old(cacheHits) + o.hits && cacheMisses == old(cacheMisses) + o.misses
      decreases t, 0
    {
      hide Linked, Mirrors, R.Sub, R.InTree, S.Reduce;
      ShapeHolds(n, t);
      var rec: map<string, Value> := map[];
      var i := 0;
      while i < |n.children|
        invariant 0 <= i <= |n.children| == |t.kids|
        invariant Mirrors()
        invariant var o := S.ReduceKids(t, n.pos, i, rec, st, f, ap);
                  var whole := S.ReduceKids(t, n.pos, 0, map[], old(st), f, ap);
                  && whole.res == o.res && whole.st == o.st
                  && cacheHits + o.hits == old(cacheHits) + whole.hits
                  && cacheMisses + o.misses == old(cacheMisses) + whole.misses
      {
        ChildHolds(n, t, i);
        r := ReduceDirty(n.children[i], f, ap, t.kids[i]);
        if r.Err? { return; }
        rec := rec[n.children[i].sourcePath := r.value];
        i := i + 1;
      }
      r := S.Ok(VRecord(rec));
    }

    /** The dirty part of a read: every changed path marks its node and the nodes above it. */
    method MarkChanged(order: seq<string>)
      requires Linked() && Mirrors()
      modifies this`st, repr`dirty
      ensures Mirrors() && st == R.Marked(old(Abs()), order)
    {
      hide R.Sub, R.InTree, S.PropagateDirtyUp, S.PropagateAll, R.Marks, Linked, Mirrors;
      RootHolds();
      ClearAll();
      ghost var clean := st;
      var i := 0;
      NoMarks(order, Index(), clean);
      while i < |order|
        invariant 0 <= i <= |order|
        invariant Mirrors() && st == S.PropagateAll(clean, R.Marks(order[..i], Index()))
      {
        MarksNext(order, i, Index(), clean);
        if order[i] in pathToNode {
          PropagateDirtyUp(pathToNode[order[i]]);
        }
        i := i + 1;
      }
      assert order[..|order|] == order;
    }

    /** `ResetDirty` from the root. */
    method ClearAll()
      requires Linked() && Mirrors()
      modifies this`st, repr`dirty
      ensures Mirrors() && st == S.Cleared(old(st))
    {
      hide Linked;
      RootHolds();
      ResetDirty(rootNode, tree);
      st := S.Cleared(st);
    }

    lemma RootHolds()
      requires Linked()
      ensures Holds(rootNode, tree) && rootNode.pos == []
      ensures forall p <- pathToNode.Keys :: pathToNode[p] in repr
    {
      assert NodeLinked(rootNode);
    }

    /** The receipts of the changed paths that are live become the current hashes. */
    method RenewReceipts(order: seq<string>, frontier: S.Frontier)
      requires R.Lists(order, R.Changed(versionVector, frontier))
      modifies this`versionVector
      ensures versionVector == R.Renewed(old(versionVector), frontier)
    {
      ghost var vv := versionVector;
      var i := 0;
      while i < |order|
        invariant 0 <= i <= |order|
        invariant versionVector.Keys == vv.Keys
        invariant forall q <- vv.Keys ::
                    versionVector[q] == if q in order[..i] && q in frontier then frontier[q].hash else vv[q]
      {
        assert order[..i + 1] == order[..i] + [order[i]];
        assert order[i] in order;
        if order[i] in frontier {
          versionVector := versionVector[order[i] := frontier[order[i]].hash];
        }
        i := i + 1;
      }
      assert order[..|order|] == order;
      assert versionVector == R.Renewed(vv, frontier);
    }

    /** The slow path of `ReduceIncremental`, once the changed paths are listed. */
    method ReduceChanged(changed: seq<string>, frontier: S.Frontier, ap: S.Applier) returns (r: S.Outcome)
      requires Linked() && Mirrors() && !R.Verified(versionVector, frontier)
      requires R.Lists(changed, R.Changed(versionVector, frontier)) && cacheHits == cacheMisses == 0
      modifies this`st, this`value, this`versionVector, this`cacheHits, this`cacheMisses
      modifies repr`expr, repr`sourceHash, repr`cachedValue, repr`dirty
      ensures Mirrors()
      ensures var out := R.Read(old(Abs()), frontier, changed, ap);
              r == out.res && Abs() == out.proof && cacheHits == out.hits && cacheMisses == out.misses
    {
      hide S.Reduce, R.Marked, R.Renewed, R.Sub, R.InTree, R.Lists, R.Changed, R.Verified, Linked, Mirrors;
      RootHolds();
      MarkChanged(changed);
      r := ReduceDirty(rootNode, frontier, ap, tree);
      if r.Ok? {
        value := r.value;
        RenewReceipts(changed, frontier);
      }
    }

    /** `ReduceIncremental`. */
    method ReduceIncremental(frontier: S.Frontier, ap: S.Applier) returns (r: S.Outcome, ghost order: seq<string>)
      requires Linked() && Mirrors()
      modifies this`st, this`value, this`versionVector, this`changedPaths, this`cacheHits, this`cacheMisses
      modifies repr`expr, repr`sourceHash, repr`cachedValue, repr`dirty
      ensures Mirrors()
      ensures R.Lists(order, R.Changed(old(versionVector), frontier))
      ensures var out := R.Read(old(Abs()), frontier, order, ap);
              && r == out.res && Abs() == out.proof
              && cacheHits == out.hits && cacheMisses == out.misses
              && changedPaths == |R.Changed(old(versionVector), frontier)|
    {
      hide R.Read, Linked, Mirrors;
      changedPaths, cacheHits, cacheMisses := 0, 0, 0;
      if R.Verified(versionVector, frontier) {
        order := [];
        assert R.Changed(versionVector, frontier) == {};
        ReadVerified(Abs(), frontier, ap);
        return S.Ok(value), order;
      }
      var changed := FindChangedPaths(versionVector, frontier);
      order := changed;
      changedPaths := |changed|;
      r := ReduceChanged(changed, frontier, ap);
    }
  }

  lemma ReadVerified(p: R.Proof, f: S.Frontier, ap: S.Applier)
    requires R.Verified(p.vv, f)
    ensures R.Read(p, f, [], ap) == R.ReadOut(S.Ok(p.value), p, 0, 0)
  {
    hide S.Reduce, R.Marked;
  }

  lemma MarksNext(order: seq<string>, i: nat, ix: map<string, S.Pos>, st: S.States)
    requires i < |order|
    ensures S.PropagateAll(st, R.Marks(order[..i + 1], ix)) ==
              var before := S.PropagateAll(st, R.Marks(order[..i], ix));
              if order[i] in ix then S.PropagateDirtyUp(before, ix[order[i]]) else before
  {
    hide S.PropagateDirtyUp;
    var marks := R.Marks(order[..i], ix);
    assert order[..i + 1][..i] == order[..i];
    if order[i] in ix {
      var more := marks + [ix[order[i]]];
      assert R.Marks(order[..i + 1], ix) == more;
      assert more[..|more| - 1] == marks;
    } else {
      assert R.Marks(order[..i + 1], ix) == marks;
    }
  }

  lemma NoMarks(order: seq<string>, ix: map<string, S.Pos>, st: S.States)
    ensures S.PropagateAll(st, R.Marks(order[..0], ix)) == st
  {
    assert order[..0] == [];
  }

  predicate Visited(top: S.Pos, i: nat, q: S.Pos) {
    top <= q && (q == top || q[|top|] < i)
  }

  lemma VisitedNext(top: S.Pos, i: nat, q: S.Pos)
    ensures Visited(top, i + 1, q) <==> Visited(top, i, q) || top + [i] <= q
  {
    if top <= q && q != top && q[|top|] == i {
      assert q[..|top| + 1] == top + [i];
    }
  }
}
