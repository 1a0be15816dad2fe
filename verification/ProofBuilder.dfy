/** Building the object graph of a proof (internal/engine/compose.go, buildProofNode and ComposeProof). */
module ProofBuilder {
  import opened Core
  import opened ProofSpec
  import Runs = ProofRuns
  import C = Composition
  import opened PathIndex
  import L = ProofLimits
  import opened ProofEngine

  // ---------------------------------------------------------------- building the nodes

  /** A node freshly built below `top`, where the subtrees being built start at depth `depth`. */
  ghost predicate NodeBuilt(q: Pos, at: map<Pos, ProofNode>, root: Tree, f: Frontier, top: ProofNode?, depth: nat)
    requires q in at
    reads at.Values
  {
    var n := at[q];
    && n.pos == q && R.InTree(root, q) && n.sourcePath == R.Sub(root, q).path && |n.children| == |R.Sub(root, q).kids|
    && (forall i :: 0 <= i < |n.children| ==> q + [i] in at && n.children[i] == at[q + [i]])
    && depth <= |q|
    && (|q| == depth ==> n.parent == top)
    && (|q| > depth ==> q[..|q| - 1] in at && n.parent == at[q[..|q| - 1]])
    && n.sourcePath in f && n.State() == NodeState(f[n.sourcePath].expr, f[n.sourcePath].hash, Nil, false)
  }

  ghost predicate Grown(at: map<Pos, ProofNode>, root: Tree, f: Frontier, top: ProofNode?, depth: nat)
    reads at.Values
  {
    forall q <- at.Keys :: NodeBuilt(q, at, root, f, top, depth)
  }

  lemma GrownUnion(a: map<Pos, ProofNode>, b: map<Pos, ProofNode>, root: Tree, f: Frontier, top: ProofNode?, depth: nat)
    requires Grown(a, root, f, top, depth) && Grown(b, root, f, top, depth) && a.Keys !! b.Keys
    ensures Grown(a + b, root, f, top, depth)
  {
    forall q | q in (a + b).Keys
      ensures NodeBuilt(q, a + b, root, f, top, depth)
    {
      if q in a { assert NodeBuilt(q, a, root, f, top, depth); } else { assert NodeBuilt(q, b, root, f, top, depth); }
    }
  }

  /** Putting the parent on top of its finished children. */
  lemma GrownParent(kids: map<Pos, ProofNode>, node: ProofNode, pos: Pos, root: Tree, f: Frontier, top: ProofNode?)
    requires Grown(kids, root, f, node, |pos| + 1) && pos !in kids && node.pos == pos
    requires forall q <- kids.Keys :: pos < q
    requires R.InTree(root, pos) && node.sourcePath == R.Sub(root, pos).path && |node.children| == |R.Sub(root, pos).kids|
    requires forall i :: 0 <= i < |node.children| ==> pos + [i] in kids && node.children[i] == kids[pos + [i]]
    requires node.parent == top && node.sourcePath in f
    requires node.State() == NodeState(f[node.sourcePath].expr, f[node.sourcePath].hash, Nil, false)
    ensures Grown(kids[pos := node], root, f, top, |pos|)
  {
    var at := kids[pos := node];
    forall q | q in at
      ensures NodeBuilt(q, at, root, f, top, |pos|)
    {
      if q != pos {
        assert NodeBuilt(q, kids, root, f, node, |pos| + 1);
        if |q| == |pos| + 1 {
          assert q[..|q| - 1] == pos;
        }
      } else {
        assert forall i :: 0 <= i < |node.children| ==> pos + [i] != pos;
      }
    }
  }

  ghost function Positions(index: map<string, ProofNode>): map<string, Pos> {
    map p | p in index :: index[p].pos
  }

  /** New index entries point into the new nodes. */
  ghost predicate Points(index: map<string, ProofNode>, index': map<string, ProofNode>, at: map<Pos, ProofNode>) {
    forall p <- index'.Keys ::
      (p in index && index'[p] == index[p]) || (index'[p].pos in at && at[index'[p].pos] == index'[p])
  }

  ghost predicate Spans(at: map<Pos, ProofNode>, root: Tree, pos: Pos) {
    forall q :: q in at <==> pos <= q && R.InTree(root, q)
  }

  ghost predicate SpansKids(at: map<Pos, ProofNode>, root: Tree, pos: Pos, k: nat) {
    forall q :: q in at <==> pos < q && q[|pos|] < k && R.InTree(root, q)
  }

  /** `buildProofNode`; only entered where it terminates. */
  method BuildProofNode(s: C.Store, path: string, parent: ProofNode?, index: map<string, ProofNode>,
                        ghost root: Tree, ghost pos: Pos, ghost fuel: nat)
    returns (node: ProofNode?, index': map<string, ProofNode>, ghost at: map<Pos, ProofNode>)
    requires path in s.frontier ==> R.InTree(root, pos) && C.Build(s, path, fuel) == Some(R.Sub(root, pos))
    ensures path !in s.frontier ==> node == null && index' == index
    ensures path in s.frontier ==>
              && node != null && pos in at && at[pos] == node
              && Grown(at, root, s.frontier, parent, |pos|) && Spans(at, root, pos)
              && Positions(index') == IndexTree(R.Sub(root, pos), pos, Positions(index)) && Points(index, index', at)
    ensures forall q <- at.Keys :: fresh(at[q])
    decreases fuel, 1
  {
    hide C.Build, R.InTree, R.Sub, Points, Spans, SpansKids, Grown, IndexUpTo, C.Kids;
    at, index' := map[], index;
    if path !in s.frontier { return null, index', at; }
    ghost var t := R.Sub(root, pos);
    if fuel == 0 { C.NoFuel(s, path); }
    C.BuildUnfold(s, path, fuel);
    var atom := s.frontier[path];
    var n := new ProofNode(atom.expr, atom.hash, path, parent, pos);
    var ix := index[path := n];
    var children: seq<ProofNode> := [];
    if atom.expr.ECompose? {
      children, index', at := BuildChildren(s, atom.expr.atoms, n, ix, root, pos, fuel, path);
    } else {
      index' := ix;
      NoKids(s, path, root, pos, n, ix);
    }
    assert n !in at.Values;
    n.children := children;
    ghost var kids := at;
    at := at[pos := n];
    assert Positions(ix) == Positions(index)[t.path := pos];
    Assemble(index, ix, index', kids, n, root, pos, s.frontier, parent);
    node := n;
  }

  lemma NoKids(s: C.Store, path: string, root: Tree, pos: Pos, n: ProofNode, ix: map<string, ProofNode>)
    requires path in s.frontier && !s.frontier[path].expr.ECompose? && R.InTree(root, pos)
    requires |R.Sub(root, pos).kids| == |C.Kids(s, path)|
    ensures |R.Sub(root, pos).kids| == 0 && SpansKids(map[], root, pos, 0) && Points(ix, ix, map[])
    ensures Grown(map[], root, s.frontier, n, |pos| + 1)
    ensures IndexUpTo(R.Sub(root, pos), pos, 0, Positions(ix)) == Positions(ix)
  {
  }

  lemma Assemble(index: map<string, ProofNode>, ix: map<string, ProofNode>, index': map<string, ProofNode>,
                 kids: map<Pos, ProofNode>, n: ProofNode, root: Tree, pos: Pos, f: Frontier, top: ProofNode?)
    requires R.InTree(root, pos) && SpansKids(kids, root, pos, |R.Sub(root, pos).kids|)
    requires Grown(kids, root, f, n, |pos| + 1) && n.pos == pos
    requires n.sourcePath == R.Sub(root, pos).path && |n.children| == |R.Sub(root, pos).kids|
    requires forall i :: 0 <= i < |n.children| ==> pos + [i] in kids && n.children[i] == kids[pos + [i]]
    requires n.parent == top && n.sourcePath in f
    requires n.State() == NodeState(f[n.sourcePath].expr, f[n.sourcePath].hash, Nil, false)
    requires ix == index[n.sourcePath := n] && Points(ix, index', kids)
    ensures Grown(kids[pos := n], root, f, top, |pos|) && Spans(kids[pos := n], root, pos) && Points(index, index', kids[pos := n])
  {
    hide Grown;
    GrownParent(kids, n, pos, root, f, top);
    var at := kids[pos := n];
    forall q: Pos
      ensures q in at <==> pos <= q && R.InTree(root, q)
    {
      if pos < q && R.InTree(root, q) {
        R.PrefixInTree(root, pos, q);
        assert q[|pos|..][0] == q[|pos|];
        assert q[|pos|] < |R.Sub(root, pos).kids|;
        assert q in kids;
      } else if q != pos {
        assert q !in kids;
      }
    }
  }

  method BuildChildren(s: C.Store, atoms: seq<Hash>, n: ProofNode, index: map<string, ProofNode>,
                       ghost root: Tree, ghost pos: Pos, ghost fuel: nat, ghost path: string)
    returns (children: seq<ProofNode>, index': map<string, ProofNode>, ghost at: map<Pos, ProofNode>)
    requires fuel > 0 && path in s.frontier && s.frontier[path].expr == ECompose(atoms)
    requires R.InTree(root, pos) && C.Build(s, path, fuel) == Some(R.Sub(root, pos))
    ensures |children| == |R.Sub(root, pos).kids|
    ensures forall i :: 0 <= i < |children| ==> pos + [i] in at && children[i] == at[pos + [i]]
    ensures Grown(at, root, s.frontier, n, |pos| + 1) && SpansKids(at, root, pos, |children|)
    ensures forall q <- at.Keys :: fresh(at[q])
    ensures Positions(index') == IndexUpTo(R.Sub(root, pos), pos, |children|, Positions(index)) && Points(index, index', at)
    decreases fuel, 0
  {
    hide C.Build, R.InTree, R.Sub, Points, IndexTree, IndexUpTo, SpansKids, Spans, Grown, C.ChildPaths, Positions;
    C.BuildUnfold(s, path, fuel);
    ghost var t, paths := R.Sub(root, pos), C.Kids(s, path);
    children, index', at := [], index, map[];
    NoChildYet(root, pos, index, t, n, s.frontier);
    assert atoms[0..] == atoms;
    var i := 0;
    while i < |atoms|
      invariant 0 <= i <= |atoms|
      invariant |children| <= |paths| && paths[|children|..] == C.ChildPaths(s, atoms[i..])
      invariant forall j :: 0 <= j < |children| ==> pos + [j] in at && children[j] == at[pos + [j]]
      invariant Grown(at, root, s.frontier, n, |pos| + 1) && SpansKids(at, root, pos, |children|)
      invariant forall q <- at.Keys :: fresh(at[q])
      invariant Positions(index') == IndexUpTo(t, pos, |children|, Positions(index)) && Points(index, index', at)
    {
      ChildPathsAt(s, atoms, i);
      if atoms[i] in s.index {
        ghost var k := |children|;
        var childPath := s.index[atoms[i]].path;
        if childPath in s.frontier {
          assert paths[k] == childPath;
          R.SubKid(root, pos, k);
          IndexNext(t, pos, k, Positions(index));
        }
        var child, ix, more := BuildProofNode(s, childPath, n, index', root, pos + [k], fuel - 1);
        if child != null {
          OneMoreChild(at, more, root, pos, k, s.frontier, n, index, index', ix);
          children := children + [child];
          at := at + more;
          index' := ix;
        }
      }
      i := i + 1;
    }
    NoChildPaths(s, atoms[i..]);
  }

  lemma ChildPathsAt(s: C.Store, atoms: seq<Hash>, i: nat)
    requires i < |atoms|
    ensures C.ChildPaths(s, atoms[i..]) ==
            (if atoms[i] in s.index && s.index[atoms[i]].path in s.frontier then [s.index[atoms[i]].path] else [])
            + C.ChildPaths(s, atoms[i + 1..])
  {
    assert atoms[i..][0] == atoms[i] && atoms[i..][1..] == atoms[i + 1..];
  }

  lemma NoChildPaths(s: C.Store, atoms: seq<Hash>)
    requires atoms == []
    ensures C.ChildPaths(s, atoms) == []
  {
  }

  lemma NoChildYet(root: Tree, pos: Pos, index: map<string, ProofNode>, t: Tree, n: ProofNode, f: Frontier)
    ensures SpansKids(map[], root, pos, 0) && Points(index, index, map[])
    ensures Grown(map[], root, f, n, |pos| + 1) && IndexUpTo(t, pos, 0, Positions(index)) == Positions(index)
  {
  }

  lemma IndexNext(t: Tree, pos: Pos, k: nat, ix: map<string, Pos>)
    requires k < |t.kids|
    ensures IndexUpTo(t, pos, k + 1, ix) == IndexTree(t.kids[k], pos + [k], IndexUpTo(t, pos, k, ix))
  {
  }

  lemma OneMoreChild(at: map<Pos, ProofNode>, more: map<Pos, ProofNode>, root: Tree, pos: Pos, k: nat, f: Frontier, n: ProofNode,
                     index: map<string, ProofNode>, index': map<string, ProofNode>, ix: map<string, ProofNode>)
    requires Grown(at, root, f, n, |pos| + 1) && SpansKids(at, root, pos, k)
    requires Grown(more, root, f, n, |pos| + 1) && Spans(more, root, pos + [k])
    requires Points(index, index', at) && Points(index', ix, more)
    ensures Grown(at + more, root, f, n, |pos| + 1) && SpansKids(at + more, root, pos, k + 1) && Points(index, ix, at + more)
    ensures at.Keys !! more.Keys
  {
    hide Grown;
    forall q | q in at ensures q !in more { }
    GrownUnion(at, more, root, f, n, |pos| + 1);
    forall q: Pos
      ensures q in at + more <==> pos < q && q[|pos|] < k + 1 && R.InTree(root, q)
    {
      if pos < q && q[|pos|] == k {
        assert q[..|pos| + 1] == pos + [k];
      }
    }
    forall p | p in ix
      ensures (p in index && ix[p] == index[p]) || (ix[p].pos in at + more && (at + more)[ix[p].pos] == ix[p])
    {
    }
  }

  // ---------------------------------------------------------------- ComposeProof

  /** The states of the nodes as built. */
  ghost function ColdStates(at: map<Pos, ProofNode>): States
    reads at.Values
  {
    map q | q in at :: at[q].State()
  }

  lemma {:induction false} GrownIsCold(at: map<Pos, ProofNode>, root: Tree, f: Frontier, t: Tree, pos: Pos)
    requires Grown(at, root, f, null, 0) && Spans(at, root, []) && R.InTree(root, pos) && t == R.Sub(root, pos)
    ensures Runs.Cold(t, pos, ColdStates(at), f)
    decreases t
  {
    assert pos in at;
    assert NodeBuilt(pos, at, root, f, null, 0);
    forall i | 0 <= i < |t.kids|
      ensures Runs.Cold(t.kids[i], pos + [i], ColdStates(at), f)
    {
      R.SubKid(root, pos, i);
      GrownIsCold(at, root, f, t.kids[i], pos + [i]);
    }
  }

  lemma GrownIsLinked(p: MaterializedProof, f: Frontier)
    requires Grown(p.at, p.tree, f, null, 0) && Spans(p.at, p.tree, []) && p.repr == p.at.Values
    requires [] in p.at && p.rootNode == p.at[[]] && Points(map[], p.pathToNode, p.at)
    ensures p.Linked()
  {
    forall n | n in p.repr
      ensures p.NodeLinked(n)
    {
      var q: Pos :| q in p.at && p.at[q] == n;
      assert NodeBuilt(q, p.at, p.tree, f, null, 0);
      if q != [] {
        assert q[..|q| - 1] in p.at && NodeBuilt(q[..|q| - 1], p.at, p.tree, f, null, 0);
      }
      forall i | 0 <= i < |n.children|
        ensures n.children[i] in p.repr && n.children[i].pos == n.pos + [i]
      {
        assert NodeBuilt(q + [i], p.at, p.tree, f, null, 0);
      }
    }
    assert NodeBuilt([], p.at, p.tree, f, null, 0);
  }

  lemma GrownMirrors(p: MaterializedProof, f: Frontier)
    requires Grown(p.at, p.tree, f, null, 0) && p.repr == p.at.Values && p.st == ColdStates(p.at)
    ensures p.Mirrors()
  {
    forall n | n in p.repr
      ensures Node(p.st, n.pos) == n.State()
    {
      var q: Pos :| q in p.at && p.at[q] == n;
      assert NodeBuilt(q, p.at, p.tree, f, null, 0);
    }
  }

  /** The receipts of a new proof: the root's path, then every other named path of the graph. */
  method CaptureVersionVector(path: string, index: map<string, ProofNode>, f: Frontier) returns (vv: map<string, Hash>)
    requires path in index && path in f
    ensures vv == map c | c in index && c != "" && c in f :: f[c].hash
  {
    vv := if path != "" then map[path := f[path].hash] else map[];
    var todo := index.Keys;
    while todo != {}
      invariant todo <= index.Keys
      invariant forall c :: c in vv ==> c in index && c != "" && c in f && vv[c] == f[c].hash
      invariant forall c :: c in index && c !in todo && c != "" && c in f ==> c in vv
      decreases todo
    {
      var c :| c in todo;
      if c != "" && c !in vv && c in f {
        vv := vv[c := f[c].hash];
      }
      todo := todo - {c};
    }
  }

  /** The proof before its first evaluation. */
  method ColdProof(s: C.Store, path: string, ghost fuel: nat) returns (p: MaterializedProof)
    requires path in s.frontier && C.Build(s, path, fuel).Some?
    ensures fresh(p) && fresh(p.repr) && p.Linked() && p.Mirrors()
    ensures C.Build(s, path, fuel) == Some(p.tree) && Runs.Cold(p.tree, [], p.st, s.frontier)
    ensures p.versionVector == Receipt(p.tree, s.frontier) && p.Index() == IndexTree(p.tree, [], map[]) && p.value == Nil
  {
    hide *;
    ghost var t := C.Build(s, path, fuel).value;
    RootOf(s, path, fuel);
    var root, index, at := BuildProofNode(s, path, null, map[], t, [], fuel);
    NoPositions();
    RootIndexed(t);
    IndexKeys(index, t);
    var vv := CaptureVersionVector(path, index, s.frontier);
    ReceiptIs(index, t, s.frontier);
    p := new MaterializedProof(root, index, vv, t, at, ColdStates(at));
    GrownIsLinked(p, s.frontier);
    GrownMirrors(p, s.frontier);
    GrownIsCold(at, t, s.frontier, t, []);
    IndexIsPositions(p);
  }

  lemma NoPositions()
    ensures Positions(map[]) == map[]
  {
  }

  lemma IndexKeys(index: map<string, ProofNode>, t: Tree)
    requires Positions(index) == IndexTree(t, [], map[])
    ensures index.Keys == IndexTree(t, [], map[]).Keys
  {
    hide IndexTree;
    assert Positions(index).Keys == index.Keys;
  }

  lemma ReceiptIs(index: map<string, ProofNode>, t: Tree, f: Frontier)
    requires index.Keys == IndexTree(t, [], map[]).Keys
    ensures Receipt(t, f) == map c | c in index && c != "" && c in f :: f[c].hash
  {
    hide IndexTree;
  }

  lemma IndexIsPositions(p: MaterializedProof)
    ensures p.Index() == Positions(p.pathToNode)
  {
  }

  /**
   `ComposeProof`, on paths where building terminates. An unknown path gives no proof. Where
   evaluation fails the source goes on to hash a nil value; here the failure is reported in `r`.
   */
  method ComposeProof(s: C.Store, path: string, ap: Applier, ghost fuel: nat)
    returns (proof: MaterializedProof?, r: Outcome, ghost cold: States)
    requires path in s.frontier ==> C.Build(s, path, fuel).Some?
    ensures proof == null <==> path !in s.frontier
    ensures proof != null ==>
              && fresh(proof) && fresh(proof.repr) && proof.Linked() && proof.Mirrors()
              && C.Build(s, path, fuel) == Some(proof.tree)
              && Runs.Cold(proof.tree, [], cold, s.frontier)
              && r == Reduce(proof.tree, [], cold, s.frontier, ap).res
              && proof.Abs() == R.Proof(proof.tree, Reduce(proof.tree, [], cold, s.frontier, ap).st,
                                        Receipt(proof.tree, s.frontier), IndexTree(proof.tree, [], map[]),
                                        if r.Ok? then r.value else Nil)
              && (r.Ok? ==> L.AsComposed(proof.Abs(), cold, s.frontier, ap))
  {
    hide C.Build, Reduce, Runs.Cold, Receipt, IndexTree, R.InTree, R.Sub, MaterializedProof.Linked;
    hide MaterializedProof.Mirrors, L.AsComposed;
    cold := map[];
    if path !in s.frontier { return null, Err(Unsupported), cold; }
    var p := ColdProof(s, path, fuel);
    cold := p.st;
    p.RootHolds();
    r := p.ReduceDirty(p.rootNode, s.frontier, ap, p.tree);
    if r.Ok? {
      p.value := r.value;
      ComposedHere(p.Abs(), cold, s.frontier, ap);
    }
    proof := p;
  }

  lemma RootOf(s: C.Store, path: string, fuel: nat)
    requires path in s.frontier && C.Build(s, path, fuel).Some?
    ensures R.InTree(C.Build(s, path, fuel).value, [])
    ensures R.Sub(C.Build(s, path, fuel).value, []) == C.Build(s, path, fuel).value
    ensures C.Build(s, path, fuel).value.path == path
  {
    C.BuildRoot(s, path, fuel);
  }

  lemma RootIndexed(t: Tree)
    ensures t.path in IndexTree(t, [], map[])
  {
    var r: Pos := [];
    assert r[0..] == [];
    IndexComplete(t, [], map[], t.path, []);
  }

  lemma ComposedHere(p: R.Proof, cold: States, f: Frontier, ap: Applier)
    requires Runs.Cold(p.tree, [], cold, f) && Reduce(p.tree, [], cold, f, ap).res == Ok(p.value)
    requires p.st == Reduce(p.tree, [], cold, f, ap).st && p.vv == Receipt(p.tree, f) && p.ix == IndexTree(p.tree, [], map[])
    ensures L.AsComposed(p, cold, f, ap)
  {
    hide Reduce, IndexTree, Receipt, Runs.Cold;
  }
}
