/** Proofs read over a frontier cache: the run theorems of the engine hold for every run of the cache. */
module FrontierReads {
  import opened Core
  import F = FrontierSpec
  import opened ProofSpec
  import opened ProofReads
  import opened ProofRuns
  import opened Composition

  // ---------------------------------------------------------------- no atom comes back

  /** The live frontier at the moments of the reads: after ks[i] events, at time ts[i]. */
  function LiveFrontiers(es: seq<F.Event>, ks: seq<nat>, ts: seq<int>): (fs: seq<Frontier>)
    requires |ks| == |ts| && forall i :: 0 <= i < |ks| ==> ks[i] <= |es|
    ensures |fs| == |ks| && forall i :: 0 <= i < |ks| ==> fs[i] == F.Swept(F.After(es[..ks[i]]).view, ts[i])
  {
    seq(|ks|, i requires 0 <= i < |ks| => F.Swept(F.After(es[..ks[i]]).view, ts[i]))
  }

  predicate Forward(ks: seq<nat>, ts: seq<int>, n: nat) {
    && |ks| == |ts|
    && (forall i :: 0 <= i < |ks| ==> ks[i] <= n)
    && (forall i, j :: 0 <= i <= j < |ks| ==> ks[i] <= ks[j] && ts[i] <= ts[j])
  }

  lemma UntouchedBetween(es: seq<F.Event>, i: nat, j: nat, k: nat, q: string)
    requires i <= j <= k <= |es| && q in F.After(es[..i]).view
    requires q in F.After(es[..k]).view && F.After(es[..k]).view[q].hash == F.After(es[..i]).view[q].hash
    ensures F.ResidentAt(F.After(es[..j]).view, q) == F.ResidentAt(F.After(es[..k]).view, q) == F.ResidentAt(F.After(es[..i]).view, q)
  {
    hide F.After, F.Touches;
    F.HashStaysIffUntouched(es, i, k, q);
    assert F.Untouched(es, i, j, q);
    F.HashStaysIffUntouched(es, i, j, q);
  }

  /** Frontiers of a sequential cache run, evictions, expiry and sweeps included, are free of ABA. */
  lemma CacheFrontiersAbaFree(es: seq<F.Event>, ks: seq<nat>, ts: seq<int>)
    requires Forward(ks, ts, |es|)
    ensures AbaFree(LiveFrontiers(es, ks, ts))
  {
    hide F.After;
    var fs := LiveFrontiers(es, ks, ts);
    forall i, j, k, q
      ensures NoReturn(fs, i, j, k, q)
    {
      if 0 <= i <= j <= k < |fs| && q in fs[i] && Current(q, fs[i][q].hash, fs[k]) {
        UntouchedBetween(es, ks[i], ks[j], ks[k], q);
      }
    }
  }

  /**
   No stale reads over a cache: whatever appends, evictions and sweeps run between the reads, if the compositions of the
   tree are in place at each earlier read, a read whose receipt paths are live answers the plain value of the node tree
   at that moment.
   */
  lemma CachedReadsNeverStale(es: seq<F.Event>, ks: seq<nat>, ts: seq<int>, p: Proof, st: States,
                              orders: seq<seq<string>>, n: nat, ap: Applier)
    requires Forward(ks, ts, |es|) && 0 < n < |ks| == |orders|
    requires Composed(p, st, LiveFrontiers(es, ks, ts)[0], ap) && Listed(p, LiveFrontiers(es, ks, ts), orders, n, ap)
    requires forall i :: 0 < i < n ==> Kept(p.tree, LiveFrontiers(es, ks, ts)[i])
    requires forall q <- p.vv.Keys :: q in LiveFrontiers(es, ks, ts)[n]
    ensures Answer(p, LiveFrontiers(es, ks, ts), orders, n, ap) == Eval(p.tree, Exprs(LiveFrontiers(es, ks, ts)[n]), ap)
  {
    hide AbaFree, Composed, StepOk, Answer, After, Eval, F.After, Kept;
    var fs := LiveFrontiers(es, ks, ts);
    CacheFrontiersAbaFree(es, ks, ts);
    KeptSteps(p, st, fs, orders, n - 1, ap);
    NoStaleReads(p, st, fs, orders, n, ap);
  }

  // ---------------------------------------------------------------- cold composition

  /** `GetAtom` on a frontier cache resolves hashes of live residents only. */
  predicate Resolves(index: map<Hash, Atom>, live: Frontier) {
    forall h <- index.Keys :: index[h].hash == h && index[h].path in live && live[index[h].path] == index[h]
  }

  lemma {:induction false} ChildHasHash(s: Store, atoms: seq<Hash>, c: string)
    requires c in ChildPaths(s, atoms)
    ensures exists h <- atoms :: h in s.index && s.index[h].path == c
  {
    if atoms[0] in s.index && s.index[atoms[0]].path == c {
      assert atoms[0] in atoms;
    } else {
      ChildHasHash(s, atoms[1..], c);
      var h :| h in atoms[1..] && h in s.index && s.index[h].path == c;
      assert h in atoms;
    }
  }

  /**
   Cold composition terminates in every reachable state of a frontier cache, if compositions name
   only atoms that exist: each child that resolves is older than its parent.
   */
  lemma ColdCompositionTerminates(es: seq<F.Event>, now: int, index: map<Hash, Atom>, path: string)
    requires F.ComposesMinted(es)
    requires var live := F.Swept(F.After(es).view, now); Resolves(index, live) && path in live
    ensures var live := F.Swept(F.After(es).view, now);
            Build(Store(live, index), path, live[path].clock + 1).Some?
  {
    hide F.After, Build;
    var live := F.Swept(F.After(es).view, now);
    var s := Store(live, index);
    F.ChildrenAreOlder(es);
    forall p, c | p in live && c in Kids(s, p)
      ensures c in live && live[c].clock < live[p].clock
    {
      ChildHasHash(s, live[p].expr.atoms, c);
    }
    OlderChildrenTerminate(s, path);
  }
}
