/**
 * The consistent-hash ring in place (internal/cluster/hashring.go): a slice of points in an array with spare room,
 * sorted on `Add`, filtered within the same array on `Remove`, searched on `Get`.
 */
module HashRing {
  import opened Decimals
  import opened HashRingSpec

  class HashRing {
    const replicas: nat
    const hash: string -> Point
    var keys: array<Point>
    var count: nat
    var nodes: map<Point, string>

    ghost predicate Valid()
      reads this
    {
      count <= keys.Length && 0 < replicas < INT_LIMIT
    }

    ghost function Abs(): Ring
      reads this, keys
      requires Valid()
    {
      Ring(keys[..count], nodes)
    }

    /** `NewHashRing`: 128 virtual nodes unless a positive number is asked for. */
    constructor (replicas: int, hash: string -> Point)
      requires replicas < INT_LIMIT
      ensures Valid() && fresh(keys) && this.hash == hash
      ensures this.replicas == if replicas <= 0 then 128 else replicas
      ensures Abs() == Ring([], map[])
    {
      this.replicas := if replicas <= 0 then 128 else replicas;
      this.hash := hash;
      keys := new Point[0];
      count := 0;
      nodes := map[];
    }

    /** Slice append: a full array is replaced by a larger copy. */
    method Append(k: Point)
      requires Valid()
      modifies this`keys, this`count, keys
      ensures Valid() && keys[..count] == old(keys[..count]) + [k]
      ensures fresh(keys) || keys == old(keys)
    {
      if count == keys.Length {
        var grown := new Point[2 * count + 1](_ => 0);
        for i := 0 to count
          invariant keys == old(keys) && count == old(count) && unchanged(keys)
          invariant i <= keys.Length && grown[..i] == keys[..i]
        {
          grown[i] := keys[i];
        }
        keys := grown;
      }
      keys[count] := k;
      count := count + 1;
    }

    method Sort()
      requires Valid()
      modifies keys
      ensures keys[..count] == SortKeys(old(keys[..count]))
    {
      hide SortKeys;
      var sorted := SortKeys(keys[..count]);
      assert |sorted| == count by { SortedLength(keys[..count]); }
      for i := 0 to count
        invariant keys[..i] == sorted[..i]
      {
        keys[i] := sorted[i];
      }
    }

    /** One virtual point joins the slice and the owner table. */
    method AddOne(node: string, i: nat)
      requires Valid() && i < INT_LIMIT
      modifies this`keys, this`count, this`nodes, keys
      ensures Valid() && keys[..count] == old(keys[..count]) + [hash(VnodeLabel(node, i))]
      ensures nodes == old(nodes)[hash(VnodeLabel(node, i)) := node]
      ensures fresh(keys) || keys == old(keys)
    {
      hide VnodeLabel;
      var digits := ToDecimal(i);
      LabelOf(node, i);
      var k := hash(node + "#vn#" + digits);
      Append(k);
      nodes := nodes[k := node];
    }

    /** `Add`: the node's virtual points join the slice, then the slice is sorted. */
    method Add(node: string)
      requires Valid()
      modifies this`keys, this`count, this`nodes, keys
      ensures Valid() && Abs() == AddRing(old(Abs()), node, VnodeHashes(hash, node, replicas))
      ensures fresh(keys) || keys == old(keys)
    {
      hide SortKeys, VnodeLabel, Assign;
      ghost var hs := VnodeHashes(hash, node, replicas);
      var i := 0;
      AssignNone(nodes, node);
      while i < replicas
        invariant Valid() && i <= replicas
        invariant keys[..count] == old(keys[..count]) + hs[..i]
        invariant nodes == Assign(old(nodes), hs[..i], node)
        invariant fresh(keys) || keys == old(keys)
      {
        AddOne(node, i);
        assert hs[..i + 1] == hs[..i] + [hs[i]];
        AssignOne(old(nodes), hs[..i], node, hs[i]);
        i := i + 1;
      }
      assert hs[..replicas] == hs;
      Sort();
    }

    /**
     * `Remove`: kept points slide down in the array being read; the write position never passes the read position.
     */
    method Remove(node: string)
      requires Valid()
      modifies this`count, this`nodes, keys
      ensures Valid() && Abs() == RemoveRing(old(Abs()), node)
    {
      hide Filter, Look;
      ghost var all, kept := keys[..count], [];
      var w := 0;
      assert all[0..] == all;
      for i := 0 to count
        invariant w <= i && count == old(count) && keys == old(keys)
        invariant forall j :: i <= j < count ==> keys[j] == all[j]
        invariant keys[..w] == kept
        invariant Filter(all, old(nodes), node).0 == kept + Filter(all[i..], nodes, node).0
        invariant Filter(all, old(nodes), node).1 == Filter(all[i..], nodes, node).1
      {
        var k := keys[i];
        assert all[i..] == [k] + all[i + 1..];
        FilterStep(k, all[i + 1..], nodes, node);
        if Look(nodes, k) != node {
          keys[w] := k;
          w, kept := w + 1, kept + [k];
        } else {
          nodes := nodes - {k};
        }
      }
      assert all[old(count)..] == [];
      FilterEmpty(nodes, node);
      count := w;
    }

    /** `Get`: binary search for the first point not below the key's hash, wrapping to the first point. */
    method Get(key: string) returns (node: string)
      requires Valid() && Sorted(Abs().keys)
      ensures Owns(Abs(), hash(key), node)
    {
      hide Sorted;
      if count == 0 {
        return "";
      }
      var k := hash(key);
      var i := Search(k);
      if i == count {
        i := 0;
      }
      FirstIsSuccessor(keys[..count], k, i);
      node := Look(nodes, keys[i]);
      assert keys[i] == Abs().keys[i];
    }

    /** `sort.Search` for the first point at or above `k`. */
    method Search(k: Point) returns (i: nat)
      requires Valid() && Sorted(Abs().keys)
      ensures i <= count
      ensures forall j :: 0 <= j < i ==> keys[j] < k
      ensures forall j :: i <= j < count ==> keys[j] >= k
    {
      ghost var s := keys[..count];
      i := 0;
      var j := count;
      while i < j
        invariant i <= j <= count
        invariant forall h :: 0 <= h < i ==> s[h] < k
        invariant forall h :: j <= h < count ==> s[h] >= k
      {
        var h := (i + j) / 2;
        assert keys[h] == s[h];
        if keys[h] >= k {
          j := h;
        } else {
          i := h + 1;
        }
      }
      forall h | 0 <= h < count ensures keys[h] == s[h] {}
    }
  }

  lemma SortedLength(s: seq<Point>)
    ensures |SortKeys(s)| == |s|
  {
    SortKeysOk(s);
    assert |multiset(s)| == |s| && |multiset(SortKeys(s))| == |SortKeys(s)|;
  }

  lemma AssignNone(nodes: map<Point, string>, node: string)
    ensures Assign(nodes, [], node) == nodes
  {
  }

  lemma LabelOf(node: string, i: nat)
    ensures VnodeLabel(node, i) == node + "#vn#" + Itoa(i)
  {
  }

  /** Of a sorted ring, the first point not below `k` is its cyclic successor, or the first of all when none is. */
  lemma FirstIsSuccessor(s: seq<Point>, k: Point, i: nat)
    requires Sorted(s) && i < |s|
    requires (i == 0 && forall h :: 0 <= h < |s| ==> s[h] < k)
             || ((forall h :: 0 <= h < i ==> s[h] < k) && forall h :: i <= h < |s| ==> s[h] >= k)
    ensures IsSuccessor(s, k, s[i])
  {
    forall u | u in s ensures Distance(k, s[i]) <= Distance(k, u) {
      var h :| 0 <= h < |s| && s[h] == u;
      DistanceCases(k, s[i]);
      DistanceCases(k, s[h]);
    }
  }

  /** `itoa`: digits fill a 20-slot buffer from its end. */
  method ToDecimal(n: int) returns (s: string)
    requires n < INT_LIMIT
    ensures s == Itoa(n)
  {
    if n == 0 {
      return "0";
    }
    hide Decimal, Pow10, Digit, Written;
    var b := new char[20](_ => '0');
    var p: nat, i := 20, n;
    ghost var digits := "";
    NothingWritten(n, digits);
    while i > 0
      invariant p <= b.Length && b[p..] == digits && Written(n, i, p, digits)
      decreases i
    {
      WriteDigit(n, i, p, digits);
      var d, i' := LastDigit(i);
      p := p - 1;
      Put(b, p, d);
      digits, i := [d] + digits, i';
    }
    AllWritten(n, i, p, digits);
    s := b[p..];
  }

  /** Splitting off the last digit. */
  method LastDigit(i: nat) returns (d: char, rest: nat)
    requires i > 0
    ensures d == Digit(i % 10) && rest == i / 10 < i
  {
    d, rest := Digit(i % 10), i / 10;
  }

  /** One more character in front of those already in place. */
  method Put(b: array<char>, p: nat, c: char)
    requires p < b.Length
    modifies b
    ensures b[p..] == [c] + old(b[p + 1..])
  {
    b[p] := c;
  }

  /** The digits written so far are the last ones of the numeral, and the rest has room in `p` slots. */
  predicate Written(n: int, i: int, p: nat, digits: string) {
    (if i > 0 then Itoa(n) == Decimal(i) + digits else Itoa(n) == digits) && i < Pow10(p)
  }

  lemma NothingWritten(n: int, digits: string)
    requires n < INT_LIMIT && n != 0 && digits == ""
    ensures Written(n, n, 20, digits)
  {
    hide Decimal, Pow10;
    EnoughDigits();
    if n > 0 { assert Decimal(n) + digits == Decimal(n); }
  }

  lemma WriteDigit(n: int, i: int, p: nat, digits: string)
    requires i > 0 && Written(n, i, p, digits)
    ensures p > 0 && Written(n, i / 10, p - 1, [Digit(i % 10)] + digits)
  {
    hide Decimal, Pow10;
    DecimalStep(i);
    PowStep(p, i);
    if i >= 10 {
      assert Decimal(i / 10) + [Digit(i % 10)] + digits == Decimal(i / 10) + ([Digit(i % 10)] + digits);
    }
  }

  lemma AllWritten(n: int, i: int, p: nat, digits: string)
    requires i <= 0 && Written(n, i, p, digits)
    ensures digits == Itoa(n)
  {
  }

  function Pow10(p: nat): nat {
    if p == 0 then 1 else 10 * Pow10(p - 1)
  }

  lemma PowStep(p: nat, i: int)
    requires 0 < i < Pow10(p)
    ensures p > 0 && i / 10 < Pow10(p - 1)
  {
  }

  /** Twenty decimal places hold every 64-bit integer. */
  lemma EnoughDigits()
    ensures INT_LIMIT <= Pow10(20)
  {
    assert Pow10(4) == 10 * Pow10(3) == 100 * Pow10(2) == 10_000;
    assert Pow10(8) == 10 * Pow10(7) == 100 * Pow10(6) == 1_000 * Pow10(5) == 1_0000_0000;
    assert Pow10(12) == 10 * Pow10(11) == 100 * Pow10(10) == 1_000 * Pow10(9) == 1_0000_0000_0000;
    assert Pow10(16) == 10 * Pow10(15) == 100 * Pow10(14) == 1_000 * Pow10(13) == 1_0000_0000_0000_0000;
    assert Pow10(20) == 10 * Pow10(19) == 100 * Pow10(18) == 1_000 * Pow10(17);
  }
}
