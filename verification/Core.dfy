/** Values, expressions and atoms (internal/core/types.go). */
module Core {
  datatype Option<+T> = None | Some(value: T)

  /**
   One symbol of a hashed byte stream: a single octet, a fixed-width header word,
   or the 32 octets of a digest. Words and digests are fixed-width, so keeping each as one
   symbol keeps the layout of the stream.
   */
  datatype Symbol = Octet(c: char) | Word(n: int) | Digest(h: Hash)

  /** SHA3-256 as an ideal hash: a digest is as good as the stream it was computed from. */
  datatype Hash = Sha3(preimage: seq<Symbol>)

  /** `Nil` is Go's nil interface; floats and vectors are not modelled. */
  datatype Value =
    | Nil
    | VNull
    | VBool(b: bool)
    | VInt(n: int)
    | VString(s: string)
    | VBytes(bs: string)
    | VArray(elems: seq<Value>)
    | VRecord(fields: map<string, Value>)

  /** `EOpaque` stands for EEmbed and EResonate, which no evaluation rule accepts. */
  datatype Expr =
    | EConst(v: Value)
    | EFieldAccess(field: string, source: Expr)
    | ECompose(atoms: seq<Hash>)
    | EApply(fn: Expr, arg: Expr)
    | EOpaque(code: seq<Symbol>)

  /** A `time.Time` deadline: the zero time never expires. */
  datatype Deadline = Never | At(t: int)

  datatype Atom = Atom(hash: Hash, expr: Expr, past: seq<Hash>, depth: nat, clock: nat,
                       phys: int, nonce: int, path: string, expires: Deadline)

  predicate Expired(a: Atom, now: int) {
    a.expires.At? && a.expires.t < now
  }

  // ---------------------------------------------------------------- sorted record keys

  predicate Leq(a: string, b: string) {
    a == [] || (b != [] && (a[0] < b[0] || (a[0] == b[0] && Leq(a[1..], b[1..]))))
  }

  lemma LeqTotal(a: string, b: string)
    ensures Leq(a, b) || Leq(b, a)
  {
  }

  lemma LeqAntisymmetric(a: string, b: string)
    requires Leq(a, b) && Leq(b, a)
    ensures a == b
  {
    if a != [] {
      LeqAntisymmetric(a[1..], b[1..]);
      assert a == [a[0]] + a[1..] && b == [b[0]] + b[1..];
    }
  }

  lemma LeqTransitive(a: string, b: string, c: string)
    requires Leq(a, b) && Leq(b, c)
    ensures Leq(a, c)
  {
  }

  predicate IsLeast(k: string, keys: set<string>) {
    k in keys && forall j <- keys :: Leq(k, j)
  }

  lemma LeastExists(keys: set<string>)
    requires keys != {}
    ensures exists k :: IsLeast(k, keys)
  {
    var x :| x in keys;
    var rest := keys - {x};
    if rest == {} {
      LeqTotal(x, x);
      assert keys == {x};
      assert IsLeast(x, keys);
    } else {
      LeastExists(rest);
      var m :| IsLeast(m, rest);
      LeqTotal(x, m);
      LeqTotal(x, x);
      var k := if Leq(x, m) then x else m;
      forall j | j in keys
        ensures Leq(k, j)
      {
        if j != x && k == x {
          LeqTransitive(x, m, j);
        }
      }
      assert IsLeast(k, keys);
    }
  }

  /** The keys of a record in `sort.Strings` order. */
  function SortedKeys(keys: set<string>): (r: seq<string>)
    ensures forall k :: k in r <==> k in keys
  {
    if keys == {} then [] else
      LeastExists(keys);
      assert forall k, j :: IsLeast(k, keys) && IsLeast(j, keys) ==> k == j by {
        forall k, j | IsLeast(k, keys) && IsLeast(j, keys) ensures k == j {
          LeqAntisymmetric(k, j);
        }
      }
      var k :| IsLeast(k, keys);
      [k] + SortedKeys(keys - {k})
  }

  // ---------------------------------------------------------------- serialization

  function Octets(s: string): (r: seq<Symbol>)
    ensures |r| == |s| && forall i :: 0 <= i < |s| ==> r[i] == Octet(s[i])
  {
    seq(|s|, i requires 0 <= i < |s| => Octet(s[i]))
  }

  lemma OctetsInjective(s: string, t: string)
    ensures Octets(s) == Octets(t) <==> s == t
  {
    if Octets(s) == Octets(t) {
      assert |s| == |t|;
      forall i | 0 <= i < |s| ensures s[i] == t[i] { assert Octets(s)[i] == Octets(t)[i]; }
      assert s == t;
    }
  }

  /** Eight octets, most significant first, of the two's complement of `n`. */
  function BigEndian64(n: int): seq<Symbol> {
    var u := n % 0x1_0000_0000_0000_0000;
    Octets([(u / 0x100_0000_0000_0000) as char, (u / 0x1_0000_0000_0000 % 0x100) as char,
            (u / 0x100_0000_0000 % 0x100) as char, (u / 0x1_0000_0000 % 0x100) as char,
            (u / 0x100_0000 % 0x100) as char, (u / 0x1_0000 % 0x100) as char,
            (u / 0x100 % 0x100) as char, (u % 0x100) as char])
  }

  function Serialize(v: Value): seq<Symbol>
    decreases v
  {
    match v
    case Nil => []
    case VNull => [Octet('\0')]
    case VBool(b) => [Octet(if b then 1 as char else 2 as char)]
    case VInt(n) => BigEndian64(n)
    case VString(s) => Octets(s)
    case VBytes(s) => Octets(s)
    case VArray(elems) => SerializeAll(v, elems)
    case VRecord(fields) => SerializeFields(v, SortedKeys(fields.Keys))
  }

  function SerializeAll(ghost whole: Value, elems: seq<Value>): seq<Symbol>
    requires forall i :: 0 <= i < |elems| ==> elems[i] < whole
    decreases whole, |elems|
  {
    if elems == [] then [] else Serialize(elems[0]) + SerializeAll(whole, elems[1..])
  }

  function SerializeFields(whole: Value, keys: seq<string>): seq<Symbol>
    requires whole.VRecord? && forall k <- keys :: k in whole.fields
    decreases whole, |keys|
  {
    if keys == [] then [] else
      Octets(keys[0]) + Serialize(whole.fields[keys[0]]) + SerializeFields(whole, keys[1..])
  }

  function Digests(hs: seq<Hash>): (r: seq<Symbol>)
    ensures |r| == |hs| && forall i :: 0 <= i < |hs| ==> r[i] == Digest(hs[i])
  {
    seq(|hs|, i requires 0 <= i < |hs| => Digest(hs[i]))
  }

  function SerializeExpr(e: Expr): seq<Symbol> {
    match e
    case EConst(v) => [Octet('\0')] + Serialize(v)
    case EFieldAccess(f, src) => [Octet(1 as char)] + Octets(f) + SerializeExpr(src)
    case ECompose(atoms) => [Octet(3 as char)] + Digests(atoms)
    case EApply(f, a) => [Octet(4 as char)] + SerializeExpr(f) + SerializeExpr(a)
    case EOpaque(code) => code
  }

  function ExprHash(e: Expr): Hash {
    Sha3(SerializeExpr(e))
  }

  function Nanos(d: Deadline): Symbol {
    match d
    case Never => Octet('\0')
    case At(t) => Word(t)
  }

  function Header(clock: nat, phys: int, expires: Deadline, nonce: int, past: nat): seq<Symbol> {
    [Word(clock), Word(phys), Nanos(expires), Word(nonce), Word(0), Word(past)]
  }

  /** `CausalAtom.ComputeHash`. */
  function ComputeHash(expr: Expr, clock: nat, phys: int, expires: Deadline, nonce: int, past: seq<Hash>): Hash {
    Sha3(SerializeExpr(expr) + Header(clock, phys, expires, nonce, |past|) + Digests(past))
  }

  /** An atom as `AppendAtom` mints it: the hash is the one computed from its fields. */
  predicate Genuine(a: Atom) {
    a.hash == ComputeHash(a.expr, a.clock, a.phys, a.expires, a.nonce, a.past)
  }

  /**
   Whatever the expressions are, equal atom hashes force equal clocks: the header has a fixed
   width and only digests follow it. Distinct clocks therefore give distinct hashes, although
   `Serialize` itself is not injective.
   */
  lemma EqualHashEqualClock(a: Atom, b: Atom)
    requires Genuine(a) && Genuine(b) && a.hash == b.hash
    ensures a.clock == b.clock && a.phys == b.phys && a.past == b.past
  {
    hide SerializeExpr;
    var x := SerializeExpr(a.expr) + Header(a.clock, a.phys, a.expires, a.nonce, |a.past|) + Digests(a.past);
    var y := SerializeExpr(b.expr) + Header(b.clock, b.phys, b.expires, b.nonce, |b.past|) + Digests(b.past);
    assert x == y;
    var n := |x|;
    assert x[n - |a.past| - 1] == Word(|a.past|);
    assert y[n - |b.past| - 1] == Word(|b.past|);
    assert forall i :: n - |a.past| <= i < n ==> x[i].Digest?;
    assert forall i :: n - |b.past| <= i < n ==> y[i].Digest?;
    var k := n - |a.past| - 6;
    assert x[k] == Word(a.clock) && y[k] == Word(b.clock);
    assert x[k + 1] == Word(a.phys) && y[k + 1] == Word(b.phys);
    forall i | 0 <= i < |a.past|
      ensures a.past[i] == b.past[i]
    {
      assert x[n - |a.past| + i] == Digest(a.past[i]);
      assert y[n - |a.past| + i] == Digest(b.past[i]);
    }
  }

  /** Atom hashes are equal exactly when bytes, clock, time, deadline, nonce and parents are. */
  lemma EqualHashIff(a: Atom, b: Atom)
    requires Genuine(a) && Genuine(b)
    ensures a.hash == b.hash <==>
            && SerializeExpr(a.expr) == SerializeExpr(b.expr) && a.clock == b.clock && a.phys == b.phys
            && a.expires == b.expires && a.nonce == b.nonce && a.past == b.past
  {
    hide SerializeExpr;
    if a.hash == b.hash {
      EqualHashEqualClock(a, b);
      var x, y := SerializeExpr(a.expr), SerializeExpr(b.expr);
      var g, h := Header(a.clock, a.phys, a.expires, a.nonce, |a.past|), Header(b.clock, b.phys, b.expires, b.nonce, |b.past|);
      var z := Digests(a.past);
      assert x + g + z == y + h + z;
      assert |x| == |y|;
      assert (x + g + z)[..|x|] == x && (y + h + z)[..|x|] == y;
      assert (x + g + z)[|x| + 2] == g[2] && (y + h + z)[|x| + 2] == h[2];
      assert (x + g + z)[|x| + 3] == g[3] && (y + h + z)[|x| + 3] == h[3];
    }
  }

  /** `Serialize` is not injective across types: the two constants cannot be told apart by their bytes. */
  lemma SerializeConfusesNullAndZeroByte()
    ensures Serialize(VNull) == Serialize(VString("\0")) && VNull != VString("\0")
  {
    assert Octets("\0") == [Octet('\0')];
  }

  // ---------------------------------------------------------------- scanning a map in any order

  /** `buf` holds, each once, what was found among the keys no longer `todo`. */
  ghost predicate Scanned(buf: seq<string>, found: set<string>, todo: set<string>) {
    (forall p :: p in buf <==> p in found && p !in todo) && |buf| == |found - todo|
  }

  lemma ScanStart(found: set<string>, todo: set<string>)
    requires found <= todo
    ensures Scanned([], found, todo)
  {
    assert found - todo == {};
  }

  lemma ScanStep(buf: seq<string>, found: set<string>, todo: set<string>, p: string)
    requires Scanned(buf, found, todo) && p in todo
    ensures Scanned(if p in found then buf + [p] else buf, found, todo - {p})
  {
    if p in found {
      assert found - (todo - {p}) == (found - todo) + {p};
    } else {
      assert found - (todo - {p}) == found - todo;
    }
  }

  lemma ScanEnd(buf: seq<string>, found: set<string>)
    requires Scanned(buf, found, {})
    ensures (forall p :: p in buf <==> p in found) && |buf| == |found|
  {
    assert found - {} == found;
  }
}
