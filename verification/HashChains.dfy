/** The bucket chains of a hash table seen as a value: a sequence of chains of nodes.

    The three fields that identify a node never change after the node is built, so everything here is
    independent of the heap. The whole table is read as one sequence, `Flat`, the concatenation of the chains
    in bucket order; the scan cursor of the table is an index into it, and the bindings of the table are
    the finite map it spells out. */
module HashChains {
  import opened ScanSpec
  import opened SeqFacts

  /** A non-null data pointer. */
  type Datum = p: int | p > 0 witness 1

  /** The memory of a key. Two of them are equal when they have the same size and the same bytes. */
  type KeyMem(==, !new)

  /** The two parts of a key: the hashed integer and the key memory. */
  type Key = (int, KeyMem)

  class HashTblEnt {
    const key: int
    const keyP: KeyMem
    const data: Datum
    var postion: nat
    var next: HashTblEnt?

    constructor (key: int, keyP: KeyMem, data: Datum)
      ensures this.key == key && this.keyP == keyP && this.data == data
      ensures postion == 0 && next == null
    {
      this.key, this.keyP, this.data := key, keyP, data;
      postion, next := 0, null;
    }

    function Id(): Key {
      (key, keyP)
    }
  }

  type Chain = seq<HashTblEnt>

  function Flat(cs: seq<Chain>): Chain {
    if cs == [] then [] else Flat(cs[..|cs| - 1]) + cs[|cs| - 1]
  }

  /** Always true: mentioning a pair of positions lets the verifier compare the keys found there. */
  ghost predicate Pair(i: int, j: int) {
    true
  }

  ghost predicate DistinctKeys(c: Chain) {
    forall i, j {:trigger Pair(i, j)} :: 0 <= i < j < |c| && Pair(i, j) ==> c[i].Id() != c[j].Id()
  }

  lemma Differ(c: Chain, i: nat, j: nat)
    requires DistinctKeys(c) && i < |c| && j < |c| && i != j
    ensures c[i].Id() != c[j].Id()
  {
    assert Pair(i, j) && Pair(j, i);
  }

  /** The remainder of `key` by `n`, by repeated subtraction. */
  function Bucket(key: nat, n: nat): (b: nat)
    requires n > 0
    ensures b < n
  {
    if key < n then key else Bucket(key - n, n)
  }

  lemma {:induction false} BucketHasQuotient(key: nat, n: nat) returns (q: nat)
    requires n > 0
    ensures key == q * n + Bucket(key, n)
  {
    if key < n {
      q := 0;
    } else {
      q := BucketHasQuotient(key - n, n);
      q := q + 1;
    }
  }

  lemma AtLeastOnce(d: int, n: nat)
    requires d >= 1
    ensures d * n >= n
  {
    assert d * n == (d - 1) * n + n;
  }

  lemma QuotientUnique(n: nat, q: nat, r: nat, k: nat, s: nat)
    requires r < n && s < n && q * n + r == k * n + s
    ensures r == s
  {
    if q > k {
      AtLeastOnce(q - k, n);
    } else if q < k {
      AtLeastOnce(k - q, n);
    }
  }

  lemma BucketIsRemainder(key: nat, n: nat)
    requires n > 0
    ensures Bucket(key, n) == key % n
  {
    var q := BucketHasQuotient(key, n);
    QuotientUnique(n, q, Bucket(key, n), key / n, key % n);
  }

  /** Chain `i` of `n`: no key twice, and every node hangs in the bucket its key selects. */
  ghost predicate ProperChain(c: Chain, i: int, n: nat) {
    && n > 0 && DistinctKeys(c)
    && forall j {:trigger c[j].key} :: 0 <= j < |c| ==> c[j].key >= 0 && Bucket(c[j].key, n) == i
  }

  ghost predicate ProperUpTo(cs: seq<Chain>, k: nat)
    requires k <= |cs|
  {
    k == 0 || (ProperUpTo(cs, k - 1) && ProperChain(cs[k - 1], k - 1, |cs|))
  }

  ghost predicate Proper(cs: seq<Chain>) {
    ProperUpTo(cs, |cs|)
  }

  lemma {:induction false} ProperUpToAt(cs: seq<Chain>, k: nat, i: nat)
    requires i < k <= |cs| && ProperUpTo(cs, k)
    ensures ProperChain(cs[i], i, |cs|)
  {
    if i < k - 1 {
      ProperUpToAt(cs, k - 1, i);
    }
  }

  lemma ProperAt(cs: seq<Chain>, i: nat)
    requires Proper(cs) && i < |cs|
    ensures ProperChain(cs[i], i, |cs|)
  {
    ProperUpToAt(cs, |cs|, i);
  }

  lemma {:induction false} ProperIf(cs: seq<Chain>, k: nat)
    requires k <= |cs| && forall i :: 0 <= i < |cs| ==> ProperChain(cs[i], i, |cs|)
    ensures ProperUpTo(cs, k)
  {
    if k > 0 {
      ProperIf(cs, k - 1);
    }
  }

  lemma {:induction false} FlatSplit(cs: seq<Chain>, i: nat)
    requires i <= |cs|
    ensures Flat(cs) == Flat(cs[..i]) + Flat(cs[i..])
    decreases |cs| - i
  {
    if i == |cs| {
      assert cs[..i] == cs && cs[i..] == [];
    } else if i == 0 {
      assert cs[i..] == cs && cs[..i] == [];
    } else {
      FlatSplit(cs, i + 1);
      assert cs[..i + 1][..i] == cs[..i];
      FlatHead(cs[i..]);
      assert cs[i..][1..] == cs[i + 1..];
    }
  }

  lemma {:induction false} FlatHead(cs: seq<Chain>)
    requires cs != []
    ensures Flat(cs) == cs[0] + Flat(cs[1..])
    decreases |cs|
  {
    var front, tail := cs[..|cs| - 1], cs[1..];
    if |cs| > 1 {
      FlatHead(front);
      assert front[1..] == tail[..|tail| - 1];
      assert Flat(cs) == cs[0] + Flat(front[1..]) + cs[|cs| - 1];
      assert Flat(tail) == Flat(front[1..]) + cs[|cs| - 1];
    } else {
      assert front == [] && tail == [];
    }
  }

  /** One chain stands in `Flat` between the chains before it and the chains after it. */
  lemma FlatAround(cs: seq<Chain>, i: nat)
    requires i < |cs|
    ensures Flat(cs[..i + 1]) == Flat(cs[..i]) + cs[i]
    ensures Flat(cs) == Flat(cs[..i]) + cs[i] + Flat(cs[i + 1..])
  {
    FlatSplit(cs, i + 1);
    assert cs[..i + 1][..i] == cs[..i];
  }

  /** Replacing one chain replaces exactly its segment of `Flat`. */
  lemma FlatUpdate(cs: seq<Chain>, i: nat, c: Chain)
    requires i < |cs|
    ensures Flat(cs[i := c]) == Flat(cs[..i]) + c + Flat(cs[i + 1..])
  {
    var ds := cs[i := c];
    FlatAround(ds, i);
    assert ds[..i] == cs[..i] && ds[i + 1..] == cs[i + 1..];
  }

  lemma {:induction false} FlatLocate(cs: seq<Chain>, a: nat) returns (i: nat, j: nat)
    requires a < |Flat(cs)|
    ensures i < |cs| && j < |cs[i]| && Flat(cs)[a] == cs[i][j] && a == |Flat(cs[..i])| + j
    decreases |cs|
  {
    var n := |cs| - 1;
    var front := cs[..n];
    if a < |Flat(front)| {
      i, j := FlatLocate(front, a);
      assert front[..i] == cs[..i];
    } else {
      i, j := n, a - |Flat(front)|;
    }
  }

  lemma FlatAt(cs: seq<Chain>, i: nat, j: nat)
    requires i < |cs| && j < |cs[i]|
    ensures |Flat(cs[..i])| + j < |Flat(cs)| && Flat(cs)[|Flat(cs[..i])| + j] == cs[i][j]
  {
    FlatAround(cs, i);
  }

  lemma {:induction false} FlatMonotone(cs: seq<Chain>, i: nat, k: nat)
    requires i <= k <= |cs|
    ensures |Flat(cs[..i])| <= |Flat(cs[..k])|
    ensures (forall m :: i <= m < k ==> cs[m] == []) ==> Flat(cs[..i]) == Flat(cs[..k])
    decreases k
  {
    if i < k {
      FlatMonotone(cs, i, k - 1);
      assert cs[..k][..k - 1] == cs[..k - 1];
    }
  }

  /** No two positions of a proper table hold the same key, hence no two hold the same node. */
  lemma FlatDistinct(cs: seq<Chain>)
    requires Proper(cs)
    ensures DistinctKeys(Flat(cs))
  {
    forall a, b | 0 <= a < b < |Flat(cs)| && Pair(a, b)
      ensures Flat(cs)[a].Id() != Flat(cs)[b].Id()
    {
      var i, j := FlatLocate(cs, a);
      var k, m := FlatLocate(cs, b);
      ProperAt(cs, i);
      ProperAt(cs, k);
      assert cs[i][j].key >= 0 && cs[k][m].key >= 0;
      if i == k {
        Differ(cs[i], j, m);
      }
    }
  }

  /** The bindings of a table, read off its nodes. */
  function Bindings(c: Chain): map<Key, Datum> {
    if c == [] then map[]
    else
      var last := c[|c| - 1];
      Bindings(c[..|c| - 1])[last.Id() := last.data]
  }

  lemma {:induction false} Find(c: Chain, k: Key) returns (i: nat)
    requires k in Bindings(c)
    ensures i < |c| && c[i].Id() == k && Bindings(c)[k] == c[i].data
    decreases |c|
  {
    if k == c[|c| - 1].Id() {
      i := |c| - 1;
    } else {
      i := Find(c[..|c| - 1], k);
    }
  }

  lemma {:induction false} Bound(c: Chain, i: nat)
    requires DistinctKeys(c) && i < |c|
    ensures c[i].Id() in Bindings(c) && Bindings(c)[c[i].Id()] == c[i].data
    decreases |c|
  {
    if i < |c| - 1 {
      Bound(c[..|c| - 1], i);
      Differ(c, i, |c| - 1);
    }
  }

  lemma DistinctWithout(c: Chain, g: nat)
    requires DistinctKeys(c) && g < |c|
    ensures DistinctKeys(Without(c, g))
    ensures c[g].Id() !in Bindings(Without(c, g))
  {
    var d := Without(c, g);
    forall a, b | 0 <= a < b < |d| && Pair(a, b)
      ensures d[a].Id() != d[b].Id()
    {
      Differ(c, if a < g then a else a + 1, if b < g then b else b + 1);
    }
    if c[g].Id() in Bindings(d) {
      var i := Find(d, c[g].Id());
      Differ(c, g, if i < g then i else i + 1);
    }
  }

  lemma StaysBound(c: Chain, g: nat, k: Key)
    requires DistinctKeys(c) && g < |c| && k in Bindings(c) && k != c[g].Id()
    ensures k in Bindings(Without(c, g)) && Bindings(Without(c, g))[k] == Bindings(c)[k]
  {
    var i := Find(c, k);
    DistinctWithout(c, g);
    Bound(Without(c, g), if i < g then i else i - 1);
  }

  lemma WasBound(c: Chain, g: nat, k: Key)
    requires DistinctKeys(c) && g < |c| && k in Bindings(Without(c, g))
    ensures k in Bindings(c)
  {
    var i := Find(Without(c, g), k);
    var t := if i < g then i else i + 1;
    assert k == c[t].Id();
    Bound(c, t);
  }

  lemma MinusOne<K, V>(m: map<K, V>, n: map<K, V>, k: K)
    requires k in m && k !in n
    requires forall x :: x in m && x != k ==> x in n && n[x] == m[x]
    requires forall x :: x in n ==> x in m
    ensures n == m - {k} && m == n[k := m[k]]
  {
  }

  lemma BindingsWithout(c: Chain, g: nat)
    requires DistinctKeys(c) && g < |c|
    ensures Bindings(Without(c, g)) == Bindings(c) - {c[g].Id()}
    ensures Bindings(c) == Bindings(Without(c, g))[c[g].Id() := c[g].data]
  {
    DistinctWithout(c, g);
    Bound(c, g);
    forall k | k in Bindings(c) && k != c[g].Id()
      ensures k in Bindings(Without(c, g)) && Bindings(Without(c, g))[k] == Bindings(c)[k]
    {
      StaysBound(c, g, k);
    }
    forall k | k in Bindings(Without(c, g))
      ensures k in Bindings(c)
    {
      WasBound(c, g, k);
    }
    MinusOne(Bindings(c), Bindings(Without(c, g)), c[g].Id());
  }

  /** A key is bound in the table only by the chain it selects. */
  lemma BoundInChain(cs: seq<Chain>, k: Key) returns (j: nat)
    requires Proper(cs) && k in Bindings(Flat(cs))
    ensures cs != [] && k.0 >= 0 && j < |cs[Bucket(k.0, |cs|)]| && cs[Bucket(k.0, |cs|)][j].Id() == k
  {
    var a := Find(Flat(cs), k);
    var i;
    i, j := FlatLocate(cs, a);
    ProperAt(cs, i);
    assert cs[i][j].key == k.0;
  }

  lemma NegativeUnbound(cs: seq<Chain>, k: Key)
    requires Proper(cs) && k.0 < 0
    ensures k !in Bindings(Flat(cs))
  {
    if k in Bindings(Flat(cs)) {
      var j := BoundInChain(cs, k);
    }
  }

  lemma ChainBound(cs: seq<Chain>, i: nat, j: nat)
    requires Proper(cs) && i < |cs| && j < |cs[i]|
    ensures cs[i][j].Id() in Bindings(Flat(cs)) && Bindings(Flat(cs))[cs[i][j].Id()] == cs[i][j].data
  {
    FlatDistinct(cs);
    FlatAt(cs, i, j);
    Bound(Flat(cs), |Flat(cs[..i])| + j);
  }

  /** A node whose key is not bound hangs nowhere in the table. */
  lemma UnboundNotHung(cs: seq<Chain>, e: HashTblEnt)
    requires Proper(cs) && e.Id() !in Bindings(Flat(cs))
    ensures forall i, j :: 0 <= i < |cs| && 0 <= j < |cs[i]| ==> cs[i][j] != e
  {
    forall i: nat, j: nat | i < |cs| && j < |cs[i]|
      ensures cs[i][j] != e
    {
      ChainBound(cs, i, j);
    }
  }

  function InsertAt(cs: seq<Chain>, w: nat, e: HashTblEnt): seq<Chain>
    requires w < |cs|
  {
    cs[w := [e] + cs[w]]
  }

  lemma Splice(a: Chain, c: Chain, b: Chain, e: HashTblEnt)
    ensures var f := a + c + b; a + ([e] + c) + b == f[..|a|] + [e] + f[|a|..]
  {
    var f := a + c + b;
    assert f[..|a|] == a;
    assert f[|a|..] == c + b;
  }

  lemma InsertFlat(cs: seq<Chain>, w: nat, e: HashTblEnt)
    requires w < |cs|
    ensures var g := |Flat(cs[..w])|;
            g <= |Flat(cs)| && Flat(InsertAt(cs, w, e)) == Flat(cs)[..g] + [e] + Flat(cs)[g..]
  {
    FlatAround(cs, w);
    FlatUpdate(cs, w, [e] + cs[w]);
    Splice(Flat(cs[..w]), cs[w], Flat(cs[w + 1..]), e);
  }

  lemma InsertPlaced(cs: seq<Chain>, e: HashTblEnt)
    requires Proper(cs) && cs != [] && e.key >= 0
    requires forall j {:trigger cs[Bucket(e.key, |cs|)][j]} ::
      0 <= j < |cs[Bucket(e.key, |cs|)]| ==> cs[Bucket(e.key, |cs|)][j].Id() != e.Id()
    ensures Proper(InsertAt(cs, Bucket(e.key, |cs|), e))
  {
    var w := Bucket(e.key, |cs|);
    var ds: seq<Chain> := InsertAt(cs, w, e);
    forall i | 0 <= i < |ds|
      ensures ProperChain(ds[i], i, |ds|)
    {
      ProperAt(cs, i);
      if i == w {
        FrontProper(cs[w], e, w, |cs|);
      }
    }
    ProperIf(ds, |ds|);
  }

  lemma FrontProper(c: Chain, e: HashTblEnt, i: int, n: nat)
    requires ProperChain(c, i, n) && e.key >= 0 && Bucket(e.key, n) == i
    requires forall j {:trigger c[j]} :: 0 <= j < |c| ==> c[j].Id() != e.Id()
    ensures ProperChain([e] + c, i, n)
  {
    var d := [e] + c;
    assert forall j :: 0 < j < |d| ==> d[j] == c[j - 1];
    forall a, b | 0 <= a < b < |d| && Pair(a, b)
      ensures d[a].Id() != d[b].Id()
    {
      if a > 0 {
        Differ(c, a - 1, b - 1);
      }
    }
  }

  lemma DistinctWith(c: Chain, g: nat)
    requires g < |c| && DistinctKeys(Without(c, g)) && c[g].Id() !in Bindings(Without(c, g))
    ensures DistinctKeys(c)
  {
    var d := Without(c, g);
    forall a, b | 0 <= a < b < |c| && Pair(a, b)
      ensures c[a].Id() != c[b].Id()
    {
      if a == g {
        Bound(d, b - 1);
        assert d[b - 1] == c[b];
      } else if b == g {
        Bound(d, a);
        assert d[a] == c[a];
      } else {
        Differ(d, if a < g then a else a - 1, if b < g then b else b - 1);
      }
    }
  }

  lemma WithThenWithout(c: Chain, g: nat, e: HashTblEnt)
    requires g <= |c|
    ensures var d := c[..g] + [e] + c[g..]; |d| == |c| + 1 && d[g] == e && Without(d, g) == c
  {
  }

  lemma BindingsWith(c: Chain, g: nat, e: HashTblEnt)
    requires DistinctKeys(c) && g <= |c| && e.Id() !in Bindings(c)
    ensures Bindings(c[..g] + [e] + c[g..]) == Bindings(c)[e.Id() := e.data]
  {
    var d := c[..g] + [e] + c[g..];
    WithThenWithout(c, g, e);
    DistinctWith(d, g);
    BindingsWithout(d, g);
  }

  /** Hanging a new node at the head of the chain its key selects. */
  lemma InsertKeepsProper(cs: seq<Chain>, e: HashTblEnt)
    requires Proper(cs) && cs != [] && e.key >= 0 && e.Id() !in Bindings(Flat(cs))
    ensures Proper(InsertAt(cs, Bucket(e.key, |cs|), e))
    ensures |Flat(InsertAt(cs, Bucket(e.key, |cs|), e))| == |Flat(cs)| + 1
    ensures Bindings(Flat(InsertAt(cs, Bucket(e.key, |cs|), e))) == Bindings(Flat(cs))[e.Id() := e.data]
  {
    var w := Bucket(e.key, |cs|);
    InsertFlat(cs, w, e);
    forall j: nat | j < |cs[w]|
      ensures cs[w][j].Id() != e.Id()
    {
      ChainBound(cs, w, j);
    }
    InsertPlaced(cs, e);
    FlatDistinct(cs);
    BindingsWith(Flat(cs), |Flat(cs[..w])|, e);
  }

  /** Where chain `i` begins in the flattened table. */
  function Offset(cs: seq<Chain>, i: nat): nat
    requires i <= |cs|
  {
    if i == 0 then 0 else Offset(cs, i - 1) + |cs[i - 1]|
  }

  lemma {:induction false} OffsetIs(cs: seq<Chain>, i: nat)
    requires i <= |cs|
    ensures Offset(cs, i) == |Flat(cs[..i])|
    decreases i
  {
    if i > 0 {
      OffsetIs(cs, i - 1);
      assert cs[..i][..i - 1] == cs[..i - 1];
    }
  }

  lemma OffsetBounded(cs: seq<Chain>, i: nat)
    requires i <= |cs|
    ensures Offset(cs, i) <= |Flat(cs)|
  {
    OffsetIs(cs, i);
    FlatSplit(cs, i);
  }

  /** Chain `i` is a segment of the flattened table. */
  lemma ChainInFlat(cs: seq<Chain>, i: nat)
    requires Proper(cs) && i < |cs|
    ensures Offset(cs, i) + |cs[i]| <= |Flat(cs)|
    ensures forall j :: 0 <= j < |cs[i]| ==> cs[i][j] == Flat(cs)[Offset(cs, i) + j]
  {
    FlatAround(cs, i);
    OffsetIs(cs, i);
  }

  function RemoveAt(cs: seq<Chain>, w: nat, j: nat): seq<Chain>
    requires w < |cs| && j < |cs[w]|
  {
    cs[w := Without(cs[w], j)]
  }

  lemma WithoutInside(a: Chain, c: Chain, b: Chain, j: nat)
    requires j < |c|
    ensures a + Without(c, j) + b == Without(a + c + b, |a| + j)
  {
  }

  lemma RemoveFlat(cs: seq<Chain>, w: nat, j: nat)
    requires w < |cs| && j < |cs[w]|
    ensures Offset(cs, w) + j < |Flat(cs)| && Flat(cs)[Offset(cs, w) + j] == cs[w][j]
    ensures Flat(RemoveAt(cs, w, j)) == Without(Flat(cs), Offset(cs, w) + j)
  {
    FlatAround(cs, w);
    FlatUpdate(cs, w, Without(cs[w], j));
    OffsetIs(cs, w);
    WithoutInside(Flat(cs[..w]), cs[w], Flat(cs[w + 1..]), j);
  }

  lemma RemoveKeepsPlaces(cs: seq<Chain>, w: nat, j: nat)
    requires Proper(cs) && w < |cs| && j < |cs[w]|
    ensures Proper(RemoveAt(cs, w, j))
  {
    var ds: seq<Chain> := RemoveAt(cs, w, j);
    forall i | 0 <= i < |ds|
      ensures ProperChain(ds[i], i, |ds|)
    {
      ProperAt(cs, i);
      if i == w {
        DistinctWithout(cs[w], j);
        assert forall t :: 0 <= t < |ds[w]| ==> ds[w][t] == cs[w][if t < j then t else t + 1];
      }
    }
    ProperIf(ds, |ds|);
  }

  /** Taking one node out of its chain takes one element out of the flattened table and one binding out of
      the map. */
  lemma RemoveKeepsProper(cs: seq<Chain>, w: nat, j: nat)
    requires Proper(cs) && w < |cs| && j < |cs[w]|
    ensures Proper(RemoveAt(cs, w, j))
    ensures |Flat(RemoveAt(cs, w, j))| == |Flat(cs)| - 1
    ensures Bindings(Flat(RemoveAt(cs, w, j))) == Bindings(Flat(cs)) - {cs[w][j].Id()}
  {
    RemoveKeepsPlaces(cs, w, j);
    RemoveFlat(cs, w, j);
    FlatDistinct(cs);
    BindingsWithout(Flat(cs), Offset(cs, w) + j);
  }

  lemma {:induction false} OffsetAfterUpdate(cs: seq<Chain>, w: nat, c: Chain, i: nat)
    requires w < |cs| && i <= |cs|
    ensures Offset(cs[w := c], i) == Offset(cs, i) + if w < i then |c| - |cs[w]| else 0
    decreases i
  {
    if i > 0 {
      OffsetAfterUpdate(cs, w, c, i - 1);
    }
  }

  /** A table of empty chains. */
  lemma EmptyTable(cs: seq<Chain>)
    requires cs != [] && forall i :: 0 <= i < |cs| ==> cs[i] == []
    ensures Proper(cs) && Flat(cs) == []
  {
    ProperIf(cs, |cs|);
    FlatMonotone(cs, 0, |cs|);
    assert cs[..|cs|] == cs && cs[..0] == [];
  }

  /** Two chains have no node in common. */
  lemma NotElsewhere(cs: seq<Chain>, w: nat)
    requires Proper(cs) && w < |cs|
    ensures forall i, t, j :: 0 <= i < |cs| && i != w && 0 <= t < |cs[i]| && 0 <= j < |cs[w]| ==> cs[i][t] != cs[w][j]
  {
    ProperAt(cs, w);
    forall i: nat, t: nat, j: nat | i < |cs| && i != w && t < |cs[i]| && j < |cs[w]|
      ensures cs[i][t] != cs[w][j]
    {
      ProperAt(cs, i);
      assert cs[i][t].key >= 0 && cs[w][j].key >= 0;
    }
  }
}
