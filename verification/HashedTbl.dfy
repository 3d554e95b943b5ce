/** The chained hash table of APPS/baselib/HashedTbl.c, with its resizing, its two-way scan cursor and its
    saved positions, as an object over linked nodes. */
module HashedTable {
  import opened HashChains
  import opened ScanFacts
  import opened ScanSpec
  import PrimeSizes
  import opened SeqFacts

  datatype Status = Good | Bad | Bad1

  /** The element a chain starts with, and the element that follows position `j`. */
  function HeadOf(c: Chain): HashTblEnt? {
    if c == [] then null else c[0]
  }

  function After(c: Chain, j: nat): HashTblEnt? {
    if j + 1 < |c| then c[j + 1] else null
  }

  /** What a scan reports for an entry: its key memory and its data. */
  function Seen(e: Option<HashTblEnt>): Option<(KeyMem, Datum)> {
    if e.None? then None else Some((e.value.keyP, e.value.data))
  }

  /** Where a bound key stands in the flattened table. */
  ghost function Spot(flat: Chain, k: Key): (g: nat)
    requires k in Bindings(flat)
    ensures g < |flat| && flat[g].Id() == k
  {
    SpotExists(flat, k);
    var g: nat :| g < |flat| && flat[g].Id() == k;
    g
  }

  /** The first node of a chain that carries a handle, or the chain's length. */
  function FirstWith(c: Chain, mark: map<HashTblEnt, nat>, h: nat): (j: nat)
    ensures j <= |c|
  {
    if c == [] then 0
    else if c[0] in mark && Handle(mark[c[0]]) == h then 0
    else 1 + FirstWith(c[1..], mark, h)
  }

  lemma {:induction false} FirstWithIs(c: Chain, mark: map<HashTblEnt, nat>, h: nat)
    ensures var j := FirstWith(c, mark, h);
            && (j < |c| ==> c[j] in mark && Handle(mark[c[j]]) == h)
            && forall i :: 0 <= i < j ==> !(c[i] in mark && Handle(mark[c[i]]) == h)
  {
    if c != [] && !(c[0] in mark && Handle(mark[c[0]]) == h) {
      FirstWithIs(c[1..], mark, h);
    }
  }

  // ----- the cursor, as a function of the chains -----

  ghost predicate CursorIn(cs: seq<Chain>, at: int, rest: HashTblEnt?) {
    && 0 <= at <= |cs|
    && (rest != null ==> at > 0 && rest in cs[at - 1])
  }

  ghost function IndexIn(c: Chain, e: HashTblEnt): (j: nat)
    requires e in c
    ensures j < |c| && c[j] == e
  {
    var j: nat :| j < |c| && c[j] == e;
    j
  }

  /** Where the cursor (`at`, `rest`) stands in the flattened table. */
  ghost function Pos(cs: seq<Chain>, at: int, rest: HashTblEnt?): nat
    requires CursorIn(cs, at, rest)
  {
    if rest == null then Offset(cs, at)
    else Offset(cs, at - 1) + IndexIn(cs[at - 1], rest)
  }

  lemma IndexUnique(c: Chain, e: HashTblEnt, j: nat)
    requires DistinctKeys(c) && j < |c| && c[j] == e
    ensures IndexIn(c, e) == j
  {
    if IndexIn(c, e) != j {
      Differ(c, IndexIn(c, e), j);
    }
  }

  /** Every cursor stands within the flattened table, on the node it points to if there is one. */
  lemma CursorRange(cs: seq<Chain>, at: int, rest: HashTblEnt?)
    requires Proper(cs) && CursorIn(cs, at, rest)
    ensures Pos(cs, at, rest) <= |Flat(cs)|
    ensures rest != null ==> Pos(cs, at, rest) < |Flat(cs)| && Flat(cs)[Pos(cs, at, rest)] == rest
  {
    if rest == null {
      OffsetBounded(cs, at);
    } else {
      ChainInFlat(cs, at - 1);
    }
  }

  lemma WholeOffset(cs: seq<Chain>)
    ensures Offset(cs, |cs|) == |Flat(cs)|
  {
    OffsetIs(cs, |cs|);
    assert cs[..|cs|] == cs;
  }

  /** Standing at element `j` of chain `at - 1`, or past that chain's end. */
  lemma PosInChain(cs: seq<Chain>, at: nat, j: nat)
    requires Proper(cs) && 0 < at <= |cs| && j <= |cs[at - 1]|
    ensures var rest := if j < |cs[at - 1]| then cs[at - 1][j] else null;
            CursorIn(cs, at, rest) && Pos(cs, at, rest) == Offset(cs, at - 1) + j
  {
    ProperAt(cs, at - 1);
    if j < |cs[at - 1]| {
      IndexUnique(cs[at - 1], cs[at - 1][j], j);
    }
  }

  lemma {:induction false} OffsetMonotone(cs: seq<Chain>, i: nat, k: nat)
    requires i <= k <= |cs|
    ensures Offset(cs, i) <= Offset(cs, k)
    ensures i < k ==> Offset(cs, i) + |cs[i]| <= Offset(cs, k)
    decreases k
  {
    if i < k {
      OffsetMonotone(cs, i, k - 1);
    }
  }

  lemma SpotExists(flat: Chain, k: Key)
    requires k in Bindings(flat)
    ensures exists g: nat :: g < |flat| && flat[g].Id() == k
  {
    var g := Find(flat, k);
  }

  lemma SpotOf(cs: seq<Chain>, i: nat, j: nat)
    requires Proper(cs) && i < |cs| && j < |cs[i]|
    ensures cs[i][j].Id() in Bindings(Flat(cs)) && Bindings(Flat(cs))[cs[i][j].Id()] == cs[i][j].data
    ensures Spot(Flat(cs), cs[i][j].Id()) == Offset(cs, i) + j
  {
    ChainBound(cs, i, j);
    ChainInFlat(cs, i);
    FlatDistinct(cs);
    var g := Spot(Flat(cs), cs[i][j].Id());
    if g != Offset(cs, i) + j {
      Differ(Flat(cs), g, Offset(cs, i) + j);
    }
  }

  /** Where an entry of the flattened table stands in the chains. */
  lemma Locate(cs: seq<Chain>, k: nat) returns (i: nat, j: nat)
    requires k < |Flat(cs)|
    ensures i < |cs| && j < |cs[i]| && Flat(cs)[k] == cs[i][j] && k == Offset(cs, i) + j
  {
    i, j := FlatLocate(cs, k);
    OffsetIs(cs, i);
  }

  /** `home` says of every entry which chain it is in. */
  ghost predicate AtHome(cs: seq<Chain>, home: map<HashTblEnt, nat>) {
    forall i, j {:trigger cs[i][j]} :: 0 <= i < |cs| && 0 <= j < |cs[i]| ==> cs[i][j] in home && home[cs[i][j]] == i
  }

  /** Searching one bucket is searching the whole table for an entry of that bucket. */
  lemma BackToBucket(cs: seq<Chain>, b: nat, s: Scan<HashTblEnt>, home: map<HashTblEnt, nat>, h: nat)
    requires Proper(cs) && b < |cs| && s.entries == Flat(cs) && AtHome(cs, home)
    ensures var j := FirstWith(cs[b], s.mark, h);
            Offset(cs, b) + j <= |s.entries| &&
            (HolderFrom(s, home, b, h, 0) < |s.entries| <==> j < |cs[b]|) &&
            BackTo(s, home, b, h) == if j < |cs[b]| then GoBack(s, Offset(cs, b) + j) else s.(pos := Offset(cs, b) + j)
  {
    var j := FirstWith(cs[b], s.mark, h);
    FirstWithIs(cs[b], s.mark, h);
    ChainInFlat(cs, b);
    var end := if j < |cs[b]| then Offset(cs, b) + j else |s.entries|;
    forall k: nat | k < end
      ensures !Carries(s, home, b, h, k)
    {
      var i, t := Locate(cs, k);
      if i == b && j < |cs[b]| {
        assert t < j;
      }
    }
    assert j < |cs[b]| ==> s.entries[end] == cs[b][j];
    HolderIs(s, home, b, h, end, 0);
    if j == |cs[b]| {
      PastBucket(cs, b, s, home);
    }
  }

  /** The next entry is in the same bucket exactly when its chain goes on. */
  lemma SameChain(cs: seq<Chain>, home: map<HashTblEnt, nat>, i: nat, j: nat)
    requires Proper(cs) && AtHome(cs, home) && i < |cs| && j < |cs[i]|
    ensures SameBucket(Flat(cs), home, Offset(cs, i) + j) <==> j + 1 < |cs[i]|
    ensures j + 1 < |cs[i]| ==> Offset(cs, i) + j + 1 < |Flat(cs)| && Flat(cs)[Offset(cs, i) + j + 1] == cs[i][j + 1]
  {
    ChainInFlat(cs, i);
    var p := Offset(cs, i) + j;
    assert Flat(cs)[p] == cs[i][j];
    if j + 1 < |cs[i]| {
      assert Flat(cs)[p + 1] == cs[i][j + 1];
    } else if p + 1 < |Flat(cs)| {
      var k, t := Locate(cs, p + 1);
    }
  }

  /** The flattened table is in the order of the buckets. */
  lemma FlatHoused(cs: seq<Chain>, home: map<HashTblEnt, nat>)
    requires AtHome(cs, home)
    ensures Housed(Flat(cs), home)
  {
    var es := Flat(cs);
    forall p {:trigger es[p]} | 0 <= p < |es|
      ensures es[p] in home
    {
      var i, j := Locate(cs, p);
    }
    forall p, q {:trigger es[p], es[q]} | 0 <= p < q < |es|
      ensures home[es[p]] <= home[es[q]]
    {
      var i, j := Locate(cs, p);
      var k, t := Locate(cs, q);
      if k < i {
        OffsetMonotone(cs, k, i);
      }
    }
  }

  lemma PastBucket(cs: seq<Chain>, b: nat, s: Scan<HashTblEnt>, home: map<HashTblEnt, nat>)
    requires b < |cs| && s.entries == Flat(cs) && AtHome(cs, home)
    ensures PastFrom(s, home, b, 0) == Offset(cs, b + 1)
  {
    OffsetBounded(cs, b + 1);
    var g := Offset(cs, b + 1);
    forall k {:trigger s.entries[k]} | 0 <= k < |s.entries|
      ensures s.entries[k] in home && (home[s.entries[k]] <= b <==> k < g)
    {
      var i, t := Locate(cs, k);
      if i <= b {
        OffsetMonotone(cs, i, b + 1);
      } else {
        OffsetMonotone(cs, b + 1, i);
      }
    }
    PastIs(s, home, b, g, 0);
  }

  /** A new first node of chain `w` shifts a cursor that is past the start of that chain. */
  lemma InsertMovesCursor(cs: seq<Chain>, w: nat, e: HashTblEnt, at: int, rest: HashTblEnt?)
    requires Proper(cs) && w < |cs| && Proper(InsertAt(cs, w, e)) && CursorIn(cs, at, rest)
    ensures var ds := InsertAt(cs, w, e);
            CursorIn(ds, at, rest) && Pos(ds, at, rest) == Pos(cs, at, rest) + if w < at then 1 else 0
  {
    var ds: seq<Chain> := InsertAt(cs, w, e);
    OffsetAfterUpdate(cs, w, [e] + cs[w], at);
    if rest != null {
      var b := at - 1;
      var t := IndexIn(cs[b], rest);
      OffsetAfterUpdate(cs, w, [e] + cs[w], b);
      PosInChain(ds, at, if w == b then t + 1 else t);
    }
  }

  /** The entry that comes next stays the same, unless the new one is put just before it: in a bucket the scan has
      yet to come to, with no entry before it there. */
  lemma InsertKeepsNext(cs: seq<Chain>, w: nat, e: HashTblEnt, at: int, rest: HashTblEnt?)
    requires Proper(cs) && w < |cs| && Proper(InsertAt(cs, w, e)) && CursorIn(cs, at, rest)
    ensures var ds := InsertAt(cs, w, e);
            && CursorIn(ds, at, rest)
            && Pos(ds, at, rest) == Pos(cs, at, rest) + (if w < at then 1 else 0)
            && NextIn(Flat(ds), Pos(ds, at, rest)) ==
               if w >= at && Pos(cs, at, rest) == Offset(cs, w) then Some(e) else NextIn(Flat(cs), Pos(cs, at, rest))
  {
    InsertMovesCursor(cs, w, e, at, rest);
    InsertFlat(cs, w, e);
    OffsetIs(cs, w);
    CursorRange(cs, at, rest);
    if w < at {
      OffsetMonotone(cs, w, if rest == null then at else at - 1);
    } else {
      OffsetMonotone(cs, at, w);
      if rest != null {
        OffsetMonotone(cs, at - 1, at);
      }
    }
  }

  function NextIn(flat: Chain, p: nat): Option<HashTblEnt> {
    if p < |flat| then Some(flat[p]) else None
  }

  /** The cursor after node `j` of chain `w` is taken out: it moves on only if it stood on that node. */
  ghost function RestAfter(cs: seq<Chain>, w: nat, j: nat, rest: HashTblEnt?): HashTblEnt?
    requires w < |cs| && j < |cs[w]|
  {
    if rest == cs[w][j] then After(cs[w], j) else rest
  }

  /** The mark words after node `j` of a chain is taken out: a cursor on that node takes its word along to the node
      after it, whatever that node's own word was. */
  ghost function MarksAfter(c: Chain, j: nat, rest: HashTblEnt?, mark: map<HashTblEnt, nat>): map<HashTblEnt, nat>
    requires j < |c|
  {
    if rest == c[j] && j + 1 < |c| && c[j] in mark then mark[c[j + 1] := mark[c[j]]] else mark
  }

  /** Removing an element before the cursor moves the cursor back by one; removing one at or after it leaves
      the cursor where it is. */
  lemma RemoveMovesCursor(cs: seq<Chain>, w: nat, j: nat, at: int, rest: HashTblEnt?)
    requires Proper(cs) && w < |cs| && j < |cs[w]| && CursorIn(cs, at, rest)
    ensures var ds, r, g := RemoveAt(cs, w, j), RestAfter(cs, w, j, rest), Offset(cs, w) + j;
            && CursorIn(ds, at, r)
            && Pos(ds, at, r) == Pos(cs, at, rest) - if g < Pos(cs, at, rest) then 1 else 0
  {
    var ds: seq<Chain> := RemoveAt(cs, w, j);
    RemoveKeepsPlaces(cs, w, j);
    OffsetAfterUpdate(cs, w, Without(cs[w], j), at);
    if rest == null {
      if w < at {
        OffsetMonotone(cs, w, at);
      } else {
        OffsetMonotone(cs, at, w);
      }
    } else {
      var b := at - 1;
      var t := IndexIn(cs[b], rest);
      OffsetAfterUpdate(cs, w, Without(cs[w], j), b);
      if w == b {
        RemoveInCursorChain(cs, w, j, t);
      } else {
        ProperAt(cs, b);
        ProperAt(cs, w);
        assert cs[b][t].key >= 0 && cs[w][j].key >= 0;
        assert ds[b] == cs[b];
        PosInChain(ds, at, t);
        OffsetMonotone(cs, if w < b then w else b, if w < b then b else w);
      }
    }
  }

  lemma RemoveInCursorChain(cs: seq<Chain>, w: nat, j: nat, t: nat)
    requires Proper(cs) && w < |cs| && j < |cs[w]| && t < |cs[w]|
    ensures var ds, r := RemoveAt(cs, w, j), RestAfter(cs, w, j, cs[w][t]);
            && CursorIn(ds, w + 1, r)
            && Pos(ds, w + 1, r) == Offset(cs, w) + if t <= j then t else t - 1
  {
    var ds: seq<Chain> := RemoveAt(cs, w, j);
    RemoveKeepsPlaces(cs, w, j);
    OffsetAfterUpdate(cs, w, Without(cs[w], j), w);
    ProperAt(cs, w);
    if t != j {
      Differ(cs[w], t, j);
    }
    PosInChain(ds, w + 1, if t <= j then t else t - 1);
  }

  /** In a rehash that has moved the first `g` nodes, the key of the next one is not yet bound, and binding
      it gives the bindings of the first `g + 1`. */
  lemma MoveNext(flat: Chain, g: nat)
    requires DistinctKeys(flat) && g < |flat|
    ensures flat[g].Id() !in Bindings(flat[..g])
    ensures Bindings(flat[..g + 1]) == Bindings(flat[..g])[flat[g].Id() := flat[g].data]
  {
    if flat[g].Id() in Bindings(flat[..g]) {
      var i := Find(flat[..g], flat[g].Id());
      Differ(flat, i, g);
    }
    assert flat[..g + 1][..g] == flat[..g];
  }

  /** The remainder of C: that of a negative number is negative or zero. */
  method Remainder(key: int, size: nat) returns (where: int)
    requires size > 0
    ensures key >= 0 ==> where == Bucket(key, size)
    ensures key < 0 ==> where <= 0 && where + size > 0
  {
    if key >= 0 {
      BucketIsRemainder(key, size);
      where := key % size;
    } else {
      where := -((-key) % size);
    }
  }

  // ----- links -----

  /** The nodes of a chain hang together, starting from `head`. */
  ghost predicate Linked(head: HashTblEnt?, c: Chain)
    reads c`next
  {
    head == HeadOf(c) && forall j {:trigger c[j].next} :: 0 <= j < |c| ==> c[j].next == After(c, j)
  }

  /** A chain grows at its front by a node that points to its old first node. */
  lemma LinkFront(pp: HashTblEnt, c: Chain)
    requires Linked(HeadOf(c), c) && pp.next == HeadOf(c)
    ensures Linked(pp, [pp] + c)
  {
    var d := [pp] + c;
    forall j | 0 <= j < |d|
      ensures d[j].next == After(d, j)
    {
      if j > 0 {
        assert d[j] == c[j - 1];
      }
    }
  }

  /** A chain from which node `j` was unlinked is linked again. */
  lemma LinkWithout(c: Chain, j: nat, head: HashTblEnt?)
    requires j < |c|
    requires head == if j == 0 then After(c, 0) else c[0]
    requires j > 0 ==> c[j - 1].next == After(c, j)
    requires forall t {:trigger c[t].next} :: 0 <= t < |c| && t != j - 1 && t != j ==> c[t].next == After(c, t)
    ensures Linked(head, Without(c, j))
  {
    var d := Without(c, j);
    forall t | 0 <= t < |d|
      ensures d[t].next == After(d, t)
    {
      assert d[t] == c[if t < j then t else t + 1];
    }
  }

  // ----- the table -----

  /** A saved scan position. */
  class HashTableHandle {
    var bucket: nat
    var whichOne: nat
    var capacityAtTime: nat

    constructor ()
      ensures bucket == whichOne == capacityAtTime == 0
    {
      bucket, whichOne, capacityAtTime := 0, 0, 0;
    }
  }

  class HashedTbl {
    var hTbl: array<HashTblEnt?>
    var currentSize: nat
    var currentUsed: nat
    var circularAt: int
    var resizeCount: nat
    var lastHandle: nat
    var strayCount: int
    var resetNeeded: HashTblEnt?
    ghost var chains: seq<Chain>
    ghost var nodes: set<HashTblEnt>

    ghost predicate Valid()
      reads `hTbl, `currentSize, `currentUsed, `chains, `nodes, `strayCount, hTbl, nodes`next
    {
      Shape() && strayCount == 0
    }

    ghost predicate Shape()
      reads `hTbl, `currentSize, `currentUsed, `chains, `nodes, hTbl, nodes`next
    {
      && currentSize == hTbl.Length == |chains| && currentSize >= 2
      && Proper(chains)
      && BucketsOk(|chains|)
      && currentUsed == |Flat(chains)|
      && currentUsed < currentSize - currentSize / 4
    }

    /** The chain of bucket `i` is made of the table's nodes, linked in order. */
    ghost predicate BucketOk(i: nat)
      requires i < |chains| == hTbl.Length
      reads `hTbl, `chains, `nodes, hTbl, nodes`next
    {
      && (forall j :: 0 <= j < |chains[i]| ==> chains[i][j] in nodes)
      && Linked(hTbl[i], chains[i])
    }

    ghost predicate BucketsOk(k: nat)
      requires k <= |chains| == hTbl.Length
      reads `hTbl, `chains, `nodes, hTbl, nodes`next
    {
      k == 0 || (BucketsOk(k - 1) && BucketOk(k - 1))
    }

    lemma {:induction false} BucketAt(k: nat, i: nat)
      requires i < k <= |chains| == hTbl.Length && BucketsOk(k)
      ensures BucketOk(i)
    {
      if i < k - 1 {
        BucketAt(k - 1, i);
      }
    }

    lemma AllBuckets()
      requires Shape()
      ensures forall i :: 0 <= i < |chains| ==> BucketOk(i)
    {
      forall i: nat | i < |chains|
        ensures BucketOk(i)
      {
        BucketAt(|chains|, i);
      }
    }

    lemma {:induction false} Buckets(k: nat)
      requires k <= |chains| == hTbl.Length && forall i :: 0 <= i < k ==> BucketOk(i)
      ensures BucketsOk(k)
    {
      if k > 0 {
        Buckets(k - 1);
      }
    }

    ghost function Entries(): Chain
      reads `chains
    {
      Flat(chains)
    }

    ghost function Contents(): map<Key, Datum>
      reads `chains
    {
      Bindings(Flat(chains))
    }

    ghost predicate CursorOk()
      reads `chains, `circularAt, `resetNeeded
    {
      CursorIn(chains, circularAt, resetNeeded)
    }

    ghost function At(): nat
      requires CursorOk()
      reads `chains, `circularAt, `resetNeeded
    {
      Pos(chains, circularAt, resetNeeded)
    }

    /** The table as a scan: entries in order, cursor, mark words and last handle. */
    ghost function View(): Scan<HashTblEnt>
      requires CursorOk()
      reads `chains, `circularAt, `resetNeeded, `lastHandle, `nodes, nodes`postion
    {
      Scan(Entries(), At(), Marks(), lastHandle)
    }

    /** The view of a valid table is one the theorems about scans and saved positions apply to: its entries are distinct
        and in the order of their buckets, the cursor is among them or at their end, and every entry has its mark word. */
    lemma ViewIsAScan()
      requires Valid() && CursorOk()
      ensures Distinct(View().entries) && View().pos <= |View().entries|
      ensures forall e :: e in View().entries ==> e in View().mark && View().mark[e] == e.postion
      ensures Housed(View().entries, Home()) && AtHome(chains, Home())
    {
      HomeIsChain();
      FlatHoused(chains, Home());
      FlatDistinct(chains);
      CursorRange(chains, circularAt, resetNeeded);
      var flat := Flat(chains);
      forall i, j | 0 <= i < j < |flat|
        ensures flat[i] != flat[j]
      {
        Differ(flat, i, j);
      }
      forall e | e in flat
        ensures e in nodes
      {
        var j :| 0 <= j < |flat| && flat[j] == e;
        var i, k := FlatLocate(chains, j);
        BucketAt(|chains|, i);
        assert chains[i][k] == e;
      }
    }

    /** The bucket of each entry. */
    ghost function Home(): map<HashTblEnt, nat>
      requires currentSize > 0
      reads `nodes, `currentSize
    {
      map e | e in nodes && e.key >= 0 :: Bucket(e.key, currentSize)
    }

    lemma HomeIsChain()
      requires Valid()
      ensures AtHome(chains, Home())
    {
      forall i, j {:trigger chains[i][j]} | 0 <= i < |chains| && 0 <= j < |chains[i]|
        ensures chains[i][j] in Home() && Home()[chains[i][j]] == i
      {
        BucketAt(|chains|, i);
        ProperAt(chains, i);
        assert chains[i][j].key >= 0;
      }
    }

    ghost function Marks(): map<HashTblEnt, nat>
      reads `nodes, nodes`postion
    {
      map e | e in nodes :: e.postion
    }

    /** The next entry would bring the load to the resize threshold. */
    predicate Full()
      reads this
    {
      currentUsed + 1 >= currentSize - currentSize / 4
    }

    constructor (suggest: nat)
      requires suggest >= 1
      ensures Valid() && fresh(hTbl) && nodes == {}
      ensures Contents() == map[] && Entries() == []
      ensures CursorOk() && At() == 0 && resetNeeded == null && lastHandle == 0
      ensures currentSize >= 2 * suggest
    {
      var size := PrimeSizes.GetOptSize(suggest * 2);
      currentSize := size;
      hTbl := new HashTblEnt?[size](_ => null);
      currentUsed, resizeCount, lastHandle, strayCount := 0, 0, 0, 0;
      circularAt, resetNeeded := 0, null;
      chains := seq(size, _ => []);
      nodes := {};
      new;
      EmptyTable(chains);
      Buckets(|chains|);
    }

    method Rewind()
      requires Valid()
      modifies this`circularAt, this`resetNeeded
      ensures Valid() && CursorOk() && At() == 0 && resetNeeded == null
    {
      circularAt := 0;
      resetNeeded := null;
    }

    /** The data bound to a key, by walking the chain the key selects. For a negative key that chain is none,
        or the first one; either way nothing is found. */
    method LookupKeyed(key: int, keyP: KeyMem) returns (r: Option<Datum>)
      requires Valid()
      ensures r == if (key, keyP) in Contents() then Some(Contents()[(key, keyP)]) else None
    {
      if currentUsed == 0 {
        assert Flat(chains) == [];
        return None;
      }
      var where := Remainder(key, currentSize);
      if where < 0 {
        NegativeUnbound(chains, (key, keyP));
        return None;
      }
      BucketAt(|chains|, where);
      ghost var c := chains[where];
      var pp := hTbl[where];
      ghost var j := 0;
      while pp != null
        invariant j <= |c| && pp == (if j < |c| then c[j] else null)
        invariant forall t :: 0 <= t < j ==> c[t].Id() != (key, keyP)
        decreases |c| - j
      {
        if pp.key == key && pp.keyP == keyP {
          assert c[j].Id() == (key, keyP);
          ChainBound(chains, where, j);
          return Some(pp.data);
        }
        pp := pp.next;
        j := j + 1;
      }
      if (key, keyP) in Contents() {
        j := BoundInChain(chains, (key, keyP));
        assert false;
      }
      return None;
    }

    /** Point a node at the first node of a chain and make it the first. */
    method PushFront(pp: HashTblEnt, where: nat)
      requires Shape() && where < currentSize
      requires forall i, j :: 0 <= i < |chains| && 0 <= j < |chains[i]| ==> chains[i][j] != pp
      modifies hTbl, pp`next
      ensures Linked(hTbl[where], [pp] + chains[where])
      ensures forall j :: 0 <= j < |chains[where]| ==> chains[where][j] in nodes
      ensures forall i :: 0 <= i < |chains| && i != where ==> BucketOk(i)
    {
      AllBuckets();
      assert BucketOk(where);
      pp.next := hTbl[where];
      hTbl[where] := pp;
      LinkFront(pp, chains[where]);
      forall i | 0 <= i < |chains| && i != where
        ensures BucketOk(i)
      {
        assert old(BucketOk(i));
      }
    }

    /** Hang a node whose key is not bound at the head of its chain. */
    method Hang(pp: HashTblEnt)
      requires Valid() && !Full() && pp.key >= 0 && pp.Id() !in Contents()
      modifies this`chains, this`nodes, this`currentUsed, hTbl, pp`next
      ensures Valid() && nodes == old(nodes) + {pp}
      ensures chains == InsertAt(old(chains), Bucket(pp.key, currentSize), pp)
      ensures Contents() == old(Contents())[pp.Id() := pp.data]
      ensures currentUsed == old(currentUsed) + 1
    {
      hide Bindings, Flat, Proper;
      ghost var cs := chains;
      var where := Remainder(pp.key, currentSize);
      UnboundNotHung(cs, pp);
      PushFront(pp, where);
      label Pushed:
      chains, nodes, currentUsed := InsertAt(cs, where, pp), nodes + {pp}, currentUsed + 1;
      InsertKeepsProper(cs, pp);
      forall i | 0 <= i < |chains|
        ensures BucketOk(i)
      {
        if i != where {
          assert chains[i] == cs[i] && old@Pushed(BucketOk(i));
        } else {
          assert chains[i] == [pp] + cs[i];
        }
      }
      Buckets(|chains|);
    }

    /** Put a ready-made node into the table, growing the table first when the load asks for it. */
    method EnterBucket(pp: HashTblEnt) returns (st: Status)
      requires Valid()
      modifies this, hTbl, nodes, pp
      ensures Valid() && (hTbl == old(hTbl) || fresh(hTbl))
      ensures st == if pp.key < 0 then Bad1 else if pp.Id() in old(Contents()) then Bad else Good
      ensures st != Good ==> unchanged(this) && unchanged(old(hTbl), pp) && unchanged(old(nodes))
      ensures st == Good ==> nodes == old(nodes) + {pp}
      ensures circularAt == old(circularAt) && resetNeeded == old(resetNeeded)
      ensures st == Good ==> Contents() == old(Contents())[pp.Id() := pp.data] && currentUsed == old(currentUsed) + 1
      ensures resizeCount == old(resizeCount) + if st == Good && old(Full()) then 1 else 0
      ensures st == Good && !old(Full()) ==>
                && currentSize == old(currentSize) && hTbl == old(hTbl) && lastHandle == old(lastHandle)
                && chains == InsertAt(old(chains), Bucket(pp.key, currentSize), pp)
                && pp.postion == old(pp.postion)
                && (forall e {:trigger e.next} :: e in old(nodes) && e != pp ==> e.next == old(e.next))
                && (forall e {:trigger e.postion} :: e in old(nodes) && e != pp ==> e.postion == old(e.postion))
      ensures st == Good && old(Full()) ==> currentSize >= 3 * old(currentSize)
      decreases if Full() then 2 else 0, 0
    {
      if pp.key < 0 {
        return Bad1;
      }
      var dup := LookupKeyed(pp.key, pp.keyP);
      if dup.Some? {
        return Bad;
      }
      if currentUsed + 1 >= currentSize - currentSize / 4 {
        ReSize();
      }
      Hang(pp);
      return Good;
    }

    /** Allocate a node for a new binding and put it into the table. */
    method EnterKeyed(key: int, newt: Datum, keyP: KeyMem) returns (st: Status)
      requires Valid()
      modifies this, hTbl, nodes
      ensures Valid() && (hTbl == old(hTbl) || fresh(hTbl)) && fresh(nodes - old(nodes))
      ensures st == if key < 0 then Bad1 else if (key, keyP) in old(Contents()) then Bad else Good
      ensures st != Good ==> unchanged(this) && unchanged(old(hTbl)) && unchanged(old(nodes))
      ensures st == Good ==> Contents() == old(Contents())[(key, keyP) := newt] && currentUsed == old(currentUsed) + 1
      ensures circularAt == old(circularAt) && resetNeeded == old(resetNeeded)
      ensures resizeCount == old(resizeCount) + if st == Good && old(Full()) then 1 else 0
      ensures resizeCount == old(resizeCount) && st == Good ==>
                && currentSize == old(currentSize)
                && var w := Bucket(key, currentSize);
                   && chains[w] != [] && fresh(chains[w][0]) && chains[w][0].Id() == (key, keyP)
                   && chains[w][0].data == newt && chains[w][0].postion == 0
                   && chains == InsertAt(old(chains), w, chains[w][0])
                   && nodes == old(nodes) + {chains[w][0]}
                   && (forall e {:trigger e.postion} :: e in old(nodes) ==> e.postion == old(e.postion))
                   && (old(CursorOk()) ==>
                         && CursorOk()
                         && At() == old(At()) + (if w < circularAt then 1 else 0)
                         && NextIn(Entries(), At()) ==
                            if w >= circularAt && old(At()) == Offset(old(chains), w) then Some(chains[w][0])
                            else NextIn(old(Entries()), old(At())))
      decreases 3
    {
      hide Bindings, Flat, Pos, CursorIn, NextIn, BucketsOk, Proper;
      if key < 0 {
        return Bad1;
      }
      var dup := LookupKeyed(key, keyP);
      if dup.Some? {
        return Bad;
      }
      if currentUsed + 1 >= currentSize - currentSize / 4 {
        ReSize();
      }
      ghost var cs := chains;
      var pp := new HashTblEnt(key, keyP, newt);
      Hang(pp);
      if CursorIn(cs, circularAt, resetNeeded) {
        InsertKeepsNext(cs, Bucket(key, currentSize), pp, circularAt, resetNeeded);
      }
      return Good;
    }

    /** Make the node before node `j` of chain `where`, or the bucket, point past that node. */
    method Bypass(where: nat, ghost j: nat, prev: HashTblEnt?, pp: HashTblEnt)
      requires Shape() && where < currentSize && j < |chains[where]| && pp == chains[where][j]
      requires prev == if j == 0 then null else chains[where][j - 1]
      modifies hTbl, nodes`next
      ensures Linked(hTbl[where], Without(chains[where], j))
      ensures forall t :: 0 <= t < |chains[where]| ==> chains[where][t] in nodes
      ensures forall i :: 0 <= i < |chains| && i != where ==> BucketOk(i)
      ensures pp.next == old(pp.next)
    {
      ghost var c := chains[where];
      AllBuckets();
      assert BucketOk(where);
      ProperAt(chains, where);
      forall t: nat | t < |c| && j > 0 && t != j - 1
        ensures c[t] != c[j - 1]
      {
        Differ(c, t, j - 1);
      }
      NotElsewhere(chains, where);
      if prev == null {
        hTbl[where] := pp.next;
      } else {
        prev.next := pp.next;
      }
      LinkWithout(c, j, hTbl[where]);
      forall i | 0 <= i < |chains| && i != where
        ensures BucketOk(i)
      {
        assert old(BucketOk(i));
      }
    }

    /** Unlink node `j` of chain `where`; `prev` is the node before it, if any. */
    method Unlink(where: nat, ghost j: nat, prev: HashTblEnt?, pp: HashTblEnt)
      requires Valid() && where < currentSize && j < |chains[where]| && pp == chains[where][j]
      requires prev == if j == 0 then null else chains[where][j - 1]
      modifies this`chains, this`currentUsed, hTbl, nodes`next
      ensures Valid() && chains == RemoveAt(old(chains), where, j)
      ensures pp.next == old(pp.next)
    {
      ghost var cs := chains;
      Bypass(where, j, prev, pp);
      label Bypassed:
      RemoveKeepsProper(cs, where, j);
      chains, currentUsed := RemoveAt(cs, where, j), currentUsed - 1;
      forall i | 0 <= i < |chains|
        ensures BucketOk(i)
      {
        if i != where {
          assert chains[i] == cs[i] && old@Bypassed(BucketOk(i));
        } else {
          assert chains[i] == Without(cs[i], j);
        }
      }
      Buckets(|chains|);
    }

    /** Take a binding out. The cursor keeps its place among the entries that remain; when it stood on the
        node removed, it moves to the next node of the chain, and so does the node's saved-position mark. */
    method RemoveKeyed(key: int, keyP: KeyMem) returns (r: Option<Datum>)
      requires Valid()
      modifies this`chains, this`currentUsed, this`resetNeeded, hTbl, nodes
      ensures Valid()
      ensures (key, keyP) !in old(Contents()) ==>
                r == None && chains == old(chains) && resetNeeded == old(resetNeeded) && unchanged(hTbl) && unchanged(nodes)
      ensures (key, keyP) in old(Contents()) ==>
                && r == Some(old(Contents())[(key, keyP)])
                && Contents() == old(Contents()) - {(key, keyP)}
                && Entries() == Without(old(Entries()), Spot(old(Entries()), (key, keyP)))
                && (old(CursorOk()) ==>
                      && CursorOk()
                      && View() == Drop(old(View()), Spot(old(Entries()), (key, keyP))).(mark := Marks()))
                && key >= 0
                && var w := Bucket(key, currentSize);
                   var gone := old(Entries())[Spot(old(Entries()), (key, keyP))];
                   && gone in old(chains)[w] && gone in nodes
                   && chains == RemoveAt(old(chains), w, IndexIn(old(chains)[w], gone))
                   && Marks() == MarksAfter(old(chains)[w], IndexIn(old(chains)[w], gone), old(resetNeeded), old(Marks()))
                   && resetNeeded == RestAfter(old(chains), w, IndexIn(old(chains)[w], gone), old(resetNeeded))
    {
      hide Flat, Bindings, Proper, CursorIn, Pos, Without, MarksAfter;
      if key < 0 {
        NegativeUnbound(chains, (key, keyP));
        return None;
      }
      var where := Remainder(key, currentSize);
      BucketAt(|chains|, where);
      ghost var c := chains[where];
      var pp := hTbl[where];
      var prev: HashTblEnt? := null;
      ghost var j := 0;
      while pp != null
        invariant j <= |c| && pp == (if j < |c| then c[j] else null)
        invariant prev == if j == 0 then null else c[j - 1]
        invariant forall t :: 0 <= t < j ==> c[t].Id() != (key, keyP)
        decreases |c| - j
      {
        if pp.key == key && pp.keyP == keyP {
          ProperAt(chains, where);
          IndexUnique(c, pp, j);
          RemoveFound(where, j, prev, pp);
          MarksMoved(c, j, old(resetNeeded));
          return Some(pp.data);
        }
        prev := pp;
        pp := pp.next;
        j := j + 1;
      }
      if (key, keyP) in Contents() {
        j := BoundInChain(chains, (key, keyP));
        assert false;
      }
      return None;
    }

    /** The mark words as a function of those there were. */
    twostate lemma MarksMoved(new c: Chain, j: nat, new rest: HashTblEnt?)
      requires nodes == old(nodes) && j < |c| && (forall t :: 0 <= t < |c| ==> c[t] in nodes)
      requires forall e {:trigger e.postion} :: e in nodes ==>
                 e.postion == if rest == c[j] && e == After(c, j) then old(c[j].postion) else old(e.postion)
      ensures Marks() == MarksAfter(c, j, rest, old(Marks()))
    {
    }

    /** Unlink the node found and move the cursor and its mark off it. */
    method RemoveFound(where: nat, ghost j: nat, prev: HashTblEnt?, pp: HashTblEnt)
      requires Valid() && where < currentSize && j < |chains[where]| && pp == chains[where][j]
      requires prev == if j == 0 then null else chains[where][j - 1]
      modifies this`chains, this`currentUsed, this`resetNeeded, hTbl, nodes
      ensures Valid() && chains == RemoveAt(old(chains), where, j)
      ensures pp.Id() in old(Contents()) && old(Contents())[pp.Id()] == pp.data
      ensures Spot(old(Entries()), pp.Id()) == Offset(old(chains), where) + j
      ensures old(Entries())[Offset(old(chains), where) + j] == pp
      ensures Contents() == old(Contents()) - {pp.Id()}
      ensures Entries() == Without(old(Entries()), Offset(old(chains), where) + j)
      ensures old(CursorOk()) ==>
                CursorOk() && At() == old(At()) - if Offset(old(chains), where) + j < old(At()) then 1 else 0
      ensures resetNeeded == RestAfter(old(chains), where, j, old(resetNeeded))
      ensures forall e {:trigger e.postion} :: e in nodes ==>
                e.postion == if old(resetNeeded) == pp && e == After(old(chains)[where], j) then old(pp.postion)
                             else old(e.postion)
    {
      hide Flat, Bindings, Proper, CursorIn, Pos, Spot, Without;
      ghost var cs := chains;
      SpotOf(cs, where, j);
      RemoveFlat(cs, where, j);
      RemoveKeepsProper(cs, where, j);
      if CursorOk() {
        RemoveMovesCursor(cs, where, j, circularAt, resetNeeded);
      }
      BucketAt(|cs|, where);
      assert pp.next == After(cs[where], j);
      Unlink(where, j, prev, pp);
      LeaveNode(pp);
    }

    /** Move the cursor, and the mark of its node, on to the next node of the chain. */
    method LeaveNode(pp: HashTblEnt)
      requires pp.next == null || pp.next in nodes
      modifies this`resetNeeded, nodes`postion
      ensures resetNeeded == if old(resetNeeded) == pp then pp.next else old(resetNeeded)
      ensures forall e {:trigger e.postion} :: e in nodes ==>
                e.postion == if old(resetNeeded) == pp && e == pp.next then old(pp.postion) else old(e.postion)
    {
      if resetNeeded != null && resetNeeded == pp {
        if pp.next != null {
          pp.next.postion := pp.postion;
        }
        resetNeeded := pp.next;
      }
    }

    /** Report the entry at the cursor and move past it; nothing at the end. */
    method SearchNext() returns (r: Option<(KeyMem, Datum)>)
      requires Valid() && CursorOk()
      modifies this`circularAt, this`resetNeeded
      ensures Valid() && CursorOk() && View() == Forward(old(View()))
      ensures resetNeeded != null <==> if old(At()) < |Entries()| then SameBucket(Entries(), Home(), old(At()))
                                       else old(resetNeeded) != null
      ensures r == Seen(Peek(old(View())))
    {
      CursorRange(chains, circularAt, resetNeeded);
      if currentUsed == 0 {
        return None;
      }
      if resetNeeded != null {
        r := TakeAt(circularAt - 1, IndexIn(chains[circularAt - 1], resetNeeded), resetNeeded);
        return;
      }
      var i := NextBucket(circularAt);
      if i < currentSize {
        BucketAt(|chains|, i);
        r := TakeAt(i, 0, hTbl[i]);
        return;
      }
      WholeOffset(chains);
      return None;
    }

    /** Report node `j` of bucket `i` and leave the cursor just past it. */
    method TakeAt(i: nat, ghost j: nat, pp: HashTblEnt) returns (r: Option<(KeyMem, Datum)>)
      requires Valid() && i < currentSize && j < |chains[i]| && pp == chains[i][j]
      modifies this`circularAt, this`resetNeeded
      ensures Valid() && CursorOk() && At() == Offset(chains, i) + j + 1
      ensures At() <= |Entries()| && r == Seen(Some(Entries()[At() - 1]))
      ensures resetNeeded != null <==> SameBucket(Entries(), Home(), At() - 1)
    {
      hide Flat, Proper, Bindings, CursorIn, Pos, Home, SameBucket, AtHome, Offset;
      BucketAt(|chains|, i);
      ChainInFlat(chains, i);
      PosInChain(chains, i + 1, j + 1);
      HomeIsChain();
      SameChain(chains, Home(), i, j);
      resetNeeded := pp.next;
      circularAt := i + 1;
      return Some((pp.keyP, pp.data));
    }

    /** Report node `j` of bucket `i` and leave the cursor on it. */
    method StandAt(i: nat, ghost j: nat, pp: HashTblEnt) returns (r: Option<(KeyMem, Datum)>)
      requires Valid() && i < currentSize && j < |chains[i]| && pp == chains[i][j]
      modifies this`circularAt, this`resetNeeded
      ensures Valid() && CursorOk() && At() == Offset(chains, i) + j
      ensures At() < |Entries()| && r == Seen(Some(Entries()[At()])) && resetNeeded != null
    {
      ChainInFlat(chains, i);
      PosInChain(chains, i + 1, j);
      resetNeeded := pp;
      circularAt := i + 1;
      return Some((pp.keyP, pp.data));
    }

    /** The first bucket from `start` on that holds an entry. */
    method NextBucket(start: nat) returns (i: nat)
      requires Valid() && start <= currentSize
      ensures start <= i <= currentSize && Offset(chains, i) == Offset(chains, start)
      ensures i < currentSize ==> chains[i] != []
    {
      i := start;
      while i < currentSize
        invariant start <= i <= currentSize
        invariant Offset(chains, i) == Offset(chains, start)
      {
        BucketAt(|chains|, i);
        if hTbl[i] != null {
          return;
        }
        i := i + 1;
      }
    }

    /** The last bucket before `end` that holds an entry. */
    method PrevBucket(end: nat) returns (i: int)
      requires Valid() && end <= currentSize
      ensures -1 <= i < end && Offset(chains, i + 1) == Offset(chains, end)
      ensures i >= 0 ==> chains[i] != []
    {
      i := end - 1;
      while i >= 0
        invariant -1 <= i < end
        invariant Offset(chains, i + 1) == Offset(chains, end)
      {
        BucketAt(|chains|, i);
        if hTbl[i] != null {
          return;
        }
        i := i - 1;
      }
    }

    /** Step back over the entry before the cursor and report it; nothing at the start. */
    method SearchPrev() returns (r: Option<(KeyMem, Datum)>)
      requires Valid() && CursorOk()
      modifies this`circularAt, this`resetNeeded
      ensures Valid() && CursorOk() && View() == Backward(old(View()))
      ensures r == if old(View()).pos == 0 then None else Seen(Peek(Backward(old(View()))))
      ensures resetNeeded != null <==> old(At()) > 0
    {
      CursorRange(chains, circularAt, resetNeeded);
      if currentUsed == 0 {
        return None;
      }
      if resetNeeded != null {
        ghost var g := IndexIn(chains[circularAt - 1], resetNeeded);
        BucketAt(|chains|, circularAt - 1);
        var pp := hTbl[circularAt - 1];
        if pp == resetNeeded {
          LeaveChain();
        } else {
          pp := NodeBefore(circularAt - 1, g);
          r := StandAt(circularAt - 1, g - 1, pp);
          return;
        }
      }
      r := LastBefore();
    }

    /** Step back from the start of a bucket over the last entry of the buckets before it. */
    method LastBefore() returns (r: Option<(KeyMem, Datum)>)
      requires Valid() && CursorOk() && resetNeeded == null
      modifies this`circularAt, this`resetNeeded
      ensures Valid() && CursorOk() && View() == Backward(old(View()))
      ensures r == if old(View()).pos == 0 then None else Seen(Peek(Backward(old(View()))))
      ensures resetNeeded != null <==> old(At()) > 0
    {
      var i := PrevBucket(circularAt);
      if i >= 0 {
        var last := LastOf(i);
        r := StandAt(i, |chains[i]| - 1, last);
        return;
      }
      return None;
    }

    /** A cursor on the first node of its chain stands just as well at the end of the chain before. */
    method LeaveChain()
      requires CursorOk() && resetNeeded != null && Proper(chains) && resetNeeded == HeadOf(chains[circularAt - 1])
      modifies this`circularAt, this`resetNeeded
      ensures CursorOk() && resetNeeded == null && At() == old(At()) && circularAt == old(circularAt) - 1
    {
      ProperAt(chains, circularAt - 1);
      IndexUnique(chains[circularAt - 1], resetNeeded, 0);
      resetNeeded := null;
      circularAt := circularAt - 1;
    }

    /** The node before the cursor's node in its chain, found by walking from the chain's first node. */
    method NodeBefore(b: nat, ghost g: nat) returns (pp: HashTblEnt)
      requires Valid() && b < currentSize && 0 < g < |chains[b]| && chains[b][g] == resetNeeded
      ensures pp == chains[b][g - 1]
    {
      ghost var c, j := chains[b], 0;
      BucketAt(|chains|, b);
      ProperAt(chains, b);
      pp := hTbl[b];
      while pp.next != resetNeeded
        invariant 0 <= j < g && pp == c[j]
        decreases g - j
      {
        pp := pp.next;
        j := j + 1;
      }
      if j + 1 != g {
        Differ(c, j + 1, g);
      }
    }

    /** The last node of a chain that is not empty. */
    method LastOf(i: nat) returns (last: HashTblEnt)
      requires Valid() && i < currentSize && chains[i] != []
      ensures last == chains[i][|chains[i]| - 1]
    {
      BucketAt(|chains|, i);
      ghost var c, j := chains[i], 0;
      last := hTbl[i];
      while last.next != null
        invariant 0 <= j < |c| && last == c[j]
        decreases |c| - j
      {
        last := last.next;
        j := j + 1;
      }
    }

    /** Take the first entry of the buckets from `circularAt` on out of the table and report it. After a rewind, and
        whenever the cursor is between entries, that is the entry at the cursor. In the middle of a `searchNext` scan
        of a bucket it is not; and the cursor is lost then, unless the entry came from the very next bucket and left
        others there. */
    method GetNext() returns (r: Option<(KeyMem, Datum)>)
      requires Valid() && CursorOk()
      modifies this`chains, this`currentUsed, this`circularAt, hTbl, nodes`next
      ensures Valid() && (CursorOk() <==> resetNeeded == null || circularAt == old(circularAt))
      ensures CursorOk() ==> At() == old(At())
      ensures var g := Offset(old(chains), old(circularAt));
              && (resetNeeded == null ==> g == old(At()))
              && r == Seen(NextIn(old(Entries()), g))
              && (r == None ==> chains == old(chains) && circularAt == old(circularAt))
              && (r.Some? ==>
                    && Entries() == Without(old(Entries()), g)
                    && Contents() == old(Contents()) - {old(Entries())[g].Id()})
    {
      WholeOffset(chains);
      OffsetMonotone(chains, circularAt, |chains|);
      if currentUsed == 0 {
        return None;
      }
      var i := NextBucket(circularAt);
      if i == currentSize {
        return None;
      }
      BucketAt(|chains|, i);
      r := TakeFirst(i);
    }

    /** Unlink the first node of bucket `i` and leave `circularAt` at the bucket, or past it if it is empty. */
    method TakeFirst(i: nat) returns (r: Option<(KeyMem, Datum)>)
      requires Valid() && CursorOk() && circularAt <= i < currentSize && chains[i] != []
      requires Offset(chains, circularAt) == Offset(chains, i)
      modifies this`chains, this`currentUsed, this`circularAt, hTbl, nodes`next
      ensures Valid() && Offset(old(chains), i) < |old(Entries())|
      ensures CursorOk() <==> resetNeeded == null || circularAt == old(circularAt)
      ensures CursorOk() ==> At() == old(At())
      ensures r == Seen(Some(old(Entries())[Offset(old(chains), i)]))
      ensures Entries() == Without(old(Entries()), Offset(old(chains), i))
      ensures Contents() == old(Contents()) - {old(Entries())[Offset(old(chains), i)].Id()}
    {
      ghost var cs := chains;
      BucketAt(|cs|, i);
      RemoveFlat(cs, i, 0);
      RemoveKeepsProper(cs, i, 0);
      var pp := hTbl[i];
      Unlink(i, 0, null, pp);
      BucketAt(|chains|, i);
      circularAt := if hTbl[i] == null then i + 1 else i;
      TakenAhead(cs, i, old(circularAt), circularAt, resetNeeded);
      r := Some((pp.keyP, pp.data));
    }

    /** The cursor after the first entry from `was` on, that of bucket `i`, is taken and `circularAt` set to `at`. */
    static lemma TakenAhead(cs: seq<Chain>, i: nat, was: nat, at: nat, rest: HashTblEnt?)
      requires Proper(cs) && was <= i < |cs| && cs[i] != [] && CursorIn(cs, was, rest)
      requires Offset(cs, was) == Offset(cs, i)
      requires at == if |cs[i]| == 1 then i + 1 else i
      ensures var ds := RemoveAt(cs, i, 0);
              && (CursorIn(ds, at, rest) <==> rest == null || at == was)
              && (CursorIn(ds, at, rest) ==> Pos(ds, at, rest) == Pos(cs, was, rest))
    {
      var ds: seq<Chain> := RemoveAt(cs, i, 0);
      RemoveKeepsProper(cs, i, 0);
      OffsetAfterUpdate(cs, i, Without(cs[i], 0), i);
      OffsetAfterUpdate(cs, i, Without(cs[i], 0), at);
      if rest != null {
        var t := IndexIn(cs[was - 1], rest);
        assert ds[was - 1][t] == rest;
        NotElsewhere(ds, was - 1);
        OffsetAfterUpdate(cs, i, Without(cs[i], 0), was - 1);
        if at == was {
          PosInChain(ds, at, t);
        } else {
          var c := ds[at - 1];
          forall k | 0 <= k < |c|
            ensures c[k] != rest
          {
            assert ds[at - 1][k] != ds[was - 1][t];
          }
        }
      }
    }

    method GetHandle() returns (h: nat)
      modifies this`lastHandle
      ensures h == lastHandle == NextHandle(old(lastHandle))
    {
      lastHandle := lastHandle + 1;
      if lastHandle > 0xffff {
        lastHandle := 1;
      }
      return lastHandle;
    }

    /** Mark one node: a fresh handle and a count of one, or one more on the count it has. */
    method Mark(pp: HashTblEnt) returns (whichOne: nat)
      requires pp in nodes
      modifies this`lastHandle, nodes`postion
      ensures pp.postion == MarkOnce(old(pp.postion), old(lastHandle))
      ensures whichOne == Handle(pp.postion)
      ensures lastHandle == if old(pp.postion) == 0 then NextHandle(old(lastHandle)) else old(lastHandle)
      ensures Marks() == old(Marks())[pp := pp.postion]
    {
      if pp.postion == 0 {
        var h := GetHandle();
        pp.postion := 0x10000 + h;
      } else {
        var x := (pp.postion / 0x10000 + 1) % 0x10000;
        pp.postion := x * 0x10000 + pp.postion % 0x10000;
      }
      whichOne := pp.postion % 0x10000;
    }

    /** Remember the place of the scan in a marker. At the end of the table there is no entry to mark: the
        marker's handle is left as it was. */
    method SavePostion(marker: HashTableHandle) returns (st: Status)
      requires Valid() && CursorOk()
      modifies this`lastHandle, nodes`postion, marker
      ensures Valid() && CursorOk() && View() == Save(old(View()))
      ensures marker.capacityAtTime == currentSize
      ensures st == Good <==> At() < |Entries()|
      ensures st == Good ==>
                && marker.bucket < currentSize
                && Entries()[At()] in Home() && marker.bucket == Home()[Entries()[At()]]
                && marker.whichOne == Handle(Entries()[At()].postion)
      ensures st != Good ==> st == Bad && marker.whichOne == old(marker.whichOne) && marker.bucket == currentSize - 1
    {
      hide Flat, Bindings, Proper, CursorIn, Pos, Home, BucketsOk, Handle;
      var b, pp := NodeAtCursor();
      marker.capacityAtTime := currentSize;
      marker.bucket := b;
      if pp == null {
        return Bad;
      }
      marker.whichOne := Mark(pp);
      return Good;
    }

    /** The node the cursor stands on and its bucket; at the end of the table, the last bucket and no node. */
    method NodeAtCursor() returns (b: nat, pp: HashTblEnt?)
      requires Valid() && CursorOk()
      ensures b < currentSize && (pp == null <==> At() == |Entries()|) && At() <= |Entries()|
      ensures pp == null ==> b == currentSize - 1
      ensures pp != null ==> pp == Entries()[At()] && pp in nodes && pp in Home() && Home()[pp] == b
    {
      HomeIsChain();
      CursorRange(chains, circularAt, resetNeeded);
      if resetNeeded != null {
        BucketAt(|chains|, circularAt - 1);
        ghost var t := IndexIn(chains[circularAt - 1], resetNeeded);
        return circularAt - 1, resetNeeded;
      }
      var i := NextBucket(circularAt);
      if i < currentSize {
        BucketAt(|chains|, i);
        ChainInFlat(chains, i);
        return i, hTbl[i];
      }
      WholeOffset(chains);
      return currentSize - 1, null;
    }

    /** Go back to a saved position and take its mark off. A marker from before a resize is refused. When no
        entry of the marker's bucket carries its handle any more, the scan goes on after that bucket. */
    method ReturnToPostion(marker: HashTableHandle) returns (st: Status)
      requires Valid()
      requires marker.capacityAtTime == currentSize && marker.whichOne != 0 ==> marker.bucket < currentSize
      modifies this`circularAt, this`resetNeeded, nodes`postion
      ensures Valid() && (st == Bad <==> marker.capacityAtTime != currentSize) && st != Bad1
      ensures st == Bad || marker.whichOne == 0 ==> Marks() == old(Marks()) && resetNeeded == old(resetNeeded)
      ensures st == Bad ==> circularAt == old(circularAt)
      ensures st == Good && marker.whichOne == 0 ==>
                (CursorOk() && At() == |Entries()| <==> old(resetNeeded) == null)
      ensures st == Good && marker.whichOne != 0 ==>
                var c := chains[marker.bucket];
                var j := FirstWith(c, old(Marks()), marker.whichOne);
                && CursorOk() && At() == Offset(chains, marker.bucket) + j && circularAt == marker.bucket + 1
                && Marks() == if j == |c| then old(Marks()) else old(Marks())[c[j] := UnmarkOnce(old(c[j].postion))]
      ensures st == Good && marker.whichOne != 0 && old(CursorOk()) ==>
                && View() == BackTo(old(View()), Home(), marker.bucket, marker.whichOne)
                && (resetNeeded != null <==>
                      HolderFrom(old(View()), Home(), marker.bucket, marker.whichOne, 0) < |Entries()|)
    {
      if marker.capacityAtTime != currentSize {
        return Bad;
      }
      if marker.whichOne == 0 {
        circularAt := currentSize;
        WholeOffset(chains);
        if CursorOk() {
          CursorRange(chains, circularAt, resetNeeded);
        }
        return Good;
      }
      if CursorOk() {
        BackToIs(View(), marker.bucket, marker.whichOne);
      }
      GoToHandle(marker.bucket, marker.whichOne);
      return Good;
    }

    /** What a return to a bucket and a handle comes to. */
    lemma BackToIs(s: Scan<HashTblEnt>, b: nat, h: nat)
      requires Valid() && b < |chains| && s.entries == Entries() && s.mark == Marks()
      ensures var c := chains[b];
              var j := FirstWith(c, s.mark, h);
              && (j < |c| ==> c[j] in s.mark)
              && (HolderFrom(s, Home(), b, h, 0) < |s.entries| <==> j < |c|)
              && BackTo(s, Home(), b, h) ==
                 Scan(s.entries, Offset(chains, b) + j,
                      if j == |c| then s.mark else s.mark[c[j] := UnmarkOnce(c[j].postion)], s.last)
    {
      hide BackTo, HolderFrom, Home, Flat, Proper, Offset, AtHome, UnmarkOnce, Handle, FirstWith;
      HomeIsChain();
      BackToBucket(chains, b, s, Home(), h);
      ChainInFlat(chains, b);
      FirstWithIs(chains[b], s.mark, h);
    }

    /** Take one mark off the node of a bucket that carries a handle and put the cursor on it; without such a
        node, put the cursor after the bucket. */
    method GoToHandle(b: nat, whichOne: nat)
      requires Valid() && b < currentSize
      modifies this`circularAt, this`resetNeeded, nodes`postion
      ensures Valid() && CursorOk()
      ensures var c := chains[b];
              var j := FirstWith(c, old(Marks()), whichOne);
              && At() == Offset(chains, b) + j && circularAt == b + 1 && (resetNeeded != null <==> j < |c|)
              && Marks() == if j == |c| then old(Marks()) else old(Marks())[c[j] := UnmarkOnce(old(c[j].postion))]
    {
      var pp := FindHandle(b, whichOne);
      ghost var j := FirstWith(chains[b], Marks(), whichOne);
      if pp != null {
        BucketAt(|chains|, b);
        Unmark(pp);
      }
      PosInChain(chains, b + 1, j);
      circularAt := b + 1;
      resetNeeded := pp;
    }

    /** Take one mark off a node. */
    method Unmark(pp: HashTblEnt)
      requires pp in nodes
      modifies nodes`postion
      ensures Marks() == old(Marks())[pp := UnmarkOnce(old(pp.postion))]
    {
      var x := (pp.postion / 0x10000 % 0x10000 + 0xffff) % 0x10000;
      pp.postion := if x == 0 then 0 else x * 0x10000 + pp.postion % 0x10000;
    }

    /** The first node of a bucket that carries a handle. */
    method FindHandle(b: nat, whichOne: nat) returns (pp: HashTblEnt?)
      requires Valid() && b < currentSize
      ensures var j := FirstWith(chains[b], Marks(), whichOne);
              pp == if j < |chains[b]| then chains[b][j] else null
    {
      BucketAt(|chains|, b);
      ghost var c, j := chains[b], 0;
      pp := hTbl[b];
      assert c[0..] == c;
      while pp != null && pp.postion % 0x10000 != whichOne
        invariant j <= |c| && pp == (if j < |c| then c[j] else null)
        invariant FirstWith(c, Marks(), whichOne) == j + FirstWith(c[j..], Marks(), whichOne)
        decreases |c| - j
      {
        assert c[j..][1..] == c[j + 1..];
        pp := pp.next;
        j := j + 1;
      }
    }

    /** Count the linked nodes and compare with the count kept; it always agrees. */
    method AuditTable() returns (st: Status)
      requires Valid()
      ensures st == Good
    {
      var totalCnt, i := 0, 0;
      while i < currentSize
        invariant 0 <= i <= currentSize && totalCnt == Offset(chains, i)
      {
        BucketAt(|chains|, i);
        ghost var j := 0;
        var pp := hTbl[i];
        while pp != null
          invariant j <= |chains[i]| && pp == (if j < |chains[i]| then chains[i][j] else null)
          invariant totalCnt == Offset(chains, i) + j
          decreases |chains[i]| - j
        {
          totalCnt := totalCnt + 1;
          pp := pp.next;
          j := j + 1;
        }
        i := i + 1;
      }
      WholeOffset(chains);
      if totalCnt != currentUsed {
        return Bad;
      }
      return Good;
    }

    /** The state of a rehash that has moved the first `g` of the old nodes. */
    ghost predicate Growing(flat: Chain, g: nat, size: nat)
      requires g <= |flat|
      reads this, hTbl, nodes
    {
      && Valid()
      && currentSize == size
      && currentUsed == g
      && Contents() == Bindings(flat[..g])
      && Unmarked()
    }

    ghost predicate Unmarked()
      reads `chains, `nodes, nodes`postion
    {
      forall i, j {:trigger chains[i][j].postion} ::
        0 <= i < |chains| && 0 <= j < |chains[i]| ==> chains[i][j] in nodes && chains[i][j].postion == 0
    }

    /** One step of a rehash: unlink the next node of the old table and enter it into the new one. */
    method MoveOne(pp: HashTblEnt, ghost flat: Chain, ghost g: nat, ghost size: nat) returns (ret: Status)
      requires g < |flat| && pp == flat[g] && pp.key >= 0 && DistinctKeys(flat)
      requires Growing(flat, g, size) && |flat| < size - size / 4 && pp in nodes
      modifies this, hTbl, nodes
      ensures ret == Good && hTbl == old(hTbl) && nodes == old(nodes)
      ensures Growing(flat, g + 1, size)
      ensures resizeCount == old(resizeCount)
      ensures circularAt == old(circularAt) && resetNeeded == old(resetNeeded)
      ensures forall e {:trigger e.next} :: e in nodes && e != pp ==> e.next == old(e.next)
      decreases 1, 0
    {
      ghost var cs, w := chains, Bucket(pp.key, currentSize);
      MoveNext(flat, g);
      UnboundNotHung(cs, pp);
      AllBuckets();
      pp.next := null;
      pp.postion := 0;
      forall i | 0 <= i < |cs|
        ensures BucketOk(i)
      {
        assert old(BucketOk(i));
      }
      Buckets(|cs|);
      ret := EnterBucket(pp);
      forall i, j | 0 <= i < |chains| && 0 <= j < |chains[i]|
        ensures chains[i][j].postion == 0
      {
        if i == w && j > 0 {
          assert chains[i][j] == cs[i][j - 1];
        } else if i != w {
          assert chains[i][j] == cs[i][j];
        }
      }
    }

    /** Empty one chain of the old table into the new one. */
    method MoveChain(first: HashTblEnt?, ghost c: Chain, ghost flat: Chain, ghost start: nat, ghost size: nat,
                     ghost bucket: int, ghost buckets: nat)
      returns (strays: int)
      requires start + |c| <= |flat| < size - size / 4 && DistinctKeys(flat)
      requires buckets > 0 && forall j :: 0 <= j < |c| ==> c[j].key >= 0 && Bucket(c[j].key, buckets) == bucket
      requires forall j {:trigger c[j]} :: 0 <= j < |c| ==> c[j] == flat[start + j] && c[j].key >= 0 && c[j] in nodes
      requires Linked(first, c)
      requires Growing(flat, start, size)
      modifies this, hTbl, nodes
      ensures strays == 0 && hTbl == old(hTbl) && nodes == old(nodes)
      ensures Growing(flat, start + |c|, size)
      ensures resizeCount == old(resizeCount)
      ensures circularAt == old(circularAt) && resetNeeded == old(resetNeeded)
      ensures forall e {:trigger e.next} ::
                e in nodes && e.key >= 0 && Bucket(e.key, buckets) != bucket ==> e.next == old(e.next)
      decreases 1, 1
    {
      strays := 0;
      var hunt := first;
      ghost var j := 0;
      while hunt != null
        invariant j <= |c| && hunt == (if j < |c| then c[j] else null)
        invariant Growing(flat, start + j, size) && nodes == old(nodes) && hTbl == old(hTbl)
        invariant strays == 0 && resizeCount == old(resizeCount)
        invariant circularAt == old(circularAt) && resetNeeded == old(resetNeeded)
        invariant forall b {:trigger c[b].next} :: j <= b < |c| ==> c[b].next == After(c, b)
        invariant forall e {:trigger e.next} ::
                    e in nodes && e.key >= 0 && Bucket(e.key, buckets) != bucket ==> e.next == old(e.next)
        decreases |c| - j
      {
        var pp := hunt;
        hunt := pp.next;
        assert forall b :: j < b < |c| ==> c[b] != pp by {
          forall b | j < b < |c|
            ensures c[b] != pp
          {
            Differ(flat, start + b, start + j);
          }
        }
        var ret := MoveOne(pp, flat, start + j, size);
        if ret != Good {
          strays := strays + 1;
        }
        j := j + 1;
      }
    }

    /** The chains from `i` on are still linked as they were. */
    ghost predicate Links(cs: seq<Chain>, i: nat)
      reads `nodes, nodes`next
    {
      && (forall a, b :: i <= a < |cs| && 0 <= b < |cs[a]| ==> cs[a][b] in nodes)
      && (forall a :: i <= a < |cs| ==> Linked(HeadOf(cs[a]), cs[a]))
    }

    /** Empty chain `i` of the old table; the later chains stay linked. */
    method MoveChainAt(first: HashTblEnt?, ghost cs: seq<Chain>, ghost i: nat, ghost size: nat) returns (strays: int)
      requires Proper(cs) && i < |cs| && first == HeadOf(cs[i]) && Links(cs, i)
      requires Offset(cs, i) <= |Flat(cs)| < size - size / 4
      requires Growing(Flat(cs), Offset(cs, i), size)
      modifies this, hTbl, nodes
      ensures strays == 0 && hTbl == old(hTbl) && nodes == old(nodes)
      ensures Offset(cs, i + 1) <= |Flat(cs)| && Growing(Flat(cs), Offset(cs, i + 1), size)
      ensures Links(cs, i + 1)
      ensures resizeCount == old(resizeCount)
      ensures circularAt == old(circularAt) && resetNeeded == old(resetNeeded)
      decreases 1, 2
    {
      FlatDistinct(cs);
      ChainInFlat(cs, i);
      ProperAt(cs, i);
      assert forall j :: 0 <= j < |cs[i]| ==> cs[i][j].key >= 0;
      strays := MoveChain(first, cs[i], Flat(cs), Offset(cs, i), size, i, |cs|);
      forall a | i < a < |cs|
        ensures Linked(HeadOf(cs[a]), cs[a])
      {
        ProperAt(cs, a);
        assert forall j {:trigger cs[a][j].next} :: 0 <= j < |cs[a]| ==> cs[a][j].key >= 0;
      }
    }

    /** Empty every chain of the old table into the new one. */
    method MoveAll(oldTbl: array<HashTblEnt?>, ghost cs: seq<Chain>, ghost size: nat) returns (strays: int)
      requires oldTbl != hTbl && oldTbl.Length == |cs| && Proper(cs)
      requires forall i :: 0 <= i < |cs| ==> oldTbl[i] == HeadOf(cs[i])
      requires Links(cs, 0)
      requires Growing(Flat(cs), 0, size) && |Flat(cs)| < size - size / 4
      modifies this, hTbl, nodes
      ensures strays == 0 && hTbl == old(hTbl) && nodes == old(nodes)
      ensures Valid() && currentSize == size && currentUsed == |Flat(cs)|
      ensures Contents() == Bindings(Flat(cs)) && Unmarked()
      ensures resizeCount == old(resizeCount)
      ensures circularAt == old(circularAt) && resetNeeded == old(resetNeeded)
      decreases 1, 3
    {
      ghost var flat := Flat(cs);
      var i := 0;
      strays := 0;
      while i < oldTbl.Length
        invariant 0 <= i <= |cs| && Offset(cs, i) <= |flat|
        invariant Growing(flat, Offset(cs, i), size) && nodes == old(nodes) && hTbl == old(hTbl)
        invariant strays == 0 && resizeCount == old(resizeCount)
        invariant circularAt == old(circularAt) && resetNeeded == old(resetNeeded)
        invariant Links(cs, i)
      {
        var s := MoveChainAt(oldTbl[i], cs, i, size);
        strays := strays + s;
        i := i + 1;
      }
      OffsetIs(cs, |cs|);
      assert cs[..|cs|] == cs && flat[..|flat|] == flat;
    }

    /** Replace the bucket array by an empty one. */
    method FreshTable(size: nat)
      requires size >= 2 && strayCount == 0
      modifies this`hTbl, this`currentSize, this`currentUsed, this`chains
      ensures Valid() && fresh(hTbl) && currentSize == size && currentUsed == 0
      ensures Contents() == map[] && Unmarked()
    {
      currentSize := size;
      currentUsed := 0;
      hTbl := new HashTblEnt?[size](_ => null);
      chains := seq(size, _ => []);
      EmptyTable(chains);
      Buckets(|chains|);
    }

    /** Swap in an empty bucket array of the given size and move every entry over. */
    method Rehash(size: nat) returns (strays: int)
      requires Valid() && currentUsed < size - size / 4 && size >= 2
      modifies this, hTbl, nodes
      ensures Valid() && fresh(hTbl) && nodes == old(nodes) && strays == 0
      ensures currentSize == size && currentUsed == old(currentUsed)
      ensures Contents() == old(Contents()) && Unmarked()
      ensures resizeCount == old(resizeCount)
      ensures circularAt == old(circularAt) && resetNeeded == old(resetNeeded)
      decreases 1, 4
    {
      var oldTbl := hTbl;
      ghost var cs := chains;
      AllBuckets();
      forall i | 0 <= i < |cs|
        ensures Linked(HeadOf(cs[i]), cs[i]) && oldTbl[i] == HeadOf(cs[i])
        ensures forall j :: 0 <= j < |cs[i]| ==> cs[i][j] in nodes
      {
        assert BucketOk(i);
      }
      FreshTable(size);
      strays := MoveAll(oldTbl, cs, size);
    }

    /** Rehash every entry into a table at least three times the size. No entry is lost or left stray, and
        the insertions on the way never grow the table again. */
    method ReSize()
      requires Valid()
      modifies this, hTbl, nodes
      ensures Valid() && fresh(hTbl) && nodes == old(nodes)
      ensures currentSize >= 3 * old(currentSize) && currentUsed == old(currentUsed)
      ensures Contents() == old(Contents()) && Unmarked()
      ensures lastHandle == 0 && resizeCount == old(resizeCount) + 1
      ensures circularAt == old(circularAt) && resetNeeded == old(resetNeeded)
      decreases 1, 5
    {
      resizeCount := resizeCount + 1;
      var size := GrownSize(currentSize, currentUsed);
      var strays := Rehash(size);
      strayCount := strayCount + strays;
      lastHandle := 0;
    }

    /** Three times the old size, taken up to the next prime. The source retries up to ten times when that
        is not enough for the entries; it always is. */
    static method GrownSize(oldSize: nat, oldUsed: nat) returns (size: int)
      requires oldSize >= 2 && oldUsed < oldSize - oldSize / 4
      ensures size >= 3 * oldSize && forall c :: 3 * oldSize <= c < size ==> !PrimeSizes.Candidate(c)
    {
      var growth := oldSize * 2;
      size := oldSize + growth;
      var againCnt := 0;
      var again := true;
      while again
        invariant size >= 3 * oldSize && (againCnt == 0 ==> size == 3 * oldSize)
        invariant againCnt > 0 ==> !again
        invariant forall c :: 3 * oldSize <= c < size ==> !PrimeSizes.Candidate(c)
        decreases again, 10 - againCnt
      {
        againCnt := againCnt + 1;
        size := PrimeSizes.GetOptSize(size);
        again := false;
        if oldUsed + 1 >= size / 2 {
          size := size + growth;
          again := againCnt < 10;
        }
      }
    }
  }
}
