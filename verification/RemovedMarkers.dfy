/** Saved positions whose entries are removed. The header of the hash table promises that a marker is good even if its
    entry has been removed, because it is adjusted to the next one; here is exactly when it is. */
module RemovedMarkers {
  import opened HashChains
  import opened ScanSpec
  import opened HashedTable
  import opened SeqFacts

  /** Of one chain, entry `t` alone carries handle `h`. */
  ghost predicate OnlyHolder(c: Chain, mark: map<HashTblEnt, nat>, t: nat, h: nat) {
    && t < |c| && (forall i :: 0 <= i < |c| ==> c[i] in mark)
    && forall i {:trigger c[i]} :: 0 <= i < |c| ==> (Handle(mark[c[i]]) == h <==> i == t)
  }

  /** A marker for entry `t` of a chain leads on to where it should after entry `j` of the chain is removed: to its own
      entry, or if that is the one removed to the entry that followed. The removed entry must have been under the
      cursor, or have been the last of its chain; and an entry that is not removed must not be the one that the removed
      entry's mark is copied to. */
  ghost predicate Adjusted(c: Chain, j: nat, t: nat, rest: HashTblEnt?)
    requires j < |c|
  {
    if t == j then rest == c[j] || j == |c| - 1 else !(t == j + 1 && rest == c[j])
  }

  /** The search finds the only entry that carries the handle, or nothing. */
  lemma FoundIs(c: Chain, mark: map<HashTblEnt, nat>, h: nat, p: nat)
    requires p <= |c| && forall i {:trigger c[i]} :: 0 <= i < |c| ==> c[i] in mark && (Handle(mark[c[i]]) == h <==> i == p)
    ensures FirstWith(c, mark, h) == p
  {
    FirstWithIs(c, mark, h);
    if p < |c| {
      assert Handle(mark[c[p]]) == h;
    }
  }

  /** In the chain of the removed entry. Where the marker is not adjusted, the search finds nothing and the rest of the
      chain is skipped. */
  lemma InItsChain(c: Chain, mark: map<HashTblEnt, nat>, j: nat, t: nat, rest: HashTblEnt?, h: nat)
    requires DistinctKeys(c) && j < |c| && OnlyHolder(c, mark, t, h)
    ensures var found := FirstWith(Without(c, j), MarksAfter(c, j, rest, mark), h);
            && (found == (if t <= j then t else t - 1) <==> Adjusted(c, j, t, rest))
            && (!Adjusted(c, j, t, rest) ==> found == |c| - 1)
  {
    var d := Without(c, j);
    var m := MarksAfter(c, j, rest, mark);
    var place := if t <= j then t else t - 1;
    var p := if rest == c[j] && j < |d| then (if t == j then j else if t == j + 1 then |d| else place)
             else (if t == j then |d| else place);
    forall i {:trigger d[i]} | 0 <= i < |d|
      ensures d[i] in m && (Handle(m[d[i]]) == h <==> i == p)
    {
      var k := if i < j then i else i + 1;
      assert d[i] == c[k] && c[k] in mark;
      if j + 1 < |c| && k != j + 1 {
        Differ(c, k, j + 1);
      }
    }
    FoundIs(d, m, h, p);
  }

  /** In another chain nothing changes. */
  lemma InAnotherChain(cs: seq<Chain>, mark: map<HashTblEnt, nat>, w: nat, j: nat, b: nat, t: nat, rest: HashTblEnt?, h: nat)
    requires Proper(cs) && w < |cs| && j < |cs[w]| && b < |cs| && b != w && OnlyHolder(cs[b], mark, t, h)
    ensures FirstWith(cs[b], MarksAfter(cs[w], j, rest, mark), h) == t
  {
    var c := cs[b];
    var m := MarksAfter(cs[w], j, rest, mark);
    NotElsewhere(cs, w);
    forall i {:trigger c[i]} | 0 <= i < |c|
      ensures c[i] in m && (Handle(m[c[i]]) == h <==> i == t)
    {
      assert c[i] in mark;
      assert j + 1 < |cs[w]| ==> c[i] != cs[w][j + 1];
    }
    FoundIs(c, m, h, t);
  }

  /** The marker for entry `t` of bucket `b` leads on after entry `j` of bucket `w` is removed. */
  ghost predicate Leads(cs: seq<Chain>, w: nat, j: nat, b: nat, t: nat, rest: HashTblEnt?)
    requires w < |cs| && j < |cs[w]|
  {
    b != w || Adjusted(cs[w], j, t, rest)
  }

  /** Over the whole table: the place that a return comes to, against the place in the table without the removed entry
      of the marker's own entry or, if that is the one removed, of the entry that followed it. */
  lemma ReturnSpot(cs: seq<Chain>, mark: map<HashTblEnt, nat>, w: nat, j: nat, b: nat, t: nat, rest: HashTblEnt?, h: nat)
    requires Proper(cs) && w < |cs| && j < |cs[w]| && b < |cs| && OnlyHolder(cs[b], mark, t, h)
    ensures var ds, m := RemoveAt(cs, w, j), MarksAfter(cs[w], j, rest, mark);
            var gone, own := Offset(cs, w) + j, Offset(cs, b) + t;
            && (Offset(ds, b) + FirstWith(ds[b], m, h) == (if gone < own then own - 1 else own) <==>
                  Leads(cs, w, j, b, t, rest))
            && (!Leads(cs, w, j, b, t, rest) ==> Offset(ds, b) + FirstWith(ds[b], m, h) == Offset(ds, b + 1))
  {
    OffsetAfterUpdate(cs, w, Without(cs[w], j), b);
    if b == w {
      ProperAt(cs, w);
      InItsChain(cs[w], mark, j, t, rest, h);
    } else {
      InAnotherChain(cs, mark, w, j, b, t, rest, h);
      if w < b {
        OffsetMonotone(cs, w, b);
      } else {
        OffsetMonotone(cs, b, w);
      }
    }
  }

  /** A removal followed by a return to a position saved before, with the marker's handle on entry `t` of its bucket
      alone. The scan goes on with the marker's entry, or with the one that followed it if it is the one removed,
      exactly when the marker was adjusted; otherwise it goes on after the marker's bucket. */
  method ReturnAfterRemoval(o: HashedTbl, key: int, keyP: KeyMem, marker: HashTableHandle, ghost t: nat) returns (st: Status)
    requires o.Valid() && o.CursorOk() && (key, keyP) in o.Contents()
    requires marker.capacityAtTime == o.currentSize && marker.whichOne != 0 && marker.bucket < o.currentSize
    requires OnlyHolder(o.chains[marker.bucket], o.Marks(), t, marker.whichOne)
    modifies o`chains, o`currentUsed, o`circularAt, o`resetNeeded, o.hTbl, o.nodes
    ensures st == Good && o.Valid() && o.CursorOk()
    ensures key >= 0
    ensures var gone := Spot(old(o.Entries()), (key, keyP));
            var own := Offset(old(o.chains), marker.bucket) + t;
            var e := old(o.Entries())[gone];
            var w := Bucket(key, o.currentSize);
            && o.Entries() == Without(old(o.Entries()), gone)
            && e in old(o.chains)[w] && o.chains == RemoveAt(old(o.chains), w, IndexIn(old(o.chains)[w], e))
            && var leads := Leads(old(o.chains), w, IndexIn(old(o.chains)[w], e), marker.bucket, t, old(o.resetNeeded));
               && (o.At() == (if gone < own then own - 1 else own) <==> leads)
               && (!leads ==> o.At() == Offset(o.chains, marker.bucket + 1))
  {
    hide Bindings, Flat, Proper, Pos, CursorIn;
    ghost var cs, mark, rest, h := o.chains, o.Marks(), o.resetNeeded, marker.whichOne;
    ghost var gone := Spot(o.Entries(), (key, keyP));
    ghost var e := o.Entries()[gone];
    var r := o.RemoveKeyed(key, keyP);
    ghost var w := Bucket(key, o.currentSize);
    ghost var j := IndexIn(cs[w], e);
    SpotOf(cs, w, j);
    ReturnSpot(cs, mark, w, j, marker.bucket, t, rest, h);
    st := o.ReturnToPostion(marker);
  }

  /** A table whose only entries are in bucket 0. */
  ghost predicate OneChain(o: HashedTbl, n: nat)
    reads o, o.hTbl, o.nodes
  {
    && o.Valid() && o.currentUsed == n && o.currentSize >= 20
    && |o.chains[0]| == n && Flat(o.chains) == o.chains[0]
    && forall e {:trigger e.postion} :: e in o.nodes ==> e.postion == 0
  }

  lemma AllInFirst(cs: seq<Chain>)
    requires cs != [] && |Flat(cs)| == |cs[0]|
    ensures Flat(cs) == cs[0]
  {
    FlatAround(cs, 0);
    assert cs[..0] == [];
  }

  method PutFirst(o: HashedTbl, keyP: KeyMem, data: Datum)
    requires OneChain(o, |o.Entries()|) && |o.Entries()| < 3 && (0, keyP) !in o.Contents()
    modifies o, o.hTbl, o.nodes
    ensures OneChain(o, old(|o.Entries()|) + 1) && (o.hTbl == old(o.hTbl) || fresh(o.hTbl)) && fresh(o.nodes - old(o.nodes))
    ensures o.Contents() == old(o.Contents())[(0, keyP) := data]
    ensures o.chains[0][1..] == old(o.chains[0]) && o.chains[0][0].Id() == (0, keyP)
  {
    hide Flat, Bindings, Proper;
    ghost var cs := o.chains;
    var st := o.EnterKeyed(0, data, keyP);
    assert Bucket(0, o.currentSize) == 0;
    AllInFirst(o.chains);
  }

  /** Marking the first of a chain of unmarked entries. */
  lemma MarkedFirst(c: Chain, mark: map<HashTblEnt, nat>, last: nat)
    requires DistinctKeys(c) && c != [] && forall i {:trigger c[i]} :: 0 <= i < |c| ==> c[i] in mark && mark[c[i]] == 0
    ensures var m := mark[c[0] := MarkOnce(0, last)];
            Handle(m[c[0]]) != 0 && OnlyHolder(c, m, 0, Handle(m[c[0]]))
  {
    var m := mark[c[0] := MarkOnce(0, last)];
    assert Handle(m[c[0]]) == NextHandle(last);
    forall i {:trigger c[i]} | 0 <= i < |c|
      ensures c[i] in m && (Handle(m[c[i]]) == Handle(m[c[0]]) <==> i == 0)
    {
      if i > 0 {
        Differ(c, 0, i);
      }
    }
  }

  /** Past the first entry the cursor is not on it. */
  lemma NotOnFirst(cs: seq<Chain>, at: int, rest: HashTblEnt?)
    requires Proper(cs) && cs != [] && cs[0] != [] && CursorIn(cs, at, rest) && Pos(cs, at, rest) > 0
    ensures rest != cs[0][0]
  {
    NotElsewhere(cs, 0);
    ProperAt(cs, 0);
    if rest != null {
      var t := IndexIn(cs[at - 1], rest);
      if at == 1 {
        Differ(cs[0], 0, t);
      } else {
        assert cs[at - 1][t] != cs[0][0];
      }
    }
  }

  /** The first entry of the table is at the head of its only chain. */
  lemma FirstIs(o: HashedTbl, key: Key)
    requires OneChain(o, 3) && o.chains[0][0].Id() == key
    ensures key in o.Contents() && Spot(o.Entries(), key) == 0 && IndexIn(o.chains[0], o.chains[0][0]) == 0
    ensures DistinctKeys(o.chains[0]) && Proper(o.chains) && |o.Entries()| == 3
    ensures o.chains[0][0] in o.Home() && o.Home()[o.chains[0][0]] == 0
    ensures forall i {:trigger o.chains[0][i]} :: 0 <= i < 3 ==>
              o.chains[0][i] in o.Marks() && o.Marks()[o.chains[0][i]] == 0
  {
    SpotOf(o.chains, 0, 0);
    ProperAt(o.chains, 0);
    IndexUnique(o.chains[0], o.chains[0][0], 0);
    o.HomeIsChain();
    o.AllBuckets();
    assert o.BucketOk(0);
  }

  /** The position of the first entry is saved and the scan goes on to the second. */
  method SaveFirst(o: HashedTbl) returns (marker: HashTableHandle)
    requires OneChain(o, 3)
    modifies o`lastHandle, o`circularAt, o`resetNeeded, o.nodes`postion
    ensures o.Valid() && o.CursorOk() && o.At() == 1 && fresh(marker)
    ensures marker.capacityAtTime == o.currentSize && marker.whichOne != 0 && marker.bucket == 0
    ensures OnlyHolder(o.chains[0], o.Marks(), 0, marker.whichOne)
    ensures o.resetNeeded != o.chains[0][0]
  {
    hide Flat, Bindings, Proper;
    FirstIs(o, o.chains[0][0].Id());
    o.Rewind();
    marker := new HashTableHandle();
    MarkedFirst(o.chains[0], o.Marks(), o.lastHandle);
    var saved := o.SavePostion(marker);
    var next := o.SearchNext();
    NotOnFirst(o.chains, o.circularAt, o.resetNeeded);
  }

  /** Then the first is removed, and the scan goes back. */
  method RemoveSaved(o: HashedTbl, keyP: KeyMem) returns (r: Option<(KeyMem, Datum)>)
    requires OneChain(o, 3) && o.chains[0][0].Id() == (0, keyP)
    modifies o, o.hTbl, o.nodes
    ensures o.Valid() && |o.Entries()| == 2 && r == None
  {
    hide Flat, Bindings, Proper, HashedTbl.Valid;
    FirstIs(o, (0, keyP));
    var marker := SaveFirst(o);
    var st := ReturnAfterRemoval(o, 0, keyP, marker, 0);
    assert Offset(o.chains, 1) == 2;
    r := o.SearchNext();
  }

  /** A failing table: three entries of one bucket. The position of the first is saved, the scan goes on to the second,
      the first is removed; back at the saved position the scan reports nothing, with two entries still to come. */
  method SkipsTheRest(k1: KeyMem, k2: KeyMem, k3: KeyMem) returns (o: HashedTbl, r: Option<(KeyMem, Datum)>)
    requires k1 != k2 && k2 != k3 && k1 != k3
    ensures o.Valid() && |o.Entries()| == 2 && r == None
  {
    hide Flat, Proper, RemoveAt, Without;
    o := new HashedTbl(10);
    ChainInFlat(o.chains, 0);
    AllInFirst(o.chains);
    PutFirst(o, k1, 1);
    PutFirst(o, k2, 2);
    PutFirst(o, k3, 3);
    r := RemoveSaved(o, k3);
  }
}
