/** Positions saved at the end of a hash table. Such a save records no entry and leaves the handle of the marker as it
    was; here is exactly when a return to it comes to the end again. */
module EndMarkers {
  import opened HashChains
  import opened HashedTable
  import opened MarkRuns
  import opened RemovedMarkers
  import opened ScanFacts
  import opened ScanSpec
  import opened TableRuns

  /** Whether a return to a marker saved at the end comes to the end: with handle zero when the cursor holds on to no
      entry, and with an old handle when no entry of the last bucket carries it. */
  ghost predicate EndComesBack(w: World<HashTblEnt>, last: nat, h: nat) {
    if h == 0 then !w.held else forall k: nat :: k < |w.scan.entries| ==> !Carries(w.scan, w.home, last, h, k)
  }

  lemma NoneInLast(w: World<HashTblEnt>, b: nat, h: nat)
    ensures HolderFrom(w.scan, w.home, b, h, 0) < |w.scan.entries| <==>
            exists k: nat :: k < |w.scan.entries| && Carries(w.scan, w.home, b, h, k)
  {
    NoneBefore(w.scan, w.home, b, h, 0);
    HolderBelow(w.scan, w.home, b, h, 0);
  }

  /** A return to a marker for the last bucket, whatever handle is in it. */
  method ReturnToEnd(p: Scanner, marker: HashTableHandle) returns (st: Status)
    requires p.Valid() && marker.capacityAtTime == p.table.currentSize == marker.bucket + 1
    modifies p.table`circularAt, p.table`resetNeeded, p.table.nodes`postion
    ensures st == Good && p.table.Valid()
    ensures (p.table.CursorOk() && p.table.At() == |p.table.Entries()|) <==>
            EndComesBack(old(p.world), p.table.currentSize - 1, old(marker.whichOne))
  {
    hide Carries, HolderFrom, BackTo, Bindings, Flat, Proper, HashedTbl.Home, HashedTbl.BucketsOk, Handle, MarkOnce, Handled,
      SameBucket, UnmarkOnce, FirstWith, Peek;
    NoneInLast(p.world, marker.bucket, marker.whichOne);
    WholeOffset(p.table.chains);
    st := p.table.ReturnToPostion(marker);
    if p.table.CursorOk() {
      CursorRange(p.table.chains, p.table.circularAt, p.table.resetNeeded);
    }
  }

  /** A save at the end in any marker, used before or not, any run of calls, and a return to that marker. */
  method SaveRunReturn(p: Scanner, cs: seq<Call>, marker: HashTableHandle) returns (st: Status)
    requires p.Valid() && p.world.scan.pos == |p.world.scan.entries| && marker !in p.markers
    modifies p, p.table, p.table.hTbl, p.table.nodes, marker
    ensures st == Good && p.table.Valid()
    ensures var v := ApplyAll(old(p.world), OpsOf(old(p.world), cs));
            (p.table.CursorOk() && p.table.At() == |p.table.Entries()|) <==>
            EndComesBack(v, p.table.currentSize - 1, old(marker.whichOne))
  {
    hide Apply, ApplyAll, OpsOf, Bindings, Flat, Proper, HashedTbl.BucketsOk, Handle, MarkOnce, Handled, SameBucket,
      EndComesBack, Reported, CursorIn, Pos;
    var saved := p.table.SavePostion(marker);
    var rs := p.Run(cs);
    st := ReturnToEnd(p, marker);
  }

  // ----- runs in which the promise fails -----

  /** A table of two entries, both in bucket 0. */
  method TwoInOne(k1: KeyMem, k2: KeyMem) returns (o: HashedTbl)
    requires k1 != k2
    ensures fresh(o) && fresh(o.hTbl) && fresh(o.nodes) && OneChain(o, 2)
  {
    hide Flat, Proper, InsertAt;
    o := new HashedTbl(10);
    ChainInFlat(o.chains, 0);
    AllInFirst(o.chains);
    PutFirst(o, k1, 1);
    PutFirst(o, k2, 2);
  }

  /** What is where in it. */
  lemma TwoAre(o: HashedTbl)
    requires OneChain(o, 2)
    ensures |o.Entries()| == 2 && SameBucket(o.Entries(), o.Home(), 0)
    ensures o.chains[o.currentSize - 1] == [] && Offset(o.chains, o.currentSize - 1) == 2
    ensures o.Entries()[0] in o.Home() && o.Home()[o.Entries()[0]] == 0
  {
    hide Flat, Proper;
    o.HomeIsChain();
    SameChain(o.chains, o.Home(), 0, 0);
    OffsetMonotone(o.chains, 0, o.currentSize - 1);
    OffsetMonotone(o.chains, o.currentSize - 1, o.currentSize);
    WholeOffset(o.chains);
    assert o.chains[0][0] == o.Entries()[0];
  }

  /** The scan taken from its start to its end, and saved there. */
  method SaveAtEnd(o: HashedTbl, marker: HashTableHandle)
    requires o.Valid() && |o.Entries()| == 2
    modifies o`circularAt, o`resetNeeded, o`lastHandle, o.nodes`postion, marker
    ensures o.Valid() && o.CursorOk() && o.At() == 2 && o.Marks() == old(o.Marks())
    ensures marker.capacityAtTime == o.currentSize && marker.bucket == o.currentSize - 1
    ensures marker.whichOne == old(marker.whichOne)
  {
    hide HashedTbl.Valid, Flat, CursorIn, Pos, SameBucket, HashedTbl.Home, Proper, MarkOnce, Handle, Seen, Bindings, Peek;
    o.Rewind();
    var first := o.SearchNext();
    var second := o.SearchNext();
    var st := o.SavePostion(marker);
  }

  /** And then on to the second entry again. */
  method OffTheEnd(o: HashedTbl, marker: HashTableHandle)
    requires o.Valid() && |o.Entries()| == 2 && SameBucket(o.Entries(), o.Home(), 0)
    modifies o`circularAt, o`resetNeeded, o`lastHandle, o.nodes`postion, marker
    ensures o.Valid() && o.CursorOk() && o.At() == 1 && o.resetNeeded != null && o.Marks() == old(o.Marks())
    ensures marker.capacityAtTime == o.currentSize && marker.bucket == o.currentSize - 1
    ensures marker.whichOne == old(marker.whichOne)
  {
    hide HashedTbl.Valid, Flat, CursorIn, Pos, SameBucket, HashedTbl.Home, Proper, MarkOnce, Handle, Seen, Bindings, Peek;
    SaveAtEnd(o, marker);
    o.Rewind();
    var first := o.SearchNext();
  }

  /** With a marker never used before the end is lost: the cursor still holds on to the second entry. */
  method EndLost(k1: KeyMem, k2: KeyMem) returns (o: HashedTbl)
    requires k1 != k2
    ensures o.Valid() && !(o.CursorOk() && o.At() == |o.Entries()|)
  {
    hide HashedTbl.Valid, HashedTbl.CursorOk, Flat, SameBucket;
    o := TwoInOne(k1, k2);
    TwoAre(o);
    var marker := new HashTableHandle();
    OffTheEnd(o, marker);
    var st := o.ReturnToPostion(marker);
  }

  /** With a marker used before the end comes back although the cursor holds on to an entry: the handle left in the marker
      is that of an entry in another bucket than the last. */
  method EndRegained(k1: KeyMem, k2: KeyMem) returns (o: HashedTbl)
    requires k1 != k2
    ensures o.Valid() && o.CursorOk() && o.At() == |o.Entries()| == 2
  {
    hide HashedTbl.Valid, HashedTbl.CursorOk, Flat, SameBucket, MarkOnce;
    o := TwoInOne(k1, k2);
    TwoAre(o);
    var marker := new HashTableHandle();
    o.Rewind();
    HasHandle(o);
    var saved := o.SavePostion(marker);
    OffTheEnd(o, marker);
    var st := o.ReturnToPostion(marker);
  }

  lemma HasHandle(o: HashedTbl)
    requires OneChain(o, 2)
    ensures forall e, last: nat :: e in o.Marks() ==> Handle(MarkOnce(o.Marks()[e], last)) != 0
  {
  }

  /** One entry, in the last bucket. */
  method OneInLast(keyP: KeyMem) returns (o: HashedTbl)
    ensures fresh(o) && fresh(o.hTbl) && fresh(o.nodes) && o.Valid() && o.currentSize == |o.chains| > 0
    ensures var c := o.chains[o.currentSize - 1];
            |c| == 1 && o.Entries() == c && c[0] in o.Marks() && o.Marks()[c[0]] == 0
    ensures Offset(o.chains, o.currentSize - 1) == 0
  {
    hide Flat, Proper, Bindings, HashedTbl.BucketsOk, Offset;
    o := new HashedTbl(10);
    var last := o.currentSize - 1;
    ChainInFlat(o.chains, last);
    var st := o.EnterKeyed(last, 1, keyP);
    assert Bucket(last, o.currentSize) == last;
    OnlyInLast(o.chains);
  }

  lemma OnlyInLast(cs: seq<Chain>)
    requires cs != [] && |Flat(cs)| == |cs[|cs| - 1]|
    ensures Flat(cs) == cs[|cs| - 1] && Offset(cs, |cs| - 1) == 0
  {
    WholeOffset(cs);
    FlatAround(cs, |cs| - 1);
    assert cs[|cs|..] == [];
  }

  /** A marker used for the only entry, and then for the end. */
  method SaveTwice(o: HashedTbl, marker: HashTableHandle)
    requires o.Valid() && |o.Entries()| == 1 && o.Entries()[0] in o.Marks() && o.Marks()[o.Entries()[0]] == 0
    modifies o`circularAt, o`resetNeeded, o`lastHandle, o.nodes`postion, marker
    ensures o.Valid() && o.CursorOk() && o.At() == 1 && o.resetNeeded == null
    ensures marker.capacityAtTime == o.currentSize && marker.bucket == o.currentSize - 1
    ensures marker.whichOne != 0 && o.Entries()[0] in o.Marks() && Handle(o.Marks()[o.Entries()[0]]) == marker.whichOne
  {
    hide HashedTbl.Valid, HashedTbl.CursorOk, Flat, MarkOnce, Handle, Proper, Bindings, Pos, CursorIn, SameBucket, Seen, Peek,
      HashedTbl.BucketsOk, HashedTbl.Home;
    o.Rewind();
    OldHandle(o.lastHandle);
    var st := o.SavePostion(marker);
    AloneInBucket(o);
    var first := o.SearchNext();
    st := o.SavePostion(marker);
  }

  /** With a marker used before, and the cursor holding on to nothing, the end is lost: the entry whose handle is left in
      the marker is in the last bucket. */
  method EndTaken(keyP: KeyMem) returns (o: HashedTbl, held: bool)
    ensures o.Valid() && o.CursorOk() && o.At() == 0 && |o.Entries()| == 1 && !held
  {
    hide HashedTbl.Valid, HashedTbl.CursorOk, Flat, Handle, Proper, Bindings, BackTo, HolderFrom, UnmarkOnce, FirstWith;
    o := OneInLast(keyP);
    ghost var c := o.chains[o.currentSize - 1];
    var marker := new HashTableHandle();
    SaveTwice(o, marker);
    held := o.resetNeeded != null;
    FirstOfOne(c, o.Marks(), marker.whichOne);
    var st := o.ReturnToPostion(marker);
  }

  lemma AloneInBucket(o: HashedTbl)
    requires |o.Entries()| == 1 && o.currentSize > 0
    ensures !SameBucket(o.Entries(), o.Home(), 0)
  {
  }

  lemma FirstOfOne(c: Chain, mark: map<HashTblEnt, nat>, h: nat)
    requires |c| == 1 && c[0] in mark && Handle(mark[c[0]]) == h
    ensures FirstWith(c, mark, h) == 0
  {
  }

  lemma OldHandle(last: nat)
    ensures Handle(MarkOnce(0, last)) != 0
  {
  }
}
