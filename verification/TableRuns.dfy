/** Programs that scan a hash table, save positions in it, return to them and remove entries. */
module TableRuns {
  import opened HashChains
  import opened HashedTable
  import opened MarkRuns
  import opened ScanFacts
  import opened ScanSpec
  import opened SeqFacts

  /** What a program may ask of the table. */
  datatype Call = Next | Prev | Rewind | Save | Return(i: nat) | Remove(key: int, keyP: KeyMem)

  /** The operation on the table as a scan. A removal of a key that is not bound is one of no entry. */
  ghost function OpOf(w: World<HashTblEnt>, c: Call): Op {
    match c
    case Next => GoNext
    case Prev => GoPrev
    case Rewind => GoRewind
    case Save => DoSave
    case Return(i) => DoReturn(i)
    case Remove(key, keyP) =>
      DoRemove(if (key, keyP) in Bindings(w.scan.entries) then Spot(w.scan.entries, (key, keyP)) else |w.scan.entries|)
  }

  /** The operations of a run of calls. */
  ghost function OpsOf(w: World<HashTblEnt>, cs: seq<Call>): seq<Op> {
    if cs == [] then []
    else
      var before := OpsOf(w, cs[..|cs| - 1]);
      before + [OpOf(ApplyAll(w, before), cs[|cs| - 1])]
  }

  /** A removal from the chains is one from the scan: cursor, marks and hold move alike. */
  lemma RemovalIs(cs: seq<Chain>, at: int, rest: HashTblEnt?, w: World<HashTblEnt>, b: nat, j: nat)
    requires Proper(cs) && CursorIn(cs, at, rest) && b < |cs| && j < |cs[b]|
    requires w.scan.entries == Flat(cs) && w.scan.pos == Pos(cs, at, rest) && AtHome(cs, w.home)
    requires w.held <==> rest != null
    ensures var g := Offset(cs, b) + j;
            && g < |Flat(cs)|
            && MarksAfter(cs[b], j, rest, w.scan.mark) == MovedMarks(w, g)
            && (RestAfter(cs, b, j, rest) != null <==> RemoveEntry(w, g).held)
            && RemoveEntry(w, g).scan == Drop(w.scan, g).(mark := MarksAfter(cs[b], j, rest, w.scan.mark))
  {
    hide Proper, Flat, CursorIn, Pos, Offset, Without, AtHome;
    var g := Offset(cs, b) + j;
    RemoveFlat(cs, b, j);
    SameChain(cs, w.home, b, j);
    CursorRange(cs, at, rest);
    FlatDistinct(cs);
    if rest != null && g != w.scan.pos {
      Differ(Flat(cs), g, w.scan.pos);
    }
  }

  /** The same for a removal by key, with what becomes of the markers. */
  lemma RemovalByKey(cs: seq<Chain>, at: int, rest: HashTblEnt?, w: World<HashTblEnt>, k: Key, b: nat)
    requires Proper(cs) && CursorIn(cs, at, rest) && b < |cs| && k in Bindings(Flat(cs))
    requires w.scan.entries == Flat(cs) && w.scan.pos == Pos(cs, at, rest) && AtHome(cs, w.home)
    requires (w.held <==> rest != null) && Flat(cs)[Spot(Flat(cs), k)] in cs[b]
    ensures var g := Spot(Flat(cs), k);
            var j := IndexIn(cs[b], Flat(cs)[g]);
            && MarksAfter(cs[b], j, rest, w.scan.mark) == RemoveEntry(w, g).scan.mark
            && (RestAfter(cs, b, j, rest) != null <==> RemoveEntry(w, g).held)
            && RemoveEntry(w, g).scan == Drop(w.scan, g).(mark := MarksAfter(cs[b], j, rest, w.scan.mark))
            && RemoveEntry(w, g).home == w.home && (Handled(w) ==> Handled(RemoveEntry(w, g)))
  {
    hide Proper, CursorIn, Pos, AtHome, Flat, Bindings, MarksAfter, RestAfter, RemoveEntry, Drop, Handled, Offset;
    var g := Spot(Flat(cs), k);
    var j := IndexIn(cs[b], Flat(cs)[g]);
    SpotOf(cs, b, j);
    RemovalIs(cs, at, rest, w, b, j);
    if Handled(w) {
      RemoveHandled(w, g);
    }
    KeepsHome(w, g);
  }

  /** What a call reports. */
  ghost function Reported(w: World<HashTblEnt>, c: Call): Option<(KeyMem, Datum)> {
    match c
    case Next => Seen(Peek(w.scan))
    case Prev => if w.scan.pos == 0 then None else Seen(Peek(Backward(w.scan)))
    case _ => None
  }

  class Scanner {
    const table: HashedTbl
    /** The markers of the positions outstanding. */
    var markers: seq<HashTableHandle>
    ghost var world: World<HashTblEnt>

    /** The state of the table and of the markers is that of the scan. */
    ghost predicate Valid()
      reads this, table, table.hTbl, table.nodes, markers
    {
      && table.Valid() && table.CursorOk()
      && world.scan == table.View() && world.home == table.Home() && (world.held <==> table.resetNeeded != null)
      && Handled(world) && MarkersOk(markers, world.out, table.currentSize)
    }

    constructor (t: HashedTbl)
      requires t.Valid() && t.CursorOk()
      requires forall e :: e in t.Entries() && e in t.Marks() && t.Marks()[e] != 0 ==> Handle(t.Marks()[e]) != 0
      ensures Valid() && table == t && markers == []
      ensures world == World(t.View(), t.Home(), t.resetNeeded != null, [], 0)
    {
      table, markers := t, [];
      world := World(t.View(), t.Home(), t.resetNeeded != null, [], 0);
    }

    method GoOn() returns (r: Option<(KeyMem, Datum)>)
      requires Valid()
      modifies this`world, table`circularAt, table`resetNeeded
      ensures Valid() && world == Apply(old(world), GoNext) && r == Seen(Peek(old(world.scan)))
    {
      hide Handled, MarkersOk, SameBucket, HashedTbl.Valid, HashedTbl.CursorOk;
      table.ViewIsAScan();
      r := table.SearchNext();
      world := Apply(world, GoNext);
      SameMarks(old(world), world);
    }

    method GoBack() returns (r: Option<(KeyMem, Datum)>)
      requires Valid()
      modifies this`world, table`circularAt, table`resetNeeded
      ensures Valid() && world == Apply(old(world), GoPrev)
      ensures r == if old(world.scan.pos) == 0 then None else Seen(Peek(Backward(old(world.scan))))
    {
      hide Handled, MarkersOk, SameBucket, HashedTbl.Valid, HashedTbl.CursorOk;
      r := table.SearchPrev();
      world := Apply(world, GoPrev);
      SameMarks(old(world), world);
    }

    method StartOver()
      requires Valid()
      modifies this`world, table`circularAt, table`resetNeeded
      ensures Valid() && world == Apply(old(world), GoRewind)
    {
      hide Handled, MarkersOk, SameBucket, HashedTbl.Valid, HashedTbl.CursorOk;
      table.Rewind();
      world := Apply(world, GoRewind);
      SameMarks(old(world), world);
    }

    lemma SameMarks(v: World<HashTblEnt>, w: World<HashTblEnt>)
      requires v.scan.entries == w.scan.entries && v.scan.mark == w.scan.mark
      ensures Handled(v) ==> Handled(w)
    {
    }

    /** A position saved in a new marker, which is kept unless the scan is at the end. */
    method SaveHere()
      requires Valid()
      modifies this, table`lastHandle, table.nodes`postion
      ensures Valid() && world == Apply(old(world), DoSave) && (forall m :: m in markers ==> m in old(markers) || fresh(m))
    {
      hide HashedTbl.Valid, HashedTbl.CursorOk, MarkOnce, Handle, MarkersOk, Handled, Housed, HashedTbl.Home, Distinct,
        AtHome, Flat, Proper, Apply, ScanSpec.Save, Pos, CursorIn, Bindings, HashedTbl.BucketsOk, SameBucket;
      table.ViewIsAScan();
      SaveHandled(world);
      SavedIs(world);
      ghost var was, next := world, Apply(world, DoSave);
      var marker := new HashTableHandle();
      var st := table.SavePostion(marker);
      if st == Good {
        MoreMarkers(markers, was.out, table.currentSize, marker, next.out[|was.out|]);
        markers := markers + [marker];
      }
      world := next;
    }

    /** A return to a position outstanding, whose marker is then given up. */
    method ReturnTo(i: nat)
      requires Valid()
      modifies this, table`circularAt, table`resetNeeded, table.nodes`postion
      ensures Valid() && world == Apply(old(world), DoReturn(i)) && (forall m :: m in markers ==> m in old(markers))
    {
      hide HashedTbl.Valid, HashedTbl.CursorOk, UnmarkOnce, Handle, HolderFrom, BackTo, MarkersOk, Handled, Without;
      MarkerCount(markers, world.out, table.currentSize);
      ghost var was, next := world, Apply(world, DoReturn(i));
      if i < |markers| {
        var marker := markers[i];
        MarkerIs(markers, world.out, table.currentSize, i);
        ReturnHandled(world, i);
        var st := table.ReturnToPostion(marker);
        LessMarkers(markers, was.out, table.currentSize, i);
        LessOf(markers, i);
        markers := Without(markers, i);
      }
      world := next;
    }

    /** An entry removed by its key, if it is there. */
    method TakeOut(key: int, keyP: KeyMem) returns (r: Option<Datum>)
      requires Valid()
      modifies this`world, table`chains, table`currentUsed, table`resetNeeded, table.hTbl, table.nodes
      ensures Valid() && world == Apply(old(world), OpOf(old(world), Remove(key, keyP)))
      ensures (key, keyP) !in table.Contents()
    {
      hide Proper, CursorIn, Pos, Handle, MarkersOk, Handled, Without, MarksAfter, RestAfter, Bindings, Flat, RemoveEntry,
        Housed, AtHome, Distinct, Apply, OpOf;
      RemoveIs(world, key, keyP);
      ghost var was, next := world, Apply(world, OpOf(world, Remove(key, keyP)));
      ghost var at, rest, cs := table.circularAt, table.resetNeeded, table.chains;
      table.ViewIsAScan();
      assert Proper(cs);
      r := table.RemoveKeyed(key, keyP);
      if (key, keyP) in Bindings(Flat(cs)) {
        RemovalByKey(cs, at, rest, was, (key, keyP), Bucket(key, table.currentSize));
        MovedMarkers(markers, was, table.currentSize, Spot(Flat(cs), (key, keyP)));
      }
      world := next;
    }

    /** One call. */
    method Do(c: Call) returns (r: Option<(KeyMem, Datum)>)
      requires Valid()
      modifies this, table, table.hTbl, table.nodes
      ensures Valid() && world == Apply(old(world), OpOf(old(world), c)) && r == Reported(old(world), c)
      ensures table.hTbl == old(table.hTbl) && table.nodes == old(table.nodes) && table.currentSize == old(table.currentSize)
      ensures forall m :: m in markers ==> m in old(markers) || fresh(m)
    {
      hide Valid, Apply, Peek, Seen;
      r := None;
      match c
      case Next => r := GoOn();
      case Prev => r := GoBack();
      case Rewind => StartOver();
      case Save => SaveHere();
      case Return(i) => ReturnTo(i);
      case Remove(key, keyP) => var d := TakeOut(key, keyP);
    }

    /** A run of calls does to the table and to the positions saved what it does to the scan, and reports the same. */
    method Run(cs: seq<Call>) returns (rs: seq<Option<(KeyMem, Datum)>>)
      requires Valid()
      modifies this, table, table.hTbl, table.nodes
      ensures Valid() && world == ApplyAll(old(world), OpsOf(old(world), cs)) && |rs| == |cs|
      ensures forall k {:trigger rs[k]} :: 0 <= k < |cs| ==>
                rs[k] == Reported(ApplyAll(old(world), OpsOf(old(world), cs[..k])), cs[k])
      ensures table.hTbl == old(table.hTbl) && table.nodes == old(table.nodes) && table.currentSize == old(table.currentSize)
      ensures forall m :: m in markers ==> m in old(markers) || fresh(m)
    {
      hide Valid, Apply, Reported, OpOf;
      rs := [];
      var k := 0;
      while k < |cs|
        invariant k <= |cs| && |rs| == k && Valid()
        invariant world == ApplyAll(old(world), OpsOf(old(world), cs[..k]))
        invariant forall j {:trigger rs[j]} :: 0 <= j < k ==>
                    rs[j] == Reported(ApplyAll(old(world), OpsOf(old(world), cs[..j])), cs[j])
        invariant table.hTbl == old(table.hTbl) && table.nodes == old(table.nodes)
        invariant table.currentSize == old(table.currentSize)
        invariant forall m :: m in markers ==> m in old(markers) || fresh(m)
      {
        OneMoreCall(old(world), cs[..k], cs[k]);
        assert cs[..k + 1] == cs[..k] + [cs[k]];
        var r := Do(cs[k]);
        rs := rs + [r];
        k := k + 1;
      }
      assert cs[..k] == cs;
    }

    /** Exactly when a marker comes back, on the table: from one without marks, over every run of calls with fewer than
        65536 saves, and for every position then outstanding. */
    method RunThenReturn(cs: seq<Call>, i: nat) returns (rs: seq<Option<(KeyMem, Datum)>>)
      requires Valid() && MarkRuns.Unmarked(world)
      requires var v := ApplyAll(world, OpsOf(world, cs)); v.saves < SLOTS && i < |v.out|
      modifies this, table, table.hTbl, table.nodes
      ensures Valid()
      ensures var v := ApplyAll(old(world), OpsOf(old(world), cs));
              var t, es := v.out[i], v.scan.entries;
              && table.Entries() == es && t.spot <= |es| && (t.spot < |es| ==> es[t.spot] in v.home)
              && (table.At() == t.spot <==> !t.adrift || t.spot == |es| || v.home[es[t.spot]] != t.bucket)
    {
      MarkerComesBack(world, OpsOf(world, cs), i);
      hide Apply, MarkRuns.Unmarked;
      rs := Run(cs);
      ReturnKeepsEntries(world, i);
      ReturnTo(i);
    }
  }

  lemma ReturnKeepsEntries(w: World<HashTblEnt>, i: nat)
    ensures Apply(w, DoReturn(i)).scan.entries == w.scan.entries
  {
    hide HolderFrom, PastFrom, UnmarkOnce;
  }

  lemma OneMoreCall(w: World<HashTblEnt>, cs: seq<Call>, c: Call)
    ensures var v := ApplyAll(w, OpsOf(w, cs));
            && OpsOf(w, cs + [c]) == OpsOf(w, cs) + [OpOf(v, c)]
            && ApplyAll(w, OpsOf(w, cs + [c])) == Apply(v, OpOf(v, c))
  {
    hide Apply, OpOf;
    var more := OpsOf(w, cs + [c]);
    assert (cs + [c])[..|cs|] == cs;
    assert more[..|more| - 1] == OpsOf(w, cs);
  }

  lemma LessOf<T>(s: seq<T>, i: nat)
    requires i < |s|
    ensures forall m :: m in Without(s, i) ==> m in s
  {
  }

  lemma KeepsHome(w: World<HashTblEnt>, g: nat)
    requires g < |w.scan.entries|
    ensures RemoveEntry(w, g).home == w.home
  {
  }

  lemma RemoveIs(w: World<HashTblEnt>, key: int, keyP: KeyMem)
    ensures (key, keyP) in Bindings(w.scan.entries) ==>
              && Spot(w.scan.entries, (key, keyP)) < |w.scan.entries|
              && Apply(w, OpOf(w, Remove(key, keyP))) == RemoveEntry(w, Spot(w.scan.entries, (key, keyP)))
    ensures (key, keyP) !in Bindings(w.scan.entries) ==> Apply(w, OpOf(w, Remove(key, keyP))) == w
  {
    hide Bindings, RemoveEntry;
  }

  lemma SavedIs(w: World<HashTblEnt>)
    ensures Apply(w, DoSave).scan.entries == w.scan.entries && ScanSpec.Save(w.scan).entries == w.scan.entries
    ensures w.scan.pos < |w.scan.entries| ==>
              var e, s := w.scan.entries[w.scan.pos], ScanSpec.Save(w.scan);
              e in w.scan.mark && e in w.home ==>
              && e in s.mark && Handle(s.mark[e]) == Handle(MarkOnce(w.scan.mark[e], w.scan.last))
              && Apply(w, DoSave) == w.(scan := s, saves := w.saves + 1,
                                        out := w.out + [Token(Handle(s.mark[e]), w.home[e], w.scan.pos, false)])
    ensures w.scan.pos >= |w.scan.entries| ==> Apply(w, DoSave) == w && ScanSpec.Save(w.scan) == w.scan
  {
    hide MarkOnce, Handle;
  }

  lemma SaveHandled(w: World<HashTblEnt>)
    requires Handled(w)
    ensures Handled(Apply(w, DoSave))
    ensures w.scan.pos < |w.scan.entries| && w.scan.entries[w.scan.pos] in w.scan.mark ==>
              Handle(MarkOnce(w.scan.mark[w.scan.entries[w.scan.pos]], w.scan.last)) != 0
  {
    if w.scan.pos < |w.scan.entries| && w.scan.entries[w.scan.pos] in w.scan.mark {
      var e := w.scan.entries[w.scan.pos];
      assert e in w.scan.entries;
      MarkHandle(w.scan.mark[e], w.scan.last);
    }
  }

  lemma MarkHandle(word: nat, last: nat)
    ensures Handle(MarkOnce(word, last)) == if word == 0 then NextHandle(last) else Handle(word)
    ensures Handle(UnmarkOnce(word)) == Handle(word) || UnmarkOnce(word) == 0
    ensures NextHandle(last) != 0
  {
  }

  lemma ReturnHandled(w: World<HashTblEnt>, i: nat)
    requires Handled(w) && i < |w.out| && w.out[i].handle != 0
    ensures Handled(Apply(w, DoReturn(i)))
  {
    hide PastFrom, HolderFrom, UnmarkOnce, Handle;
    var t, s := w.out[i], w.scan;
    var g := HolderFrom(s, w.home, t.bucket, t.handle, 0);
    NoneBefore(s, w.home, t.bucket, t.handle, 0);
    if g < |s.entries| {
      MarkHandle(s.mark[s.entries[g]], 0);
    }
  }

  lemma RemoveHandled(w: World<HashTblEnt>, g: nat)
    requires Handled(w) && g < |w.scan.entries|
    ensures Handled(RemoveEntry(w, g))
  {
    hide Handle, Without;
    LessOf(w.scan.entries, g);
    assert w.scan.entries[g] in w.scan.entries;
    assert TakesAlong(w, g) ==> w.scan.entries[g + 1] in w.scan.entries;
    var v := RemoveEntry(w, g);
    assert v.scan.entries == Without(w.scan.entries, g);
    forall e | e in v.scan.entries && e in v.scan.mark && v.scan.mark[e] != 0
      ensures Handle(v.scan.mark[e]) != 0
    {
      assert e in w.scan.entries;
      if TakesAlong(w, g) && w.scan.entries[g] in w.scan.mark && e == w.scan.entries[g + 1] {
        assert v.scan.mark[e] == w.scan.mark[w.scan.entries[g]];
      } else {
        assert v.scan.mark[e] == w.scan.mark[e];
      }
    }
  }

  lemma MarkerCount(ms: seq<HashTableHandle>, out: seq<Token>, size: nat)
    requires MarkersOk(ms, out, size)
    ensures |ms| == |out|
  {
  }

  lemma MarkerIs(ms: seq<HashTableHandle>, out: seq<Token>, size: nat, i: nat)
    requires MarkersOk(ms, out, size) && i < |out|
    ensures |ms| == |out| && ms[i].whichOne == out[i].handle && out[i].handle != 0
    ensures ms[i].bucket == out[i].bucket < size && ms[i].capacityAtTime == size
  {
    var m := ms[i];
  }

  lemma MoreMarkers(ms: seq<HashTableHandle>, out: seq<Token>, size: nat, m: HashTableHandle, t: Token)
    requires MarkersOk(ms, out, size) && m.whichOne == t.handle != 0
    requires m.bucket == t.bucket < size && m.capacityAtTime == size
    ensures MarkersOk(ms + [m], out + [t], size)
  {
    var more := ms + [m];
    forall i {:trigger more[i]} | 0 <= i < |more|
      ensures more[i].whichOne == (out + [t])[i].handle != 0 && more[i].bucket == (out + [t])[i].bucket < size
      ensures more[i].capacityAtTime == size
    {
      if i < |ms| {
        assert more[i] == ms[i];
      }
    }
  }

  lemma LessMarkers(ms: seq<HashTableHandle>, out: seq<Token>, size: nat, i: nat)
    requires MarkersOk(ms, out, size) && i < |ms|
    ensures MarkersOk(Without(ms, i), Without(out, i), size)
  {
    var less := Without(ms, i);
    assert forall k {:trigger less[k]} :: 0 <= k < |less| ==> less[k] == ms[if k < i then k else k + 1];
  }

  lemma MovedMarkers(ms: seq<HashTableHandle>, w: World<HashTblEnt>, size: nat, g: nat)
    requires MarkersOk(ms, w.out, size) && g < |w.scan.entries|
    ensures MarkersOk(ms, RemoveEntry(w, g).out, size)
  {
    hide MarkersOk, Drop, MovedMarks, TakesAlong;
    MarkerCount(ms, w.out, size);
    var along := TakesAlong(w, g);
    MovedAt(w.out, g, along);
    var moved := MoveTokens(w.out, g, along);
    assert RemoveEntry(w, g).out == moved;
    forall i | 0 <= i < |moved|
      ensures moved[i].handle == w.out[i].handle && moved[i].bucket == w.out[i].bucket
    {
      assert moved[i] == MoveToken(w.out[i], g, along);
    }
    SameMarkers(ms, w.out, moved, size);
  }

  lemma SameMarkers(ms: seq<HashTableHandle>, out: seq<Token>, next: seq<Token>, size: nat)
    requires MarkersOk(ms, out, size) && |next| == |out|
    requires forall i :: 0 <= i < |next| ==> next[i].handle == out[i].handle && next[i].bucket == out[i].bucket
    ensures MarkersOk(ms, next, size)
  {
  }

  /** Marked entries have handles. */
  ghost predicate Handled(w: World<HashTblEnt>) {
    forall e :: e in w.scan.entries && e in w.scan.mark && w.scan.mark[e] != 0 ==> Handle(w.scan.mark[e]) != 0
  }

  /** Each marker records the handle and the bucket of its position. */
  ghost predicate MarkersOk(ms: seq<HashTableHandle>, out: seq<Token>, size: nat)
    reads ms
  {
    && |ms| == |out|
    && forall i {:trigger ms[i]} :: 0 <= i < |ms| ==>
         && ms[i].whichOne == out[i].handle != 0 && ms[i].bucket == out[i].bucket < size
         && ms[i].capacityAtTime == size
  }
}
