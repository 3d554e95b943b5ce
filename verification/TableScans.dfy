/** Scans of a hash table from which entries are removed on the way. */
module TableScans {
  import opened HashChains
  import opened HashedTable
  import opened MarkRuns
  import ScanRuns
  import opened ScanSpec
  import opened SeqFacts
  import opened TableRuns

  /** A scan without its marks, which play no part in what is reported. */
  function Bare<E(==)>(s: Scan<E>): Scan<E> {
    s.(mark := map[], last := 0)
  }

  /** The entries of a table that a run of calls removes. */
  ghost function GoneBy(start: seq<HashTblEnt>, cs: seq<Call>): set<HashTblEnt> {
    set e | e in start && exists i :: 0 <= i < |cs| && cs[i] == Remove(e.Id().0, e.Id().1)
  }

  /** The entries reported. */
  function Somes<E>(s: seq<Option<E>>): seq<E> {
    if s == [] then []
    else Somes(s[..|s| - 1]) + if s[|s| - 1].Some? then [s[|s| - 1].value] else []
  }

  /** What the calls made so far have come to. */
  ghost predicate SoFar(start: Scan<HashTblEnt>, now: Scan<HashTblEnt>, cs: seq<Call>, from: seq<Option<HashTblEnt>>,
                        acts: seq<ScanRuns.Act<HashTblEnt>>)
  {
    && Distinct(start.entries) && start.pos == 0
    && Bare(now) == ScanRuns.Run(Bare(start), acts)
    && ScanRuns.Returned(Bare(start), acts) == Somes(from)
    && ScanRuns.Removed(acts) == GoneBy(start.entries, cs)
  }

  lemma MoreSomes<E>(s: seq<Option<E>>, x: Option<E>)
    ensures Somes(s + [x]) == Somes(s) + if x.Some? then [x.value] else []
  {
    assert (s + [x])[..|s|] == s;
  }

  lemma MoreActs<E>(s: Scan<E>, acts: seq<ScanRuns.Act<E>>, a: ScanRuns.Act<E>)
    ensures ScanRuns.Run(s, acts + [a]) == ScanRuns.Do(ScanRuns.Run(s, acts), a)
    ensures ScanRuns.Returned(s, acts + [a]) ==
            ScanRuns.Returned(s, acts) +
            if a.Next? && Peek(ScanRuns.Run(s, acts)).Some? then [Peek(ScanRuns.Run(s, acts)).value] else []
    ensures ScanRuns.Removed(acts + [a]) == ScanRuns.Removed(acts) + if a.Remove? then {a.e} else {}
  {
    var more := acts + [a];
    assert more[..|more| - 1] == acts;
    assert forall i :: 0 <= i < |acts| ==> more[i] == acts[i];
    forall e | e in ScanRuns.Removed(acts) || (a.Remove? && e == a.e)
      ensures e in ScanRuns.Removed(more)
    {
      if e in ScanRuns.Removed(acts) {
        var i :| 0 <= i < |acts| && acts[i].Remove? && acts[i].e == e;
        assert more[i].e == e;
      } else {
        assert more[|acts|].e == e;
      }
    }
  }

  lemma MoreGone(start: seq<HashTblEnt>, cs: seq<Call>, c: Call)
    ensures GoneBy(start, cs + [c]) ==
            GoneBy(start, cs) + set e | e in start && c == Remove(e.Id().0, e.Id().1)
  {
    var more := cs + [c];
    assert forall i :: 0 <= i < |cs| ==> more[i] == cs[i];
    forall e | e in start && c == Remove(e.Id().0, e.Id().1)
      ensures e in GoneBy(start, more)
    {
      assert more[|cs|] == c;
    }
    forall e | e in GoneBy(start, cs)
      ensures e in GoneBy(start, more)
    {
      var i :| 0 <= i < |cs| && cs[i] == Remove(e.Id().0, e.Id().1);
      assert more[i] == cs[i];
    }
  }

  /** What is left of the table is what no call has removed. */
  lemma WhatIsLeft(start: Scan<HashTblEnt>, now: Scan<HashTblEnt>, cs: seq<Call>, from: seq<Option<HashTblEnt>>,
                   acts: seq<ScanRuns.Act<HashTblEnt>>)
    requires SoFar(start, now, cs, from, acts)
    ensures Distinct(now.entries) && now.pos <= |now.entries| && Distinct(Somes(from))
    ensures forall e :: e in now.entries <==> e in start.entries && e !in GoneBy(start.entries, cs)
    ensures forall e :: e in Somes(from) ==> e in start.entries
  {
    ScanRuns.ScanStaysOnTrack(Bare(start), acts);
    ScanRuns.KeepMembers(start.entries, ScanRuns.Removed(acts));
  }

  /** One more request for the next entry. */
  lemma AskedMore(start: Scan<HashTblEnt>, now: Scan<HashTblEnt>, cs: seq<Call>, from: seq<Option<HashTblEnt>>,
                  acts: seq<ScanRuns.Act<HashTblEnt>>)
    requires SoFar(start, now, cs, from, acts)
    ensures SoFar(start, Forward(now), cs + [Next], from + [Peek(now)], acts + [ScanRuns.Next])
    ensures Peek(now).Some? ==> forall i :: 0 <= i < |cs| ==> cs[i] != Remove(Peek(now).value.Id().0, Peek(now).value.Id().1)
  {
    WhatIsLeft(start, now, cs, from, acts);
    MoreActs(Bare(start), acts, ScanRuns.Next);
    MoreSomes(from, Peek(now));
    MoreGone(start.entries, cs, Next);
    if Peek(now).Some? {
      assert Peek(now).value in now.entries;
    }
  }

  lemma DropIs<E>(s: Scan<E>, g: nat)
    requires Distinct(s.entries) && g < |s.entries|
    ensures ScanRuns.Do(s, ScanRuns.Remove(s.entries[g])) == Drop(s, g)
  {
    var i := IndexOf(s.entries, s.entries[g]);
  }

  /** One more removal, of a key that is bound. */
  lemma RemovedMore(start: Scan<HashTblEnt>, now: Scan<HashTblEnt>, cs: seq<Call>, from: seq<Option<HashTblEnt>>,
                    acts: seq<ScanRuns.Act<HashTblEnt>>, g: nat, next: Scan<HashTblEnt>)
    requires SoFar(start, now, cs, from, acts) && DistinctKeys(start.entries) && g < |now.entries|
    requires Bare(next) == Bare(Drop(now, g))
    ensures var e := now.entries[g];
            SoFar(start, next, cs + [Remove(e.Id().0, e.Id().1)], from + [None], acts + [ScanRuns.Remove(e)])
  {
    var e := now.entries[g];
    var c := Remove(e.Id().0, e.Id().1);
    WhatIsLeft(start, now, cs, from, acts);
    MoreActs(Bare(start), acts, ScanRuns.Remove(e));
    MoreSomes(from, None);
    MoreGone(start.entries, cs, c);
    DropIs(Bare(now), g);
    assert e in now.entries;
    OnlyWithKey(start.entries, e);
  }

  lemma OnlyWithKey(es: seq<HashTblEnt>, e: HashTblEnt)
    requires DistinctKeys(es) && e in es
    ensures (set x | x in es && Remove(e.Id().0, e.Id().1) == Remove(x.Id().0, x.Id().1)) == {e}
  {
    forall x | x in es && x.Id() == e.Id()
      ensures x == e
    {
      var i :| 0 <= i < |es| && es[i] == x;
      var j :| 0 <= j < |es| && es[j] == e;
      if i != j {
        Differ(es, i, j);
      }
    }
  }

  /** One more removal, of a key that is not bound. */
  lemma MissedMore(start: Scan<HashTblEnt>, now: Scan<HashTblEnt>, cs: seq<Call>, from: seq<Option<HashTblEnt>>,
                   acts: seq<ScanRuns.Act<HashTblEnt>>, key: int, keyP: KeyMem)
    requires SoFar(start, now, cs, from, acts)
    requires forall e :: e in now.entries ==> e.Id() != (key, keyP)
    ensures SoFar(start, now, cs + [Remove(key, keyP)], from + [None], acts)
  {
    WhatIsLeft(start, now, cs, from, acts);
    MoreSomes(from, None);
    MoreGone(start.entries, cs, Remove(key, keyP));
    assert forall e :: e in start.entries && e.Id() == (key, keyP) ==> e in GoneBy(start.entries, cs);
  }

  /** One removal on the table is one on the scan, its marks apart. */
  lemma RemovalBare(w: World<HashTblEnt>, key: int, keyP: KeyMem)
    requires DistinctKeys(w.scan.entries)
    ensures var v := Apply(w, OpOf(w, Remove(key, keyP)));
            if (key, keyP) in Bindings(w.scan.entries)
            then Bare(v.scan) == Bare(Drop(w.scan, Spot(w.scan.entries, (key, keyP))))
            else v == w && forall e :: e in w.scan.entries ==> e.Id() != (key, keyP)
  {
    hide Bindings, Drop, Spot, DistinctKeys;
    if (key, keyP) !in Bindings(w.scan.entries) {
      forall e | e in w.scan.entries
        ensures e.Id() != (key, keyP)
      {
        var i :| 0 <= i < |w.scan.entries| && w.scan.entries[i] == e;
        Bound(w.scan.entries, i);
      }
    }
  }

  /** One call of a scan with removals, and the entry it reports. */
  lemma CalledMore(start: Scan<HashTblEnt>, w: World<HashTblEnt>, cs: seq<Call>, from: seq<Option<HashTblEnt>>,
                   acts: seq<ScanRuns.Act<HashTblEnt>>, c: Call)
      returns (r: Option<HashTblEnt>, more: seq<ScanRuns.Act<HashTblEnt>>)
    requires SoFar(start, w.scan, cs, from, acts) && DistinctKeys(start.entries) && DistinctKeys(w.scan.entries)
    requires c.Next? || c.Remove?
    ensures SoFar(start, Apply(w, OpOf(w, c)).scan, cs + [c], from + [r], more)
    ensures Seen(r) == Reported(w, c)
    ensures r.Some? ==> forall i :: 0 <= i < |cs| ==> cs[i] != Remove(r.value.Id().0, r.value.Id().1)
  {
    hide SoFar, DistinctKeys, Drop, Bindings, Bare;
    r, more := None, acts;
    match c
    case Next =>
      r := Peek(w.scan);
      more := acts + [ScanRuns.Next];
      AskedMore(start, w.scan, cs, from, acts);
    case Remove(key, keyP) =>
      RemovalBare(w, key, keyP);
      hide Apply, OpOf;
      if (key, keyP) in Bindings(w.scan.entries) {
        var g := Spot(w.scan.entries, (key, keyP));
        more := acts + [ScanRuns.Remove(w.scan.entries[g])];
        RemovedMore(start, w.scan, cs, from, acts, g, Apply(w, OpOf(w, c)).scan);
      } else {
        MissedMore(start, w.scan, cs, from, acts, key, keyP);
      }
  }

  /** Nothing has happened yet. */
  lemma AtFirst(s: Scan<HashTblEnt>)
    requires DistinctKeys(s.entries) && s.pos == 0
    ensures SoFar(s, s, [], [], [])
  {
    forall i, j | 0 <= i < j < |s.entries|
      ensures s.entries[i] != s.entries[j]
    {
      Differ(s.entries, i, j);
    }
    assert GoneBy(s.entries, []) == {};
  }

  /** Where the scan has come to the end, every entry whose key was never removed has been reported. */
  lemma AllReported(start: Scan<HashTblEnt>, now: Scan<HashTblEnt>, cs: seq<Call>, from: seq<Option<HashTblEnt>>,
                    acts: seq<ScanRuns.Act<HashTblEnt>>)
    requires SoFar(start, now, cs, from, acts) && now.pos >= |now.entries|
    ensures forall e :: e in start.entries && e !in GoneBy(start.entries, cs) ==> e in Somes(from)
    ensures ScanRuns.Keep(Somes(from), GoneBy(start.entries, cs)) == ScanRuns.Keep(start.entries, GoneBy(start.entries, cs))
  {
    ScanRuns.ScanIsComplete(Bare(start), acts);
  }

  lemma IsTheScan(p: Scanner)
    requires p.Valid()
    ensures p.world.scan.entries == p.table.Entries() && p.world.scan.pos == p.table.At()
    ensures DistinctKeys(p.world.scan.entries)
  {
    hide DistinctKeys, Flat, Proper, MarkersOk, Handled;
    FlatDistinct(p.table.chains);
  }

  lemma RewindIs(w: World<HashTblEnt>)
    ensures Apply(w, GoRewind).scan.entries == w.scan.entries && Apply(w, GoRewind).scan.pos == 0
  {
  }

  /** A scan of the table object from its start, from which entries are removed on the way, by the cursor or elsewhere.
      `from` is the entry behind each report: no entry is reported twice, none after its removal, and once the scan has
      come to the end, every entry whose key was never removed has been reported, in the order of the table. */
  method ScanWhileRemoving(p: Scanner, cs: seq<Call>)
      returns (rs: seq<Option<(KeyMem, Datum)>>, ghost from: seq<Option<HashTblEnt>>)
    requires p.Valid() && forall k {:trigger cs[k]} :: 0 <= k < |cs| ==> cs[k].Next? || cs[k].Remove?
    modifies p, p.table, p.table.hTbl, p.table.nodes
    ensures p.Valid() && |rs| == |from| == |cs|
    ensures forall k {:trigger rs[k]} :: 0 <= k < |cs| ==> rs[k] == Seen(from[k])
    ensures Distinct(Somes(from)) && forall e :: e in Somes(from) ==> e in old(p.table.Entries())
    ensures forall i, j {:trigger cs[i], from[j]} :: 0 <= i < j < |cs| && from[j].Some? ==>
              cs[i] != Remove(from[j].value.Id().0, from[j].value.Id().1)
    ensures forall e :: e in p.table.Entries() <==> e in old(p.table.Entries()) && e !in GoneBy(old(p.table.Entries()), cs)
    ensures p.table.At() >= |p.table.Entries()| ==>
              var all, gone := old(p.table.Entries()), GoneBy(old(p.table.Entries()), cs);
              && (forall e :: e in all && e !in gone ==> e in Somes(from))
              && ScanRuns.Keep(Somes(from), gone) == ScanRuns.Keep(all, gone)
  {
    hide Scanner.Valid, SoFar, DistinctKeys, Distinct, Apply, OpOf, Seen, Reported, Somes, GoneBy, ScanRuns.Keep,
      HashedTbl.Entries, HashedTbl.At, HashedTbl.Valid;
    IsTheScan(p);
    RewindIs(p.world);
    p.StartOver();
    ghost var start, acts := p.world.scan, [];
    IsTheScan(p);
    AtFirst(start);
    rs, from := [], [];
    var k := 0;
    while k < |cs|
      invariant k <= |cs| && |rs| == |from| == k && p.Valid()
      invariant p.table.hTbl == old(p.table.hTbl) && p.table.nodes == old(p.table.nodes)
      invariant DistinctKeys(start.entries) && SoFar(start, p.world.scan, cs[..k], from, acts)
      invariant forall j {:trigger rs[j]} :: 0 <= j < k ==> rs[j] == Seen(from[j])
      invariant forall i, j {:trigger cs[i], from[j]} :: 0 <= i < j < k && from[j].Some? ==>
                  cs[i] != Remove(from[j].value.Id().0, from[j].value.Id().1)
    {
      IsTheScan(p);
      ghost var one;
      one, acts := CalledMore(start, p.world, cs[..k], from, acts, cs[k]);
      assert cs[..k + 1] == cs[..k] + [cs[k]];
      assert forall i :: 0 <= i < k ==> cs[..k][i] == cs[i];
      var r := p.Do(cs[k]);
      rs, from := rs + [r], from + [one];
      k := k + 1;
    }
    assert cs[..k] == cs;
    IsTheScan(p);
    WhatIsLeft(start, p.world.scan, cs, from, acts);
    if p.world.scan.pos >= |p.world.scan.entries| {
      AllReported(start, p.world.scan, cs, from, acts);
    }
  }
}
