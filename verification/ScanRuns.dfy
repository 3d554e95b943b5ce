/** Runs of scan operations: a scan survives removals, and saved positions come back where they were taken. */
module ScanRuns {
  import opened ScanFacts
  import opened ScanSpec
  import opened SeqFacts

  // ----- scanning while entries are removed -----

  /** One step of a caller: ask for the next entry, or remove an entry. */
  datatype Act<+E> = Next | Remove(e: E)

  function Do<E(==)>(s: Scan<E>, a: Act<E>): Scan<E> {
    match a
    case Next => Forward(s)
    case Remove(e) => if e in s.entries then DropEntry(s, e) else s
  }

  function DropEntry<E(==)>(s: Scan<E>, e: E): Scan<E>
    requires e in s.entries
  {
    Drop(s, IndexOf(s.entries, e))
  }

  /** The state after a run, and what the run's steps report. */
  function Run<E(==)>(s: Scan<E>, acts: seq<Act<E>>): Scan<E> {
    if acts == [] then s else Do(Run(s, acts[..|acts| - 1]), acts[|acts| - 1])
  }

  function Report<E(==)>(s: Scan<E>, acts: seq<Act<E>>, i: nat): Option<E>
    requires i < |acts|
  {
    if acts[i].Next? then Peek(Run(s, acts[..i])) else None
  }

  /** The entries a run reports, in order. */
  function Returned<E(==)>(s: Scan<E>, acts: seq<Act<E>>): seq<E> {
    if acts == [] then []
    else
      var before := Returned(s, acts[..|acts| - 1]);
      match Report(s, acts, |acts| - 1)
      case Some(e) => before + [e]
      case None => before
  }

  function Removed<E(==)>(acts: seq<Act<E>>): set<E> {
    set i | 0 <= i < |acts| && acts[i].Remove? :: acts[i].e
  }

  /** A sequence without the members of a set. */
  function Keep<E(==)>(s: seq<E>, gone: set<E>): seq<E> {
    if s == [] then []
    else
      var last := s[|s| - 1];
      Keep(s[..|s| - 1], gone) + if last in gone then [] else [last]
  }

  lemma {:induction false} KeepMembers<E>(s: seq<E>, gone: set<E>)
    ensures forall e :: e in Keep(s, gone) <==> e in s && e !in gone
    ensures Distinct(s) ==> Distinct(Keep(s, gone))
    decreases |s|
  {
    if s != [] {
      var front, last := s[..|s| - 1], s[|s| - 1];
      KeepMembers(front, gone);
      assert s == front + [last];
    }
  }

  lemma {:induction false} KeepAppend<E>(s: seq<E>, t: seq<E>, gone: set<E>)
    ensures Keep(s + t, gone) == Keep(s, gone) + Keep(t, gone)
    decreases |t|
  {
    if t == [] {
      assert s + t == s;
    } else {
      var front := t[..|t| - 1];
      assert (s + t)[..|s + t| - 1] == s + front;
      KeepAppend(s, front, gone);
    }
  }

  lemma {:induction false} KeepMore<E>(s: seq<E>, gone: set<E>, e: E)
    ensures Keep(Keep(s, gone), {e}) == Keep(s, gone + {e})
    decreases |s|
  {
    if s != [] {
      var front, last := s[..|s| - 1], s[|s| - 1];
      KeepMore(front, gone, e);
      if last in gone {
        assert Keep(s, gone) == Keep(front, gone);
        assert Keep(s, gone + {e}) == Keep(front, gone + {e});
      } else {
        KeepAppend(Keep(front, gone), [last], {e});
        assert Keep([last], {e}) == if last == e then [] else [last];
      }
    }
  }

  lemma {:induction false} KeepNone<E>(s: seq<E>, gone: set<E>)
    requires forall e :: e in s ==> e !in gone
    ensures Keep(s, gone) == s
    decreases |s|
  {
    if s != [] {
      KeepNone(s[..|s| - 1], gone);
    }
  }

  /** Taking the only occurrence of an element out is keeping everything else. */
  lemma {:induction false} WithoutIsKeep<E>(s: seq<E>, g: nat)
    requires g < |s| && forall i :: 0 <= i < |s| && i != g ==> s[i] != s[g]
    ensures Without(s, g) == Keep(s, {s[g]})
    decreases |s|
  {
    var n := |s| - 1;
    if g < n {
      WithoutIsKeep(s[..n], g);
      assert Without(s, g) == Without(s[..n], g) + [s[n]];
    } else {
      KeepNone(s[..n], {s[g]});
      assert Without(s, g) == s[..n];
    }
  }

  lemma FrontWithout<E>(s: seq<E>, g: nat, p: nat)
    requires g < |s| && p <= |s|
    ensures g < p ==> Without(s, g)[..p - 1] == Without(s[..p], g)
    ensures g >= p ==> Without(s, g)[..p] == s[..p]
  {
  }

  lemma DropKeeps<E>(s: Scan<E>, e: E)
    requires Distinct(s.entries) && s.pos <= |s.entries| && e in s.entries
    ensures var d := DropEntry(s, e);
            && d.entries == Keep(s.entries, {e})
            && d.pos <= |d.entries|
            && d.entries[..d.pos] == Keep(s.entries[..s.pos], {e})
  {
    var g := IndexOf(s.entries, e);
    WithoutIsKeep(s.entries, g);
    FrontWithout(s.entries, g, s.pos);
    if g < s.pos {
      WithoutIsKeep(s.entries[..s.pos], g);
    } else {
      KeepNone(s.entries[..s.pos], {e});
    }
  }

  /** What holds after every step of a scan with removals. */
  ghost predicate OnTrack<E>(s: Scan<E>, acts: seq<Act<E>>) {
    var t, seen, gone := Run(s, acts), Returned(s, acts), Removed(acts);
    && t.entries == Keep(s.entries, gone)
    && Distinct(t.entries)
    && t.pos <= |t.entries|
    && t.entries[..t.pos] == Keep(seen, gone)
    && Distinct(seen)
    && (forall e :: e in seen ==> e in s.entries)
    && t.mark == s.mark && t.last == s.last
  }

  /** From a rewound scan, any mixture of next and remove keeps the scan on track: what is left of the table is
      what was never removed, and what lies before the cursor is what was reported and not removed since. */
  lemma {:induction false} ScanStaysOnTrack<E>(s: Scan<E>, acts: seq<Act<E>>)
    requires Distinct(s.entries) && s.pos == 0
    ensures OnTrack(s, acts)
    decreases |acts|
  {
    if acts == [] {
      KeepNone(s.entries, {});
      assert Removed(acts) == {};
    } else {
      hide OnTrack, Distinct;
      var n := |acts| - 1;
      ScanStaysOnTrack(s, acts[..n]);
      StepOnTrack(s, acts[..n], acts[n]);
      assert acts == acts[..n] + [acts[n]];
    }
  }

  lemma StepOnTrack<E>(s: Scan<E>, acts: seq<Act<E>>, a: Act<E>)
    requires Distinct(s.entries) && OnTrack(s, acts)
    ensures OnTrack(s, acts + [a])
  {
    var more := acts + [a];
    assert more[..|more| - 1] == acts;
    var t, seen, gone := Run(s, acts), Returned(s, acts), Removed(acts);
    match a
    case Next =>
      assert Removed(more) == gone by {
        assert forall i :: 0 <= i < |acts| ==> more[i] == acts[i];
      }
      if t.pos < |t.entries| {
        NextOnTrack(s.entries, t.entries, t.pos, seen, gone);
      }
    case Remove(e) =>
      assert Removed(more) == gone + {e} by {
        assert forall i :: 0 <= i < |acts| ==> more[i] == acts[i];
        assert more[|acts|].e == e;
      }
      KeepMore(s.entries, gone, e);
      KeepMore(seen, gone, e);
      if e in t.entries {
        DropKeeps(t, e);
        KeepMembers(t.entries, {e});
      } else {
        KeepNone(t.entries, {e});
        KeepNone(t.entries[..t.pos], {e});
      }
  }

  lemma NextOnTrack<E>(all: seq<E>, left: seq<E>, pos: nat, seen: seq<E>, gone: set<E>)
    requires left == Keep(all, gone) && Distinct(left) && pos < |left|
    requires left[..pos] == Keep(seen, gone) && Distinct(seen) && forall e :: e in seen ==> e in all
    ensures left[..pos + 1] == Keep(seen + [left[pos]], gone)
    ensures Distinct(seen + [left[pos]]) && left[pos] in all
  {
    var e := left[pos];
    KeepMembers(all, gone);
    assert e in left;
    KeepMembers(seen, gone);
    assert e !in left[..pos];
    assert (seen + [e])[..|seen|] == seen;
    assert left[..pos + 1] == left[..pos] + [e];
    OneMore(seen, e);
    hide Distinct;
  }

  lemma OneMore<E>(seen: seq<E>, e: E)
    requires Distinct(seen) && e !in seen
    ensures Distinct(seen + [e])
  {
  }

  /** The promise of a full scan: when it has come to the end, every entry that was never removed has been
      reported exactly once, and those entries were reported in table order. */
  lemma ScanIsComplete<E>(s: Scan<E>, acts: seq<Act<E>>)
    requires Distinct(s.entries) && s.pos == 0
    requires Peek(Run(s, acts)) == None
    ensures Distinct(Returned(s, acts))
    ensures forall e :: e in s.entries && e !in Removed(acts) ==> e in Returned(s, acts)
    ensures Keep(Returned(s, acts), Removed(acts)) == Keep(s.entries, Removed(acts))
  {
    ScanStaysOnTrack(s, acts);
    var t := Run(s, acts);
    assert t.entries[..t.pos] == t.entries;
    KeepMembers(s.entries, Removed(acts));
    KeepMembers(Returned(s, acts), Removed(acts));
  }

  /** No step reports an entry after its removal. */
  lemma NeverAfterRemoval<E>(s: Scan<E>, acts: seq<Act<E>>, i: nat, j: nat)
    requires Distinct(s.entries) && s.pos == 0
    requires i < j < |acts| && acts[i].Remove?
    ensures Report(s, acts, j) != Some(acts[i].e)
  {
    var before := acts[..j];
    ScanStaysOnTrack(s, before);
    KeepMembers(s.entries, Removed(before));
    assert before[i] == acts[i];
    assert acts[i].e in Removed(before);
  }

  /** Removals apart, asking as often as there are entries reports them all, and the next answer is none. */
  lemma {:induction false} PlainScan<E>(s: Scan<E>, n: nat)
    requires s.pos == 0 && n <= |s.entries|
    ensures var acts: seq<Act<E>> := seq(n, _ => Next);
            && Run(s, acts) == s.(pos := n)
            && Returned(s, acts) == s.entries[..n]
            && (n == |s.entries| ==> Peek(Run(s, acts)) == None)
  {
    var acts: seq<Act<E>> := seq(n, _ => Next);
    if n > 0 {
      PlainScan(s, n - 1);
      assert acts[..n - 1] == seq(n - 1, _ => Next);
    }
  }
}
