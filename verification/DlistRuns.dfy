/** What whole runs of the list operations of DlistSpec do. */
module DlistRuns {
  import opened ScanSpec
  import opened DlistSpec
  import opened SeqFacts

  /** The operations that edit around the cursor, and the one that moves it. */
  datatype Act<E> = Take | Remove | Before(x: E) | After(x: E) | Swap(x: E)

  function Perform<E>(l: Lst<E>, a: Act<E>): Lst<E>
    requires Ok(l)
  {
    match a
    case Take => Get(l).0
    case Remove => GetThis(l).0
    case Before(x) => InsertHere(l, x)
    case After(x) => AppendHere(l, x)
    case Swap(x) => ReplaceThis(l, x).0
  }

  lemma PerformOk<E>(l: Lst<E>, a: Act<E>)
    requires Ok(l)
    ensures Ok(Perform(l, a))
  {
  }

  /** The state after a run. */
  function Run<E>(l: Lst<E>, acts: seq<Act<E>>): (r: Lst<E>)
    requires Ok(l)
    ensures Ok(r)
    decreases |acts|
  {
    if acts == [] then l
    else
      PerformOk(l, acts[0]);
      Run(Perform(l, acts[0]), acts[1..])
  }

  /** What the calls of `Take` in a run return. */
  function Taken<E>(l: Lst<E>, acts: seq<Act<E>>): seq<Option<E>>
    requires Ok(l)
    decreases |acts|
  {
    if acts == [] then []
    else
      PerformOk(l, acts[0]);
      (if acts[0].Take? then [Get(l).1] else []) + Taken(Perform(l, acts[0]), acts[1..])
  }

  /** Every edit of the run has an entry behind the cursor to refer to. */
  ghost predicate Steady<E>(l: Lst<E>, acts: seq<Act<E>>)
    requires Ok(l)
    decreases |acts|
  {
    if acts == [] then true
    else
      PerformOk(l, acts[0]);
      (acts[0].Take? || Given(l) > 0) && Steady(Perform(l, acts[0]), acts[1..])
  }

  /** The answers of `n` calls that hand out a sequence and then report its end. */
  function Handed<E>(s: seq<E>, n: nat): seq<Option<E>> {
    if n == 0 then [] else if s == [] then [None] + Handed(s, n - 1) else [Some(s[0])] + Handed(s[1..], n - 1)
  }

  function Takes<E>(acts: seq<Act<E>>): nat {
    if acts == [] then 0 else (if acts[0].Take? then 1 else 0) + Takes(acts[1..])
  }

  /** An edit around an entry already given out leaves the rest alone. */
  lemma EditKeepsRest<E>(l: Lst<E>, a: Act<E>)
    requires Ok(l) && !a.Take? && Given(l) > 0
    ensures Ok(Perform(l, a)) && Rest(Perform(l, a)) == Rest(l)
  {
  }

  lemma TakeMoves<E>(l: Lst<E>)
    requires Ok(l)
    ensures Ok(Get(l).0)
    ensures Rest(l) == [] ==> Get(l).1 == None && Rest(Get(l).0) == []
    ensures Rest(l) != [] ==> Get(l).1 == Some(Rest(l)[0]) && Rest(Get(l).0) == Rest(l)[1..]
  {
  }

  /** However a run removes, inserts, appends and replaces around the entries it has been given, it is given
      exactly what was still to come when it started, in order, and then nothing. */
  lemma {:induction false} RunIsUndisturbed<E>(l: Lst<E>, acts: seq<Act<E>>)
    requires Ok(l) && Steady(l, acts)
    ensures Taken(l, acts) == Handed(Rest(l), Takes(acts))
    ensures Rest(Run(l, acts)) == if Takes(acts) < |Rest(l)| then Rest(l)[Takes(acts)..] else []
    decreases |acts|
  {
    if acts != [] {
      var m := Perform(l, acts[0]);
      PerformOk(l, acts[0]);
      RunIsUndisturbed(m, acts[1..]);
      if acts[0].Take? {
        TakeMoves(l);
      } else {
        EditKeepsRest(l, acts[0]);
      }
    }
  }

  lemma {:induction false} OnlyTakes<E>(l: Lst<E>, acts: seq<Act<E>>)
    requires Ok(l) && forall a :: a in acts ==> a.Take?
    ensures Steady(l, acts) && Takes(acts) == |acts|
    ensures Run(l, acts).items == l.items
    decreases |acts|
  {
    if acts != [] {
      PerformOk(l, acts[0]);
      OnlyTakes(Perform(l, acts[0]), acts[1..]);
    }
  }

  /** After a reset, reading gives every entry in order and then nothing. */
  lemma FullPass<E>(l: Lst<E>, acts: seq<Act<E>>)
    requires forall a :: a in acts ==> a.Take?
    ensures Ok(Reset(l)) && Taken(Reset(l), acts) == Handed(l.items, |acts|)
    ensures Run(Reset(l), acts).items == l.items
  {
    OnlyTakes(Reset(l), acts);
    RunIsUndisturbed(Reset(l), acts);
    assert Rest(Reset(l)) == l.items;
  }

  // ----- one call undoes another -----

  /** Reading and then removing gives the same entry twice and takes it off the list. */
  lemma RemoveWhatWasTaken<E>(l: Lst<E>)
    requires Ok(l) && Rest(l) != []
    ensures Ok(Get(l).0) && GetThis(Get(l).0).1 == Get(l).1
    ensures GetThis(Get(l).0).0.items == Without(l.items, Given(l))
  {
  }

  /** Removing takes back an entry just appended at the cursor exactly when an entry had been given out, or the
      list was empty, or the head equals the new entry. */
  lemma AppendUndone<E>(l: Lst<E>, x: E)
    requires Ok(l) && l.cur != At(0)
    ensures Ok(AppendHere(l, x))
    ensures GetThis(AppendHere(l, x)) == (l, Some(x)) <==> l.items == [] || Given(l) > 0 || l.items[0] == x
  {
    hide Put, Without;
    if l.items == [] {
      PutThenCut([], 0, x);
      PutIntoNothing(x);
    } else if Given(l) > 0 {
      PutThenCut(l.items, This(l) + 1, x);
    } else {
      PutBehindFirst(l.items, x);
    }
  }

  lemma PutThenCut<E>(s: seq<E>, k: nat, x: E)
    requires k <= |s|
    ensures |Put(s, k, x)| == |s| + 1 && Put(s, k, x)[k] == x && Without(Put(s, k, x), k) == s
  {
  }

  lemma PutIntoNothing<E>(x: E)
    ensures Put([], 0, x) == [x]
  {
  }

  lemma PutBehindFirst<E>(s: seq<E>, x: E)
    requires s != []
    ensures |Put(s, 1, x)| == |s| + 1 && Put(s, 1, x)[0] == s[0]
    ensures s[0] == x ==> Without(Put(s, 1, x), 0) == s
  {
  }

  /** Replacing reports the entry that removing would return, and changes no other. */
  lemma ReplaceIsRemoveInPlace<E>(l: Lst<E>, x: E)
    requires Ok(l) && l.items != []
    ensures ReplaceThis(l, x).1 == GetThis(l).1
    ensures ReplaceThis(l, x).0 == Lst(Put(Without(l.items, This(l)), This(l), x), l.cur)
  {
    assert l.items[This(l) := x] == Put(Without(l.items, This(l)), This(l), x);
  }

  // ----- the end is sticky -----

  /** Everything that does not reposition the cursor. */
  datatype Any<E> = Edit(a: Act<E>) | Front(x: E) | Back(x: E)

  function Do<E>(l: Lst<E>, o: Any<E>): Lst<E>
    requires Ok(l)
  {
    match o
    case Edit(a) => Perform(l, a)
    case Front(x) => Insert(l, x)
    case Back(x) => Append(l, x)
  }

  lemma DoOk<E>(l: Lst<E>, o: Any<E>)
    requires Ok(l)
    ensures Ok(Do(l, o)) && (l.cur.End? ==> Do(l, o).cur.End?)
  {
  }

  function DoAll<E>(l: Lst<E>, os: seq<Any<E>>): (r: Lst<E>)
    requires Ok(l)
    ensures Ok(r)
    decreases |os|
  {
    if os == [] then l
    else
      DoOk(l, os[0]);
      DoAll(Do(l, os[0]), os[1..])
  }

  /** Once past the end, a list gives out nothing more whatever is put in or taken out, even when it has been
      emptied and filled again, until the cursor is repositioned. */
  lemma {:induction false} EndIsSticky<E>(l: Lst<E>, os: seq<Any<E>>)
    requires Ok(l) && l.cur.End?
    ensures Get(DoAll(l, os)).1 == None
    ensures DoAll(l, os).cur.End?
    decreases |os|
  {
    if os != [] {
      DoOk(l, os[0]);
      EndIsSticky(Do(l, os[0]), os[1..]);
    }
  }

  /** The list emptied from the front, and what came off it. */
  function Drain<E>(l: Lst<E>): (Lst<E>, seq<Option<E>>)
    requires Ok(l)
    decreases |l.items|
  {
    if l.items == [] then (l, [])
    else
      var r := Drain(GetNext(l).0);
      (r.0, [GetNext(l).1] + r.1)
  }

  /** Emptying from the front yields the entries in order; a passed end survives it, and is only cleared by one
      more call on the empty list. */
  lemma {:induction false} Drained<E>(l: Lst<E>)
    requires Ok(l)
    ensures Drain(l).1 == Handed(l.items, |l.items|)
    ensures Drain(l).0.items == [] && Ok(Drain(l).0) && (Drain(l).0.cur.End? <==> l.cur.End?)
    ensures GetNext(Drain(l).0) == (Lst([], Start), None)
    decreases |l.items|
  {
    if l.items != [] {
      Drained(GetNext(l).0);
    }
  }

  /** What is left to give out after entry `k` has been pulled. */
  function RestWithout<E>(l: Lst<E>, k: nat): seq<E>
    requires Ok(l) && k < |l.items|
  {
    if k < Given(l) then Rest(l) else Without(Rest(l), k - Given(l))
  }

  /** Pulling an entry moves a cursor past the end exactly when it stood on that entry and the entry was the last. In
      that case, and in no other, an entry appended next is not given out: everywhere else it comes after what was
      left. Taking an entry with `GetNext` or `GetThis` never moves a cursor past the end. */
  lemma PulledFromUnderTheCursor<E>(l: Lst<E>, k: nat, y: E)
    requires Ok(l) && k < |l.items| && !l.cur.End?
    ensures Ok(PullAt(l, k)) && Ok(Append(PullAt(l, k), y))
    ensures PullAt(l, k).cur.End? <==> l.cur == At(k) && k == |l.items| - 1
    ensures Rest(Append(PullAt(l, k), y)) == RestWithout(l, k) + [y] <==> !(l.cur == At(k) && k == |l.items| - 1)
    ensures l.cur == At(k) && k == |l.items| - 1 ==> Get(Append(PullAt(l, k), y)).1 == None
    ensures !GetNext(l).0.cur.End? && !GetThis(l).0.cur.End?
  {
    var rest := RestWithout(l, k) + [y];
    if !PullAt(l, k).cur.End? {
      assert Rest(Append(PullAt(l, k), y)) == rest;
    } else {
      assert Rest(Append(PullAt(l, k), y)) != rest by {
        assert |rest| > 0;
      }
    }
  }
}
