/** Subscriber lists over any run of subscriptions and unsubscriptions: always the stable sort, by precedence, of
    the registrations still in force. */
module SubscriberRuns {
  import opened ScanSpec
  import opened SeqFacts
  import opened SubscriberSpec

  /** `s` is `live` sorted by precedence, with first-registered-first among equals. */
  ghost predicate StableSort(s: seq<MsgConsumer>, live: seq<MsgConsumer>) {
    Sorted(s) && forall p: int :: Level(s, p) == Level(live, p)
  }

  /** The least precedence at which some subscriber matches. */
  function Least(s: seq<MsgConsumer>, r: Request): Option<int> {
    if s == [] then None
    else
      var rest := Least(s[1..], r);
      if !Matches(s[0], r) then rest
      else if rest.Some? && rest.value < s[0].precedence then rest
      else Some(s[0].precedence)
  }

  /** The earliest registration that matches at precedence `p` struck out. */
  function Strike(live: seq<MsgConsumer>, r: Request, p: int): seq<MsgConsumer> {
    if live == [] then []
    else if live[0].precedence == p && Matches(live[0], r) then live[1..]
    else [live[0]] + Strike(live[1..], r, p)
  }

  datatype Op = Subscribe(mc: MsgConsumer) | Unsubscribe(r: Request)

  /** The registrations in force, in the order they were made. An unsubscription ends the one of least
      precedence that it names, and among those the earliest. */
  function Live(ops: seq<Op>): seq<MsgConsumer> {
    if ops == [] then []
    else
      var was := Live(ops[..|ops| - 1]);
      match ops[|ops| - 1]
      case Subscribe(mc) => was + [mc]
      case Unsubscribe(r) => if Least(was, r).Some? then Strike(was, r, Least(was, r).value) else was
  }

  /** The list the code keeps. */
  function Kept(ops: seq<Op>): seq<MsgConsumer> {
    if ops == [] then []
    else
      var was := Kept(ops[..|ops| - 1]);
      match ops[|ops| - 1]
      case Subscribe(mc) => Placed(was, mc)
      case Unsubscribe(r) => Pulled(was, r)
  }

  // ----- levels -----

  lemma {:induction false} LevelAppend(live: seq<MsgConsumer>, mc: MsgConsumer, p: int)
    ensures Level(live + [mc], p) == Level(live, p) + if p == mc.precedence then [mc] else []
  {
    if live == [] {
      assert live + [mc] == [mc];
      Tail(mc, []);
    } else {
      LevelAppend(live[1..], mc, p);
      assert live + [mc] == [live[0]] + (live[1..] + [mc]);
      Tail(live[0], live[1..] + [mc]);
    }
  }

  lemma {:induction false} LevelStrike(live: seq<MsgConsumer>, r: Request, p: int, q: int)
    ensures Level(Strike(live, r, p), q) == if q == p then Pulled(Level(live, p), r) else Level(live, q)
  {
    if live != [] {
      var x := live[0];
      LevelStrike(live[1..], r, p, q);
      Tail(x, Strike(live[1..], r, p));
      if x.precedence == p {
        Tail(x, Level(live[1..], p));
        PulledHead([x] + Level(live[1..], p), r);
      }
      hide Pulled, Matches;
    }
  }

  /** Pulling from a sorted list pulls from the level of least precedence that has a match. */
  lemma {:induction false} LevelPulled(s: seq<MsgConsumer>, r: Request, q: int)
    requires Sorted(s)
    ensures First(s, r).Some? <==> Least(s, r).Some?
    ensures First(s, r).Some? ==> First(s, r).value.precedence == Least(s, r).value
    ensures Least(s, r).None? ==> Pulled(s, r) == s
    ensures Least(s, r).Some? ==>
              Level(Pulled(s, r), q) == if q == Least(s, r).value then Pulled(Level(s, q), r) else Level(s, q)
  {
    if s != [] {
      var x := s[0];
      LevelPulled(s[1..], r, q);
      FirstHead(s, r);
      PulledHead(s, r);
      LeastAbove(s[1..], r, x.precedence);
      Tail(x, Pulled(s[1..], r));
      Tail(x, Level(s[1..], q));
      PulledHead([x] + Level(s[1..], q), r);
      hide Pulled, Matches, First;
    }
  }

  lemma {:induction false} LeastAbove(s: seq<MsgConsumer>, r: Request, p: int)
    requires Sorted(s) && (s != [] ==> s[0].precedence >= p)
    ensures Least(s, r).Some? ==> Least(s, r).value >= p
  {
    if s != [] {
      LeastAbove(s[1..], r, p);
    }
  }

  // ----- the least precedence depends only on the levels -----

  /** Some subscriber at precedence `p` matches. */
  predicate At(s: seq<MsgConsumer>, r: Request, p: int) {
    First(Level(s, p), r).Some?
  }

  lemma {:induction false} LeastIsThere(s: seq<MsgConsumer>, r: Request, q: int)
    ensures At(s, r, q) ==> Least(s, r).Some? && Least(s, r).value <= q
    ensures Least(s, r) == Some(q) ==> At(s, r, q)
  {
    if s != [] {
      LeastIsThere(s[1..], r, q);
      if s[0].precedence == q {
        Tail(s[0], Level(s[1..], q));
        FirstHead([s[0]] + Level(s[1..], q), r);
      }
      hide First, Matches;
    }
  }

  lemma SameLeast(s: seq<MsgConsumer>, t: seq<MsgConsumer>, r: Request)
    requires forall p: int :: Level(s, p) == Level(t, p)
    ensures Least(s, r) == Least(t, r)
  {
    if Least(s, r).Some? {
      LeastIsThere(s, r, Least(s, r).value);
      LeastIsThere(t, r, Least(s, r).value);
      assert Level(s, Least(s, r).value) == Level(t, Least(s, r).value);
    }
    if Least(t, r).Some? {
      LeastIsThere(t, r, Least(t, r).value);
      LeastIsThere(s, r, Least(t, r).value);
      assert Level(s, Least(t, r).value) == Level(t, Least(t, r).value);
    }
  }

  // ----- the theorems -----

  lemma StableSubscribe(s: seq<MsgConsumer>, live: seq<MsgConsumer>, mc: MsgConsumer)
    requires StableSort(s, live)
    ensures StableSort(Placed(s, mc), live + [mc])
  {
    hide Placed;
    PlacedSorted(s, mc);
    forall p: int
      ensures Level(Placed(s, mc), p) == Level(live + [mc], p)
    {
      PlacedLevel(s, mc, p);
      LevelAppend(live, mc, p);
    }
  }

  lemma StableUnsubscribe(s: seq<MsgConsumer>, live: seq<MsgConsumer>, r: Request)
    requires StableSort(s, live)
    ensures Least(s, r) == Least(live, r)
    ensures StableSort(Pulled(s, r), if Least(live, r).Some? then Strike(live, r, Least(live, r).value) else live)
  {
    hide Pulled;
    SameLeast(s, live, r);
    PulledSorted(s, r);
    var l := if Least(live, r).Some? then Strike(live, r, Least(live, r).value) else live;
    forall p: int
      ensures Level(Pulled(s, r), p) == Level(l, p)
    {
      LevelPulled(s, r, p);
      if Least(live, r).Some? {
        LevelStrike(live, r, Least(live, r).value, p);
      }
    }
  }

  /** Over any run the list is the stable sort of the registrations in force. */
  lemma {:induction false} EveryRunIsSorted(ops: seq<Op>)
    ensures StableSort(Kept(ops), Live(ops))
  {
    if ops != [] {
      var before := ops[..|ops| - 1];
      EveryRunIsSorted(before);
      hide Placed, Pulled;
      match ops[|ops| - 1]
      case Subscribe(mc) => StableSubscribe(Kept(before), Live(before), mc);
      case Unsubscribe(r) => StableUnsubscribe(Kept(before), Live(before), r);
    }
  }

  /** There is only one stable sort, so that the run theorem determines the list. */
  lemma {:induction false} OneStableSort(s: seq<MsgConsumer>, t: seq<MsgConsumer>)
    requires Sorted(s) && Sorted(t) && forall p: int :: Level(s, p) == Level(t, p)
    ensures s == t
  {
    if s == [] {
      if t != [] {
        assert Level(t, t[0].precedence) == Level(s, t[0].precedence);
      }
    } else {
      assert Level(t, s[0].precedence) == Level(s, s[0].precedence);
      if t != [] {
        assert Level(t, t[0].precedence) == Level(s, t[0].precedence);
        FirstLevels(s, t);
        forall p: int
          ensures Level(s[1..], p) == Level(t[1..], p)
        {
          assert Level(s, p) == Level(t, p);
          Tail(s[0], Level(s[1..], p));
          Tail(s[0], Level(t[1..], p));
        }
        OneStableSort(s[1..], t[1..]);
        assert s == [s[0]] + s[1..] && t == [t[0]] + t[1..];
      }
    }
  }

  lemma FirstLevels(s: seq<MsgConsumer>, t: seq<MsgConsumer>)
    requires Sorted(s) && Sorted(t) && s != [] && t != []
    requires Level(t, s[0].precedence) == Level(s, s[0].precedence)
    requires Level(t, t[0].precedence) == Level(s, t[0].precedence)
    ensures s[0] == t[0]
  {
    if s[0].precedence > t[0].precedence {
      NoneAt(s, t[0].precedence);
    } else if t[0].precedence > s[0].precedence {
      NoneAt(t, s[0].precedence);
    } else {
      Tail(s[0], Level(s[1..], s[0].precedence));
      Tail(t[0], Level(t[1..], s[0].precedence));
    }
  }
}
