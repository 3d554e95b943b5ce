/** The whole wheel, and what any run of starting, stopping and checking timers does. */
module WheelRuns {
  import opened SeqFacts
  import opened WheelSpec

  type Wheel = bs: seq<seq<TimerEntry>> | |bs| == TIMERS_NUMBER_OF_ENT
    witness seq(TIMERS_NUMBER_OF_ENT, i => [])

  /** Each bucket is sorted and holds only timers that belong there. */
  ghost predicate BucketOk(s: seq<TimerEntry>, i: nat) {
    Sorted(s) && forall t :: t in s ==> Bucket(t) == i
  }

  ghost predicate InPlace(bs: Wheel) {
    forall i {:trigger bs[i]} :: 0 <= i < |bs| ==> BucketOk(bs[i], i)
  }

  predicate On(bs: Wheel, t: TimerEntry) {
    t in bs[Bucket(t)]
  }

  /** All timers in the buckets below `n`. */
  function Bag(bs: seq<seq<TimerEntry>>, n: nat): multiset<TimerEntry>
    requires n <= |bs|
  {
    if n == 0 then multiset{} else Bag(bs, n - 1) + multiset(bs[n - 1])
  }

  function Timers(bs: Wheel): multiset<TimerEntry> {
    Bag(bs, |bs|)
  }

  lemma {:induction false} BagUpdate(bs: seq<seq<TimerEntry>>, i: nat, s: seq<TimerEntry>, n: nat)
    requires i < |bs| && n <= |bs|
    ensures i >= n ==> Bag(bs[i := s], n) == Bag(bs, n)
    ensures i < n ==> Bag(bs[i := s], n) + multiset(bs[i]) == Bag(bs, n) + multiset(s)
  {
    if n > 0 {
      BagUpdate(bs, i, s, n - 1);
      var cs := bs[i := s];
      if i < n - 1 {
        assert Bag(cs, n) + multiset(bs[i]) == (Bag(cs, n - 1) + multiset(bs[i])) + multiset(bs[n - 1]);
      } else if i == n - 1 {
        assert Bag(cs, n) + multiset(bs[i]) == Bag(bs, n - 1) + multiset(s) + multiset(bs[i]);
      }
    }
  }

  /** One bucket changed by one timer, or by the timers in `more`. */
  lemma BagGains(bs: Wheel, i: nat, s: seq<TimerEntry>, more: multiset<TimerEntry>)
    requires i < |bs|
    ensures multiset(s) == multiset(bs[i]) + more ==> Timers(bs[i := s]) == Timers(bs) + more
    ensures multiset(s) + more == multiset(bs[i]) ==> Timers(bs[i := s]) + more == Timers(bs)
  {
    hide Bag;
    BagUpdate(bs, i, s, |bs|);
    Cancel(Timers(bs[i := s]), Timers(bs), multiset(bs[i]), multiset(s), more);
  }

  lemma Cancel<T>(a: multiset<T>, b: multiset<T>, x: multiset<T>, y: multiset<T>, more: multiset<T>)
    requires a + x == b + y
    ensures y == x + more ==> a == b + more
    ensures y + more == x ==> a + more == b
  {
    forall t
      ensures y == x + more ==> a[t] == (b + more)[t]
      ensures y + more == x ==> (a + more)[t] == b[t]
    {
      assert (a + x)[t] == (b + y)[t];
    }
  }

  lemma {:induction false} InBag(bs: Wheel, t: TimerEntry, n: nat)
    requires InPlace(bs) && n <= |bs|
    ensures t in Bag(bs, n) <==> Bucket(t) < n && On(bs, t)
  {
    if n > 0 {
      InBag(bs, t, n - 1);
      assert BucketOk(bs[n - 1], n - 1);
      assert t in multiset(bs[n - 1]) <==> t in bs[n - 1];
    }
  }

  /** A timer is in the bag of the wheel exactly when it is in its bucket. */
  lemma OnIsInBag(bs: Wheel, t: TimerEntry)
    requires InPlace(bs)
    ensures t in Timers(bs) <==> On(bs, t)
  {
    InBag(bs, t, |bs|);
  }

  // ----- the operations -----

  function Hung(bs: Wheel, t: TimerEntry): Wheel {
    bs[Bucket(t) := Placed(bs[Bucket(t)], t)]
  }

  function Removed(bs: Wheel, t: TimerEntry): Wheel {
    bs[Bucket(t) := Taken(bs[Bucket(t)], t)]
  }

  /** The buckets `i` to `stop` scanned: what stays on the wheel and what has come due, in the order found. */
  function Scan(bs: Wheel, i: nat, stop: nat, now: Time): (Wheel, seq<TimerEntry>)
    requires stop < TIMERS_NUMBER_OF_ENT
    decreases stop + 1 - i
  {
    if i > stop then (bs, [])
    else
      var r := Scan(bs[i := Left(bs[i], now)], i + 1, stop, now);
      (r.0, Due(bs[i], now) + r.1)
  }

  lemma PlacedOk(s: seq<TimerEntry>, t: TimerEntry)
    requires BucketOk(s, Bucket(t))
    ensures BucketOk(Placed(s, t), Bucket(t))
  {
    PlacedSorted(s, t);
    PlacedHolds(s, t);
    hide Placed, Bucket, Sorted;
    forall u | u in Placed(s, t)
      ensures Bucket(u) == Bucket(t)
    {
      assert u in multiset(s) + multiset{t};
    }
  }

  lemma TakenOk(s: seq<TimerEntry>, t: TimerEntry)
    requires BucketOk(s, Bucket(t)) && t in s
    ensures BucketOk(Taken(s, t), Bucket(t))
  {
    TakenSorted(s, t);
    TakenHolds(s, t);
    hide Taken, Bucket, Sorted;
    forall u | u in Taken(s, t)
      ensures Bucket(u) == Bucket(t)
    {
      assert u in multiset(Taken(s, t)) + multiset{t};
    }
  }

  /** Hanging a timer keeps the wheel in place and adds just that timer. */
  lemma HungOk(bs: Wheel, t: TimerEntry)
    requires InPlace(bs)
    ensures InPlace(Hung(bs, t)) && Timers(Hung(bs, t)) == Timers(bs) + multiset{t}
  {
    hide Placed, Bucket, BucketOk, Bag;
    var i := Bucket(t);
    assert BucketOk(bs[i], i);
    PlacedOk(bs[i], t);
    PlacedHolds(bs[i], t);
    BagGains(bs, i, Placed(bs[i], t), multiset{t});
    OthersKept(bs, i, Placed(bs[i], t));
  }

  lemma OthersKept(bs: Wheel, i: nat, s: seq<TimerEntry>)
    requires InPlace(bs) && i < |bs| && BucketOk(s, i)
    ensures InPlace(bs[i := s])
  {
    hide BucketOk;
  }

  lemma RemovedOk(bs: Wheel, t: TimerEntry)
    requires InPlace(bs) && On(bs, t)
    ensures InPlace(Removed(bs, t)) && Timers(Removed(bs, t)) + multiset{t} == Timers(bs)
  {
    hide Taken, Bucket, BucketOk, Bag;
    var i := Bucket(t);
    assert BucketOk(bs[i], i);
    TakenOk(bs[i], t);
    TakenHolds(bs[i], t);
    BagGains(bs, i, Taken(bs[i], t), multiset{t});
    OthersKept(bs, i, Taken(bs[i], t));
  }

  lemma LeftOk(s: seq<TimerEntry>, i: nat, now: Time)
    requires BucketOk(s, i)
    ensures BucketOk(Left(s, now), i)
  {
    DueIsExpired(s, now);
  }

  lemma DueAndLeft(s: seq<TimerEntry>, now: Time)
    ensures multiset(Left(s, now)) + multiset(Due(s, now)) == multiset(s)
  {
    DueThenLeft(s, now);
  }

  /** A scan keeps the wheel in place, and loses and duplicates no timer. */
  lemma {:induction false} ScanOk(bs: Wheel, i: nat, stop: nat, now: Time)
    requires InPlace(bs) && stop < TIMERS_NUMBER_OF_ENT
    ensures InPlace(Scan(bs, i, stop, now).0)
    ensures Timers(Scan(bs, i, stop, now).0) + multiset(Scan(bs, i, stop, now).1) == Timers(bs)
    decreases stop + 1 - i
  {
    hide InPlace, BucketOk, Bag, Due, Left;
    if i <= stop {
      OneBucket(bs, i, now);
      var r := Scan(bs[i := Left(bs[i], now)], i + 1, stop, now);
      ScanOk(bs[i := Left(bs[i], now)], i + 1, stop, now);
      assert multiset(Due(bs[i], now) + r.1) == multiset(Due(bs[i], now)) + multiset(r.1);
    }
  }

  lemma OneBucket(bs: Wheel, i: nat, now: Time)
    requires InPlace(bs) && i < |bs|
    ensures InPlace(bs[i := Left(bs[i], now)])
    ensures Timers(bs[i := Left(bs[i], now)]) + multiset(Due(bs[i], now)) == Timers(bs)
  {
    hide BucketOk, Due, Left, Bag;
    assert BucketOk(bs[i], i);
    LeftOk(bs[i], i, now);
    DueAndLeft(bs[i], now);
    OthersKept(bs, i, Left(bs[i], now));
    BagGains(bs, i, Left(bs[i], now), multiset(Due(bs[i], now)));
  }

  /** A scan takes off exactly the expired timers in the buckets it visits. */
  lemma {:induction false} ScanTakes(bs: Wheel, i: nat, stop: nat, now: Time, t: TimerEntry)
    requires InPlace(bs) && stop < TIMERS_NUMBER_OF_ENT
    ensures t in Scan(bs, i, stop, now).1 <==>
            On(bs, t) && i <= Bucket(t) <= stop && Before(t.expireTime, now)
    ensures Bucket(t) < i || Bucket(t) > stop ==> Scan(bs, i, stop, now).0[Bucket(t)] == bs[Bucket(t)]
    ensures i <= Bucket(t) <= stop ==> Scan(bs, i, stop, now).0[Bucket(t)] == Left(bs[Bucket(t)], now)
    decreases stop + 1 - i
  {
    hide BucketOk, Due, Left, Bucket, Before;
    if i <= stop {
      OneBucket(bs, i, now);
      ScanTakes(bs[i := Left(bs[i], now)], i + 1, stop, now, t);
      assert BucketOk(bs[i], i);
      DueIs(bs[i], i, now, t);
    }
  }

  lemma DueIs(s: seq<TimerEntry>, i: nat, now: Time, t: TimerEntry)
    requires BucketOk(s, i)
    ensures t in Due(s, now) <==> t in s && Before(t.expireTime, now)
    ensures t in Due(s, now) ==> Bucket(t) == i
  {
    DueIsExpired(s, now);
    DueThenLeft(s, now);
  }

  // ----- one check -----

  /** No timer on the wheel expires before second `sec`. */
  ghost predicate NotBefore(bs: Wheel, sec: nat) {
    forall i, t {:trigger t in bs[i]} :: 0 <= i < |bs| && t in bs[i] ==> t.expireTime.sec >= sec
  }

  /** The clock has moved on without passing the end of an hour of the wheel. */
  predicate SameHour(base: nat, now: nat) {
    base <= now && base % TIMERS_NUMBER_OF_ENT + (now - base) < TIMERS_NUMBER_OF_ENT
  }

  /** Within an hour of the wheel, seconds and buckets advance together. */
  lemma SecondsAndBuckets(base: nat, sec: nat, now: nat)
    requires SameHour(base, now) && base <= sec <= now
    ensures sec % TIMERS_NUMBER_OF_ENT == base % TIMERS_NUMBER_OF_ENT + (sec - base)
    ensures sec % TIMERS_NUMBER_OF_ENT <= now % TIMERS_NUMBER_OF_ENT
  {
  }

  function Checked(bs: Wheel, base: nat, now: Time): (Wheel, seq<TimerEntry>) {
    Scan(bs, base % TIMERS_NUMBER_OF_ENT, now.sec % TIMERS_NUMBER_OF_ENT, now)
  }

  /** The fired timers are the expired ones, in order of expiry, and every timer left expires later. */
  ghost predicate Exact(bs: Wheel, now: Time, after: Wheel, fired: seq<TimerEntry>) {
    && Sorted(fired)
    && (forall t :: t in fired ==> On(bs, t) && Before(t.expireTime, now))
    && (forall i, t {:trigger t in bs[i]} :: 0 <= i < |bs| && t in bs[i] ==>
          if Before(t.expireTime, now) then t in fired && !On(after, t) else On(after, t))
    && (forall i, t {:trigger t in after[i]} :: 0 <= i < |after| && t in after[i] ==>
          On(bs, t) && !Before(t.expireTime, now))
  }

  lemma OneTimer(bs: Wheel, base: nat, now: Time, t: TimerEntry)
    requires InPlace(bs) && NotBefore(bs, base) && SameHour(base, now.sec)
    ensures t in Checked(bs, base, now).1 <==> On(bs, t) && Before(t.expireTime, now)
    ensures On(Checked(bs, base, now).0, t) <==> On(bs, t) && !Before(t.expireTime, now)
  {
    var start, stop := base % TIMERS_NUMBER_OF_ENT, now.sec % TIMERS_NUMBER_OF_ENT;
    ScanTakes(bs, start, stop, now, t);
    assert BucketOk(bs[Bucket(t)], Bucket(t));
    var s := bs[Bucket(t)];
    DueIsExpired(s, now);
    DueThenLeft(s, now);
    assert t in s ==> t in Due(s, now) || t in Left(s, now);
    if On(bs, t) && t.expireTime.sec <= now.sec {
      SecondsAndBuckets(base, t.expireTime.sec, now.sec);
    }
  }

  lemma {:induction false} ScanAscends(bs: Wheel, base: nat, i: nat, now: Time)
    requires InPlace(bs) && NotBefore(bs, base) && SameHour(base, now.sec)
    requires base % TIMERS_NUMBER_OF_ENT <= i
    ensures var fired := Scan(bs, i, now.sec % TIMERS_NUMBER_OF_ENT, now).1;
            Sorted(fired)
            && (fired != [] ==> fired[0].expireTime.sec + base % TIMERS_NUMBER_OF_ENT >= base + i)
    decreases TIMERS_NUMBER_OF_ENT - i
  {
    var stop := now.sec % TIMERS_NUMBER_OF_ENT;
    if i <= stop {
      hide Bag, Before, Sorted, BucketOk, Left, Due, InPlace;
      OneBucket(bs, i, now);
      StillNotBefore(bs, base, i, now);
      ScanAscends(bs[i := Left(bs[i], now)], base, i + 1, now);
      DueSecond(bs, base, i, now);
      var rest := Scan(bs[i := Left(bs[i], now)], i + 1, stop, now).1;
      SortedJoin(Due(bs[i], now), rest, base + i - base % TIMERS_NUMBER_OF_ENT);
      if Due(bs[i], now) == [] {
        assert Due(bs[i], now) + rest == rest;
      }
    }
  }

  lemma StillNotBefore(bs: Wheel, base: nat, i: nat, now: Time)
    requires NotBefore(bs, base) && i < |bs|
    ensures NotBefore(bs[i := Left(bs[i], now)], base)
  {
    DueThenLeft(bs[i], now);
    assert forall t :: t in Left(bs[i], now) ==> t in Due(bs[i], now) + Left(bs[i], now);
  }

  lemma DueSecond(bs: Wheel, base: nat, i: nat, now: Time)
    requires InPlace(bs) && NotBefore(bs, base) && SameHour(base, now.sec)
    requires base % TIMERS_NUMBER_OF_ENT <= i <= now.sec % TIMERS_NUMBER_OF_ENT
    ensures Sorted(Due(bs[i], now))
    ensures forall t :: t in Due(bs[i], now) ==> t.expireTime.sec + base % TIMERS_NUMBER_OF_ENT == base + i
  {
    assert BucketOk(bs[i], i);
    DueIsExpired(bs[i], now);
    forall t | t in Due(bs[i], now)
      ensures t.expireTime.sec + base % TIMERS_NUMBER_OF_ENT == base + i
    {
      SecondsAndBuckets(base, t.expireTime.sec, now.sec);
    }
  }

  lemma {:induction false} SortedJoin(a: seq<TimerEntry>, b: seq<TimerEntry>, sec: nat)
    requires Sorted(a) && Sorted(b)
    requires forall t :: t in a ==> t.expireTime.sec == sec
    requires b != [] ==> b[0].expireTime.sec > sec
    ensures Sorted(a + b)
  {
    if a == [] {
      assert a + b == b;
    } else {
      SortedJoin(a[1..], b, sec);
      assert a + b == [a[0]] + (a[1..] + b);
      Tail(a[0], a[1..] + b);
      assert a[0] in a;
    }
  }

  /** A check that does not pass the end of an hour fires exactly what has expired, although it looks only at the
      buckets from the last check's second to its own. */
  lemma CheckIsExact(bs: Wheel, base: nat, now: Time)
    requires InPlace(bs) && NotBefore(bs, base) && SameHour(base, now.sec)
    ensures Exact(bs, now, Checked(bs, base, now).0, Checked(bs, base, now).1)
    ensures InPlace(Checked(bs, base, now).0) && NotBefore(Checked(bs, base, now).0, now.sec)
  {
    var r := Checked(bs, base, now);
    ScanAscends(bs, base, base % TIMERS_NUMBER_OF_ENT, now);
    ScanOk(bs, base % TIMERS_NUMBER_OF_ENT, now.sec % TIMERS_NUMBER_OF_ENT, now);
    hide Checked, Sorted, Before;
    forall t
      ensures t in r.1 <==> On(bs, t) && Before(t.expireTime, now)
      ensures On(r.0, t) <==> On(bs, t) && !Before(t.expireTime, now)
    {
      OneTimer(bs, base, now, t);
    }
    ExactFrom(bs, now, r.0, r.1);
    LaterFrom(r.0, now);
  }

  lemma ExactFrom(bs: Wheel, now: Time, after: Wheel, fired: seq<TimerEntry>)
    requires InPlace(bs) && InPlace(after) && Sorted(fired)
    requires forall t :: t in fired <==> On(bs, t) && Before(t.expireTime, now)
    requires forall t :: On(after, t) <==> On(bs, t) && !Before(t.expireTime, now)
    ensures Exact(bs, now, after, fired)
  {
    hide Bucket, Before, Sorted;
    forall i, t {:trigger t in bs[i]} | 0 <= i < |bs| && t in bs[i]
      ensures On(bs, t)
    {
      assert BucketOk(bs[i], i);
    }
    forall i, t {:trigger t in after[i]} | 0 <= i < |after| && t in after[i]
      ensures On(after, t)
    {
      assert BucketOk(after[i], i);
    }
  }

  lemma LaterFrom(after: Wheel, now: Time)
    requires InPlace(after)
    requires forall t :: On(after, t) ==> !Before(t.expireTime, now)
    ensures NotBefore(after, now.sec)
  {
    forall i, t {:trigger t in after[i]} | 0 <= i < |after| && t in after[i]
      ensures t.expireTime.sec >= now.sec
    {
      assert BucketOk(after[i], i);
      assert On(after, t);
    }
  }

  /** Without any assumption on the clock: a check leaves nothing expired behind exactly when every expired timer
      is in a bucket between the last check's and its own. */
  lemma CompleteIff(bs: Wheel, start: nat, stop: nat, now: Time)
    requires InPlace(bs) && stop < TIMERS_NUMBER_OF_ENT
    ensures (forall t :: On(Scan(bs, start, stop, now).0, t) ==> !Before(t.expireTime, now))
       <==> (forall t :: On(bs, t) && Before(t.expireTime, now) ==> start <= Bucket(t) <= stop)
  {
    hide Bucket, Before;
    var r := Scan(bs, start, stop, now);
    forall t
      ensures Bucket(t) < start || Bucket(t) > stop ==> (On(r.0, t) <==> On(bs, t))
      ensures start <= Bucket(t) <= stop ==> (On(r.0, t) <==> On(bs, t) && !Before(t.expireTime, now))
    {
      ScanTakes(bs, start, stop, now, t);
      assert BucketOk(bs[Bucket(t)], Bucket(t));
      DueIsExpired(bs[Bucket(t)], now);
      DueThenLeft(bs[Bucket(t)], now);
      assert t in bs[Bucket(t)] ==> t in Due(bs[Bucket(t)], now) || t in Left(bs[Bucket(t)], now);
    }
  }

  // ----- runs -----

  datatype Event = Start(t: TimerEntry) | Pull(t: TimerEntry) | Check(now: Time)

  /** The wheel and the time of the last check. */
  datatype World = World(wheel: Wheel, base: Time)

  function Step(w: World, e: Event): World {
    match e
    case Start(t) => w.(wheel := Hung(w.wheel, t))
    case Pull(t) => if On(w.wheel, t) then w.(wheel := Removed(w.wheel, t)) else w
    case Check(now) => World(Checked(w.wheel, w.base.sec, now).0, now)
  }

  function Fired(w: World, e: Event): seq<TimerEntry> {
    if e.Check? then Checked(w.wheel, w.base.sec, e.now).1 else []
  }

  function Final(w: World, es: seq<Event>): World
    decreases |es|
  {
    if es == [] then w else Final(Step(w, es[0]), es[1..])
  }

  /** Timers expire no earlier than the last check, and no check passes the end of an hour. */
  predicate Legal(w: World, e: Event) {
    match e
    case Start(t) => t.expireTime.sec >= w.base.sec
    case Pull(_) => true
    case Check(now) => SameHour(w.base.sec, now.sec)
  }

  ghost predicate LegalRun(w: World, es: seq<Event>)
    decreases |es|
  {
    es == [] || (Legal(w, es[0]) && LegalRun(Step(w, es[0]), es[1..]))
  }

  ghost predicate AllExact(w: World, es: seq<Event>)
    decreases |es|
  {
    es == [] ||
    (&& (es[0].Check? ==> Exact(w.wheel, es[0].now, Step(w, es[0]).wheel, Fired(w, es[0])))
     && AllExact(Step(w, es[0]), es[1..]))
  }

  ghost predicate Good(w: World) {
    InPlace(w.wheel) && NotBefore(w.wheel, w.base.sec)
  }

  lemma StepGood(w: World, e: Event)
    requires Good(w) && Legal(w, e)
    ensures Good(Step(w, e))
    ensures e.Check? ==> Exact(w.wheel, e.now, Step(w, e).wheel, Fired(w, e))
  {
    match e
    case Start(t) =>
      HungOk(w.wheel, t);
      PlacedHolds(w.wheel[Bucket(t)], t);
      StillLater(w.wheel, Bucket(t), Placed(w.wheel[Bucket(t)], t), multiset{t}, w.base.sec);
    case Pull(t) =>
      if On(w.wheel, t) {
        RemovedOk(w.wheel, t);
        TakenHolds(w.wheel[Bucket(t)], t);
        StillLater(w.wheel, Bucket(t), Taken(w.wheel[Bucket(t)], t), multiset{}, w.base.sec);
      }
    case Check(now) =>
      CheckIsExact(w.wheel, w.base.sec, now);
  }

  lemma StillLater(bs: Wheel, i: nat, s: seq<TimerEntry>, more: multiset<TimerEntry>, sec: nat)
    requires NotBefore(bs, sec) && i < |bs|
    requires multiset(s) <= multiset(bs[i]) + more
    requires forall t :: t in more ==> t.expireTime.sec >= sec
    ensures NotBefore(bs[i := s], sec)
  {
    forall t | t in s
      ensures t.expireTime.sec >= sec
    {
      assert multiset(s)[t] <= (multiset(bs[i]) + more)[t];
      assert t in multiset(bs[i]) || t in more;
      assert t in multiset(bs[i]) ==> t in bs[i];
    }
  }

  /** A timer started now or later expires no earlier than now: microseconds are only ever carried into seconds. */
  lemma StartIsLegal(w: World, t: TimerEntry, now: Time, sec: nat, usec: nat)
    requires now.sec >= w.base.sec && t.expireTime == Carried(Time(now.sec + sec, now.usec + usec))
    ensures Legal(w, Start(t))
  {
    assert Carried(Time(now.sec + sec, now.usec + usec)).sec >= now.sec + sec;
  }

  /** Over every such run each check fires exactly the timers that have expired by then, in order of expiry, and
      leaves on the wheel exactly those that have not. */
  lemma {:induction false} RunLeavesNothingBehind(w: World, es: seq<Event>)
    requires Good(w) && LegalRun(w, es)
    ensures AllExact(w, es) && Good(Final(w, es))
    decreases |es|
  {
    if es != [] {
      StepGood(w, es[0]);
      hide Good, Exact, Legal, Step, Fired;
      RunLeavesNothingBehind(Step(w, es[0]), es[1..]);
    }
  }

  // ----- nothing is lost -----

  /** What one event takes off the wheel. */
  function Out(w: World, e: Event): multiset<TimerEntry> {
    match e
    case Start(_) => multiset{}
    case Pull(t) => if On(w.wheel, t) then multiset{t} else multiset{}
    case Check(_) => multiset(Fired(w, e))
  }

  function Gone(w: World, es: seq<Event>): multiset<TimerEntry>
    decreases |es|
  {
    if es == [] then multiset{} else Out(w, es[0]) + Gone(Step(w, es[0]), es[1..])
  }

  lemma StepLosesNothing(w: World, e: Event)
    requires InPlace(w.wheel)
    ensures InPlace(Step(w, e).wheel)
    ensures Timers(Step(w, e).wheel) + Out(w, e) == Timers(w.wheel) + if e.Start? then multiset{e.t} else multiset{}
  {
    hide Bag, InPlace, On, Hung, Removed, Scan;
    match e
    case Start(t) => HungOk(w.wheel, t);
    case Pull(t) =>
      if On(w.wheel, t) {
        RemovedOk(w.wheel, t);
      }
    case Check(now) =>
      ScanOk(w.wheel, w.base.sec % TIMERS_NUMBER_OF_ENT, now.sec % TIMERS_NUMBER_OF_ENT, now);
  }

  function Started(es: seq<Event>): multiset<TimerEntry> {
    if es == [] then multiset{}
    else (if es[0].Start? then multiset{es[0].t} else multiset{}) + Started(es[1..])
  }

  lemma Chain<T>(a: multiset<T>, b: multiset<T>, c: multiset<T>,
                 out: multiset<T>, put: multiset<T>, gone: multiset<T>, started: multiset<T>)
    requires b + out == a + put && c + gone == b + started
    ensures c + (out + gone) == a + (put + started)
  {
    forall t
      ensures (c + (out + gone))[t] == (a + (put + started))[t]
    {
      assert (b + out)[t] == (a + put)[t] && (c + gone)[t] == (b + started)[t];
    }
  }

  /** Over any run at all, whatever the clock does, every timer started is fired or pulled once or is still on the
      wheel. */
  lemma {:induction false} NothingIsLost(w: World, es: seq<Event>)
    requires InPlace(w.wheel)
    ensures InPlace(Final(w, es).wheel)
    ensures Timers(Final(w, es).wheel) + Gone(w, es) == Timers(w.wheel) + Started(es)
    decreases |es|
  {
    if es != [] {
      hide Timers, InPlace, Step, Out;
      StepLosesNothing(w, es[0]);
      var next := Step(w, es[0]);
      NothingIsLost(next, es[1..]);
      var s := if es[0].Start? then multiset{es[0].t} else multiset{};
      Chain(Timers(w.wheel), Timers(next.wheel), Timers(Final(next, es[1..]).wheel),
            Out(w, es[0]), s, Gone(next, es[1..]), Started(es[1..]));
    }
  }

  // ----- passing the end of an hour -----

  /** A timer stays on the wheel, however long it has expired, through every run whose checks all fall before its
      slot in the hour. After a check that passes the end of an hour, which scans nothing, this is what happens
      to every timer it should have fired in the rest of the old hour. */
  lemma {:induction false} LateUntilItsSlot(w: World, es: seq<Event>, t: TimerEntry)
    requires InPlace(w.wheel) && On(w.wheel, t)
    requires forall e :: e in es ==> e != Pull(t) && (e.Check? ==> e.now.sec % TIMERS_NUMBER_OF_ENT < Bucket(t))
    ensures On(Final(w, es).wheel, t)
    decreases |es|
  {
    if es != [] {
      assert es[0] in es;
      match es[0] {
        case Start(u) =>
          HungOk(w.wheel, u);
          PlacedHolds(w.wheel[Bucket(u)], u);
          assert t in multiset(w.wheel[Bucket(t)]) + multiset{u};
        case Pull(u) =>
          if On(w.wheel, u) {
            RemovedOk(w.wheel, u);
            TakenHolds(w.wheel[Bucket(u)], u);
            assert t in multiset(Removed(w.wheel, u)[Bucket(t)]);
          }
        case Check(now) =>
          ScanOk(w.wheel, w.base.sec % TIMERS_NUMBER_OF_ENT, now.sec % TIMERS_NUMBER_OF_ENT, now);
          ScanTakes(w.wheel, w.base.sec % TIMERS_NUMBER_OF_ENT, now.sec % TIMERS_NUMBER_OF_ENT, now, t);
      }
      assert forall e :: e in es[1..] ==> e in es;
      LateUntilItsSlot(Step(w, es[0]), es[1..], t);
    }
  }

  /** The check that passes the end of an hour fires nothing. */
  lemma CrossingFiresNothing(bs: Wheel, base: nat, now: Time)
    requires now.sec % TIMERS_NUMBER_OF_ENT < base % TIMERS_NUMBER_OF_ENT
    ensures Checked(bs, base, now) == (bs, [])
  {
  }
}
