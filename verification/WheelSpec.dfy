/** The timer wheel of APPS/baselib/distributor.c as a sequence of sorted buckets. */
module WheelSpec {
  import opened SeqFacts

  const TIMERS_NUMBER_OF_ENT := 3600

  type TimerFunc(==)
  type Arg(==)

  datatype Time = Time(sec: nat, usec: nat)

  datatype Key = Key(action: TimerFunc, arg1: Arg, arg2: Arg, issued: int)

  class TimerEntry {
    const key: Key
    const expireTime: Time

    constructor (k: Key, at: Time)
      ensures key == k && expireTime == at
    {
      key, expireTime := k, at;
    }
  }

  /** Strictly earlier, seconds first. */
  predicate Before(a: Time, b: Time) {
    a.sec < b.sec || (a.sec == b.sec && a.usec < b.usec)
  }

  /** Microseconds carried into seconds, as long as there are more than a million. */
  function Carried(t: Time): (r: Time)
    ensures r.usec <= 1000000 && r.sec * 1000000 + r.usec == t.sec * 1000000 + t.usec
    ensures r.sec >= t.sec && (t.usec > 0 ==> r.usec > 0)
    decreases t.usec
  {
    if t.usec > 1000000 then Carried(Time(t.sec + 1, t.usec - 1000000)) else t
  }

  function Micros(t: Time): nat {
    t.sec * 1000000 + t.usec
  }

  /** Comparing carried times seconds first is comparing them as instants, except that a full million of
      microseconds counts as earlier than the next whole second, which it equals. */
  lemma CarriedOrder(a: Time, b: Time)
    requires a.usec <= 1000000 && b.usec <= 1000000
    ensures Before(a, b) <==> Micros(a) < Micros(b) || (a.usec == 1000000 && b == Time(a.sec + 1, 0))
  {
    if a.sec < b.sec {
      assert b.sec * 1000000 >= a.sec * 1000000 + 1000000;
    } else if a.sec > b.sec {
      assert a.sec * 1000000 >= b.sec * 1000000 + 1000000;
    }
  }

  function Bucket(t: TimerEntry): (i: nat)
    ensures i < TIMERS_NUMBER_OF_ENT
  {
    t.expireTime.sec % TIMERS_NUMBER_OF_ENT
  }

  // ----- one bucket -----

  ghost predicate Sorted(s: seq<TimerEntry>) {
    |s| <= 1 || (!Before(s[1].expireTime, s[0].expireTime) && Sorted(s[1..]))
  }

  /** The place before the first timer that expires later, or the end. */
  function Slot(s: seq<TimerEntry>, at: Time): (k: nat)
    ensures k <= |s|
    ensures forall i {:trigger s[i]} :: 0 <= i < k ==> !Before(at, s[i].expireTime)
    ensures k < |s| ==> Before(at, s[k].expireTime)
  {
    if s == [] || Before(at, s[0].expireTime) then 0 else 1 + Slot(s[1..], at)
  }

  function Placed(s: seq<TimerEntry>, t: TimerEntry): seq<TimerEntry> {
    s[..Slot(s, t.expireTime)] + [t] + s[Slot(s, t.expireTime)..]
  }

  function Taken(s: seq<TimerEntry>, t: TimerEntry): seq<TimerEntry> {
    if s == [] then [] else if s[0] == t then s[1..] else [s[0]] + Taken(s[1..], t)
  }

  /** The timers at the front that have expired. */
  function Due(s: seq<TimerEntry>, now: Time): seq<TimerEntry> {
    if s == [] || !Before(s[0].expireTime, now) then [] else [s[0]] + Due(s[1..], now)
  }

  function Left(s: seq<TimerEntry>, now: Time): seq<TimerEntry> {
    if s == [] || !Before(s[0].expireTime, now) then s else Left(s[1..], now)
  }

  lemma {:induction false} DueThenLeft(s: seq<TimerEntry>, now: Time)
    ensures s == Due(s, now) + Left(s, now)
  {
    if s != [] && Before(s[0].expireTime, now) {
      DueThenLeft(s[1..], now);
      assert s == [s[0]] + s[1..];
    }
  }

  lemma PlacedHead(s: seq<TimerEntry>, t: TimerEntry)
    ensures s == [] || Before(t.expireTime, s[0].expireTime) ==> Placed(s, t) == [t] + s
    ensures s != [] && !Before(t.expireTime, s[0].expireTime) ==> Placed(s, t) == [s[0]] + Placed(s[1..], t)
  {
    if s != [] && !Before(t.expireTime, s[0].expireTime) {
      var k := Slot(s[1..], t.expireTime);
      assert s[..k + 1] == [s[0]] + s[1..][..k];
      assert s[k + 1..] == s[1..][k..];
    }
  }

  /** A new timer keeps its bucket sorted. */
  lemma {:induction false} PlacedSorted(s: seq<TimerEntry>, t: TimerEntry)
    requires Sorted(s)
    ensures Sorted(Placed(s, t))
  {
    hide Placed, Before;
    PlacedHead(s, t);
    Tail(t, s);
    if s != [] {
      PlacedHead(s[1..], t);
      Tail(s[0], Placed(s[1..], t));
      Tail(t, s[1..]);
      if !Before(t.expireTime, s[0].expireTime) {
        PlacedSorted(s[1..], t);
      } else {
        NotBoth(t.expireTime, s[0].expireTime);
      }
    }
  }

  lemma NotBoth(a: Time, b: Time)
    requires Before(a, b)
    ensures !Before(b, a)
  {
  }

  lemma {:induction false} TakenSorted(s: seq<TimerEntry>, t: TimerEntry)
    requires Sorted(s)
    ensures Sorted(Taken(s, t))
  {
    if s != [] && s[0] != t {
      TakenSorted(s[1..], t);
      Tail(s[0], Taken(s[1..], t));
      if |s| > 2 {
        assert s[2] == s[1..][1..][0] && s[1] == s[1..][0] && s[2] == s[1..][1];
      }
      if |s| > 1 && s[1] != t {
        Tail(s[1], Taken(s[1..][1..], t));
      }
    }
  }

  /** In a sorted bucket the timers left at the front of the scan have not expired, and those taken have. */
  lemma {:induction false} DueIsExpired(s: seq<TimerEntry>, now: Time)
    requires Sorted(s)
    ensures forall t :: t in Due(s, now) ==> t in s && Before(t.expireTime, now)
    ensures forall t :: t in Left(s, now) ==> t in s && !Before(t.expireTime, now)
    ensures Sorted(Left(s, now)) && Sorted(Due(s, now))
  {
    if s != [] {
      if Before(s[0].expireTime, now) {
        DueIsExpired(s[1..], now);
        Tail(s[0], Due(s[1..], now));
        if Due(s[1..], now) != [] {
          assert Due(s[1..], now)[0] == s[1];
        }
      } else {
        AllLater(s, now);
      }
    }
  }

  lemma {:induction false} AllLater(s: seq<TimerEntry>, now: Time)
    requires Sorted(s) && (s != [] ==> !Before(s[0].expireTime, now))
    ensures forall t :: t in s ==> !Before(t.expireTime, now)
  {
    if s != [] {
      AllLater(s[1..], now);
      assert s == [s[0]] + s[1..];
    }
  }

  /** The timers of a bucket that expire at one instant, in bucket order. */
  function SameTime(s: seq<TimerEntry>, at: Time): seq<TimerEntry> {
    if s == [] then [] else if s[0].expireTime == at then [s[0]] + SameTime(s[1..], at) else SameTime(s[1..], at)
  }

  /** Among timers that expire together the one started last comes last. */
  lemma {:induction false} PlacedTies(s: seq<TimerEntry>, t: TimerEntry, at: Time)
    requires Sorted(s)
    ensures SameTime(Placed(s, t), at) == SameTime(s, at) + if at == t.expireTime then [t] else []
  {
    hide Placed, Before;
    PlacedHead(s, t);
    Tail(t, s);
    if s != [] {
      if Before(t.expireTime, s[0].expireTime) {
        if at == t.expireTime {
          NoneSoEarly(s, at);
        }
      } else {
        Tail(s[0], Placed(s[1..], t));
        PlacedTies(s[1..], t, at);
      }
    }
  }

  lemma {:induction false} NoneSoEarly(s: seq<TimerEntry>, at: Time)
    requires Sorted(s) && (s != [] ==> Before(at, s[0].expireTime))
    ensures SameTime(s, at) == []
  {
    if s != [] {
      NoneSoEarly(s[1..], at);
    }
  }

  lemma PlacedHolds(s: seq<TimerEntry>, t: TimerEntry)
    ensures multiset(Placed(s, t)) == multiset(s) + multiset{t} && |Placed(s, t)| == |s| + 1
  {
    assert s == s[..Slot(s, t.expireTime)] + s[Slot(s, t.expireTime)..];
  }

  lemma {:induction false} TakenHolds(s: seq<TimerEntry>, t: TimerEntry)
    requires t in s
    ensures multiset(Taken(s, t)) + multiset{t} == multiset(s) && |Taken(s, t)| + 1 == |s|
  {
    assert s == [s[0]] + s[1..];
    if s[0] != t {
      TakenHolds(s[1..], t);
    }
  }
}
