/** The timer wheel object of APPS/baselib/distributor.c: 3600 lists, an index of the live timers and a count. */
module TimerWheel {
  import opened SeqFacts
  import opened WheelSpec
  import opened WheelRuns

  /** The index leads to timers on the wheel, each under its own key; without duplicates it leads to all. */
  ghost predicate Indexed(hash: map<Key, TimerEntry>, noDup: bool, bag: multiset<TimerEntry>) {
    && (forall k :: k in hash ==> hash[k].key == k && hash[k] in bag)
    && (noDup ==> forall t :: t in bag ==> t.key in hash && hash[t.key] == t)
  }

  ghost predicate Once(bag: multiset<TimerEntry>) {
    forall t :: t in bag ==> bag[t] == 1
  }

  lemma IndexedLess(hash: map<Key, TimerEntry>, noDup: bool, bag: multiset<TimerEntry>, k: Key, less: multiset<TimerEntry>)
    requires Indexed(hash, noDup, bag) && k in hash
    requires forall t :: t in less <==> t in bag && t != hash[k]
    ensures Indexed(hash - {k}, noDup, less)
  {
  }

  lemma IndexedMore(hash: map<Key, TimerEntry>, noDup: bool, bag: multiset<TimerEntry>, te: TimerEntry,
                    more: multiset<TimerEntry>)
    requires Indexed(hash, noDup, bag) && (noDup ==> te.key !in hash)
    requires forall t :: t in more <==> t in bag || t == te
    ensures Indexed(if te.key in hash then hash else hash[te.key := te], noDup, more)
  {
  }

  /** What the index leads to is on the wheel. */
  lemma IndexedIsOn(hash: map<Key, TimerEntry>, noDup: bool, bag: multiset<TimerEntry>, k: Key)
    requires Indexed(hash, noDup, bag) && k in hash
    ensures hash[k] in bag
  {
  }

  class TimerWheelT {
    const timers: array<seq<TimerEntry>>
    var timerhash: map<Key, TimerEntry>
    var timer_cnt: int
    var timer_issued_cnt: int
    var lasttimeoutchk: nat
    var lastKnownTime: Time
    var no_dup_timer: bool
    /** The time of the last check, or that at which the loop set out. */
    ghost var lastCheck: Time

    ghost function View(): Wheel
      requires timers.Length == TIMERS_NUMBER_OF_ENT
      reads timers
    {
      timers[..]
    }

    ghost predicate Valid()
      reads this, timers
    {
      && timers.Length == TIMERS_NUMBER_OF_ENT
      && InPlace(View()) && Once(Timers(View())) && Indexed(timerhash, no_dup_timer, Timers(View()))
      && timer_cnt == |Timers(View())|
      && lasttimeoutchk == lastCheck.sec % TIMERS_NUMBER_OF_ENT
    }

    /** The state that the theorems about runs speak of. */
    ghost function State(): World
      requires timers.Length == TIMERS_NUMBER_OF_ENT
      reads this, timers
    {
      World(View(), lastCheck)
    }

    constructor (now: Time)
      ensures Valid() && fresh(timers) && timerhash == map[] && timer_cnt == 0 && no_dup_timer
      ensures Timers(View()) == multiset{} && lastCheck == Time(0, 0) && Good(State())
    {
      timers := new seq<TimerEntry>[TIMERS_NUMBER_OF_ENT](_ => []);
      timerhash := map[];
      timer_cnt, timer_issued_cnt := 0, 1;
      lasttimeoutchk := 0;
      lastCheck := Time(0, 0);
      lastKnownTime := now;
      no_dup_timer := true;
      new;
      EmptyWheel(View());
    }

    lemma EmptyWheel(bs: Wheel)
      requires forall i {:trigger bs[i]} :: 0 <= i < |bs| ==> bs[i] == []
      ensures InPlace(bs) && Timers(bs) == multiset{}
    {
      EmptyBag(bs, |bs|);
    }

    lemma {:induction false} EmptyBag(bs: Wheel, n: nat)
      requires n <= |bs| && forall i {:trigger bs[i]} :: 0 <= i < |bs| ==> bs[i] == []
      ensures Bag(bs, n) == multiset{}
    {
      if n > 0 {
        EmptyBag(bs, n - 1);
      }
    }

    /** Takes the timer with this function, arguments and number off the wheel. */
    method PullTimer(f: TimerFunc, a: Arg, b: Arg, entry: int) returns (pe: TimerEntry?)
      requires Valid()
      modifies this`timerhash, timers
      ensures timers.Length == TIMERS_NUMBER_OF_ENT
      ensures var k := Key(f, a, b, if no_dup_timer then 0 else entry);
              && pe == (if k in old(timerhash) then old(timerhash[k]) else null)
              && timerhash == old(timerhash) - {k}
      ensures View() == if pe != null then Removed(old(View()), pe) else old(View())
    {
      var h := Key(f, a, b, if no_dup_timer then 0 else entry);
      if h in timerhash {
        pe := timerhash[h];
        var i := pe.expireTime.sec % TIMERS_NUMBER_OF_ENT;
        timers[i] := Taken(timers[i], pe);
        timerhash := timerhash - {h};
      } else {
        pe := null;
      }
    }

    /** The place for a new timer in its bucket, found by walking the bucket. */
    method FindSlot(s: seq<TimerEntry>, at: Time) returns (j: nat)
      ensures j == Slot(s, at)
    {
      j := 0;
      if s == [] {
        return;
      }
      while true
        invariant j < |s|
        invariant forall i {:trigger s[i]} :: 0 <= i < j ==> !Before(at, s[i].expireTime)
        decreases |s| - j
      {
        if s[j].expireTime.sec > at.sec {
          SlotIs(s, at, j);
          return;
        } else if s[j].expireTime.sec == at.sec {
          if s[j].expireTime.usec > at.usec {
            SlotIs(s, at, j);
            return;
          }
        }
        if j + 1 == |s| {
          SlotIs(s, at, j + 1);
          return j + 1;
        }
        j := j + 1;
      }
    }

    lemma SlotIs(s: seq<TimerEntry>, at: Time, j: nat)
      requires j <= |s| && (j < |s| ==> Before(at, s[j].expireTime))
      requires forall i {:trigger s[i]} :: 0 <= i < j ==> !Before(at, s[i].expireTime)
      ensures j == Slot(s, at)
    {
    }

    /** Microseconds carried into seconds, by the loop. */
    method Carry(t: Time) returns (r: Time)
      ensures r == Carried(t)
    {
      r := t;
      while r.usec > 1000000
        invariant Carried(r) == Carried(t)
        decreases r.usec
      {
        r := Time(r.sec + 1, r.usec - 1000000);
      }
    }

    /** The wheel after a pull keeps all that `Valid` says, except the index entry and the count. */
    lemma PulledOk(pe: TimerEntry, bs: Wheel)
      requires InPlace(bs) && Once(Timers(bs)) && pe in Timers(bs)
      ensures InPlace(Removed(bs, pe)) && Once(Timers(Removed(bs, pe)))
      ensures Timers(Removed(bs, pe)) + multiset{pe} == Timers(bs)
      ensures forall t :: t in Timers(Removed(bs, pe)) <==> t in Timers(bs) && t != pe
      ensures |Timers(Removed(bs, pe))| + 1 == |Timers(bs)|
    {
      OnIsInBag(bs, pe);
      RemovedOk(bs, pe);
      OneOut(Timers(Removed(bs, pe)), Timers(bs), pe);
    }

    lemma OneOut(small: multiset<TimerEntry>, big: multiset<TimerEntry>, pe: TimerEntry)
      requires small + multiset{pe} == big && Once(big)
      ensures Once(small) && (forall t :: t in small <==> t in big && t != pe) && |small| + 1 == |big|
    {
      forall t
        ensures small[t] == if t == pe then big[t] - 1 else big[t]
      {
        assert (small + multiset{pe})[t] == big[t];
      }
      assert |small + multiset{pe}| == |small| + 1;
    }

    lemma OneIn(small: multiset<TimerEntry>, te: TimerEntry)
      requires Once(small) && te !in small
      ensures Once(small + multiset{te}) && (forall t :: t in small + multiset{te} <==> t in small || t == te)
      ensures |small + multiset{te}| == |small| + 1
    {
    }

    lemma FreshIsOff(te: TimerEntry, bs: Wheel)
      requires InPlace(bs) && forall i {:trigger bs[i]} :: 0 <= i < |bs| ==> te !in bs[i]
      ensures te !in Timers(bs)
    {
      OnIsInBag(bs, te);
    }

    /** A timer in its place on the wheel, counted. */
    method Hang(te: TimerEntry)
      requires timers.Length == TIMERS_NUMBER_OF_ENT
      requires InPlace(View()) && Once(Timers(View())) && te !in Timers(View())
      modifies timers, `timer_cnt
      ensures View() == Hung(old(View()), te) && timer_cnt == old(timer_cnt) + 1
      ensures InPlace(View()) && Once(Timers(View()))
      ensures Timers(View()) == old(Timers(View())) + multiset{te}
    {
      hide Slot, InPlace, Once, Timers;
      var listentry := te.expireTime.sec % TIMERS_NUMBER_OF_ENT;
      HungOk(View(), te);
      OneIn(Timers(View()), te);
      var j := FindSlot(timers[listentry], te.expireTime);
      timers[listentry] := timers[listentry][..j] + [te] + timers[listentry][j..];
      timer_cnt := timer_cnt + 1;
      assert View() == Hung(old(View()), te);
    }

    /** A pull with the count brought down, which leaves the wheel in order. */
    method PullCounted(f: TimerFunc, a: Arg, b: Arg, entry: int) returns (pe: TimerEntry?)
      requires Valid()
      modifies `timerhash, `timer_cnt, timers
      ensures Valid()
      ensures var k := Key(f, a, b, if no_dup_timer then 0 else entry);
              && pe == (if k in old(timerhash) then old(timerhash[k]) else null)
              && timerhash == old(timerhash) - {k}
      ensures View() == if pe != null then Removed(old(View()), pe) else old(View())
    {
      hide InPlace, Timers, Removed, Indexed, Once;
      ghost var k := Key(f, a, b, if no_dup_timer then 0 else entry);
      if k in timerhash {
        IndexedIsOn(timerhash, no_dup_timer, Timers(View()), k);
        PulledOk(timerhash[k], View());
        IndexedLess(timerhash, no_dup_timer, Timers(View()), k, Timers(Removed(View(), timerhash[k])));
      } else {
        assert timerhash - {k} == timerhash;
      }
      pe := PullTimer(f, a, b, entry);
      if pe != null {
        timer_cnt := timer_cnt - 1;
        if timer_cnt < 0 {
          assert false;
        }
      }
    }

    /** A new timer entered in the index, if its key is free, and hung on the wheel. */
    method Launch(entry: TimerEntry)
      requires Valid() && entry !in Timers(View())
      requires no_dup_timer ==> entry.key !in timerhash
      modifies `timerhash, `timer_cnt, timers
      ensures Valid() && View() == Hung(old(View()), entry)
      ensures timerhash == if entry.key in old(timerhash) then old(timerhash) else old(timerhash)[entry.key := entry]
    {
      hide InPlace, Timers, Hung, Indexed, Once;
      OneIn(Timers(View()), entry);
      IndexedMore(timerhash, no_dup_timer, Timers(View()), entry, Timers(View()) + multiset{entry});
      if entry.key !in timerhash {
        timerhash := timerhash[entry.key := entry];
      }
      Hang(entry);
    }

    /** Starts a timer to expire `a` seconds and `b` microseconds from now. Without duplicates it replaces the live
        timer with the same function and arguments; otherwise it gets a number of its own. */
    method TimerStart(f: TimerFunc, a: nat, b: nat, c: Arg, d: Arg, now: Time)
        returns (used_entry: int, ghost te: TimerEntry)
      requires Valid()
      modifies this, timers
      ensures Valid() && fresh(te)
      ensures te.key == Key(f, c, d, used_entry)
      ensures te.expireTime == Carried(Time(now.sec + a, now.usec + b))
      ensures var k := Key(f, c, d, 0);
              var was := if no_dup_timer && k in old(timerhash) then Removed(old(View()), old(timerhash[k]))
                         else old(View());
              View() == Hung(was, te)
      ensures used_entry == (if no_dup_timer then 0 else old(timer_issued_cnt))
      ensures timerhash == if !no_dup_timer && te.key in old(timerhash) then old(timerhash) else old(timerhash)[te.key := te]
      ensures timer_issued_cnt == if no_dup_timer then old(timer_issued_cnt)
                                  else if old(timer_issued_cnt) + 1 == 0x7fffffff then 1 else old(timer_issued_cnt) + 1
      ensures no_dup_timer == old(no_dup_timer) && lastCheck == old(lastCheck)
      ensures old(Good(State())) && now.sec >= lastCheck.sec ==> Good(State())
    {
      hide InPlace, Timers, Hung, Removed, Carried, Indexed, Once, Good;
      if no_dup_timer {
        if Good(State()) && Key(f, c, d, 0) in timerhash {
          PulledStaysGood(Key(f, c, d, 0));
        }
        var pe := PullCounted(f, c, d, 0);
        used_entry := 0;
      } else {
        used_entry := timer_issued_cnt;
        timer_issued_cnt := timer_issued_cnt + 1;
        if timer_issued_cnt == 0x7fffffff {
          timer_issued_cnt := 1;
        }
      }
      lastKnownTime := now;
      var at := Carry(Time(now.sec + a, now.usec + b));
      var entry := new TimerEntry(Key(f, c, d, used_entry), at);
      FreshIsOff(entry, View());
      te := entry;
      ghost var was := State();
      if Good(was) && now.sec >= lastCheck.sec {
        StartIsLegal(was, entry, now, a, b);
        StepGood(was, Start(entry));
      }
      Launch(entry);
    }

    /** Taking off what the index leads to leaves no timer that expires too early. */
    lemma PulledStaysGood(k: Key)
      requires Valid() && Good(State()) && k in timerhash
      ensures Good(State().(wheel := Removed(View(), timerhash[k])))
    {
      IndexedIsOn(timerhash, no_dup_timer, Timers(View()), k);
      OnIsInBag(View(), timerhash[k]);
      StepGood(State(), Pull(timerhash[k]));
    }

    /** Stops a timer; the answer says whether there was one. */
    method TimerStop(f: TimerFunc, a: Arg, b: Arg, entry: int) returns (ok: bool)
      requires Valid()
      modifies this, timers
      ensures Valid()
      ensures var k := Key(f, a, b, if no_dup_timer then 0 else entry);
              && ok == (k in old(timerhash)) && timerhash == old(timerhash) - {k}
              && View() == (if ok then Removed(old(View()), old(timerhash[k])) else old(View()))
      ensures no_dup_timer == old(no_dup_timer) && lastCheck == old(lastCheck)
      ensures old(Good(State())) ==> Good(State())
    {
      hide Removed, Good, Indexed, InPlace, Timers, Once;
      ghost var k := Key(f, a, b, if no_dup_timer then 0 else entry);
      if Good(State()) && k in timerhash {
        PulledStaysGood(k);
      }
      var pe := PullCounted(f, a, b, entry);
      ok := pe != null;
    }

    /** The expired timers at the front of one bucket moved to the list `fired`. */
    method Collect(i: nat, now: Time, before: seq<TimerEntry>) returns (fired: seq<TimerEntry>)
      requires timers.Length == TIMERS_NUMBER_OF_ENT && i < timers.Length
      modifies timers, `timer_cnt
      ensures fired == before + Due(old(timers[i]), now)
      ensures View() == old(View())[i := Left(old(timers[i]), now)]
      ensures timer_cnt + |fired| == old(timer_cnt) + |before|
    {
      fired := before;
      ghost var s := timers[i];
      ghost var n := 0;
      assert before + Due(s, now) == fired + Due(timers[i], now);
      while timers[i] != []
        invariant n <= |Due(s, now)| && |Due(s, now)| == n + |Due(timers[i], now)|
        invariant before + Due(s, now) == fired + Due(timers[i], now)
        invariant Left(timers[i], now) == Left(s, now)
        invariant forall j :: 0 <= j < timers.Length && j != i ==> timers[j] == old(timers[j])
        invariant timer_cnt == old(timer_cnt) - n
        decreases |timers[i]|
      {
        var te := timers[i][0];
        if te.expireTime.sec < now.sec || (te.expireTime.sec == now.sec && te.expireTime.usec < now.usec) {
          assert fired + Due(timers[i], now) == fired + [te] + Due(timers[i][1..], now);
          fired := fired + [te];
          timers[i] := timers[i][1..];
          timer_cnt := timer_cnt - 1;
          n := n + 1;
        } else {
          break;
        }
      }
      assert fired + [] == fired;
    }

    /** The keys of the fired timers taken out of the index. */
    method Forget(fired: seq<TimerEntry>)
      modifies `timerhash
      ensures timerhash == old(timerhash) - set t | t in fired :: t.key
    {
      var i := 0;
      while i < |fired|
        invariant i <= |fired|
        invariant timerhash == old(timerhash) - set t | t in fired[..i] :: t.key
      {
        assert (set t | t in fired[..i + 1] :: t.key) == (set t | t in fired[..i] :: t.key) + {fired[i].key};
        timerhash := timerhash - {fired[i].key};
        i := i + 1;
      }
      assert fired[..i] == fired;
    }

    /** The buckets from `start` to `stop` visited in turn. */
    method Sweep(start: nat, stop: nat, now: Time) returns (fired: seq<TimerEntry>)
      requires timers.Length == TIMERS_NUMBER_OF_ENT && stop < TIMERS_NUMBER_OF_ENT
      modifies timers, `timer_cnt
      ensures (View(), fired) == Scan(old(View()), start, stop, now)
      ensures timer_cnt + |fired| == old(timer_cnt)
    {
      hide Due, Left, Scan;
      fired := [];
      ghost var bs := View();
      ScanStart(bs, start, stop, now);
      var i := start;
      while i <= stop
        invariant Onward(View(), fired, i, stop, now) == Scan(bs, start, stop, now)
        invariant timer_cnt + |fired| == old(timer_cnt)
      {
        ScanNext(View(), fired, i, stop, now);
        fired := Collect(i, now, fired);
        i := i + 1;
      }
      ScanDone(View(), fired, i, stop, now);
    }

    /** Takes every expired timer in the buckets from the last check to now off the wheel, and out of the index as
        it is called; the calls made are `fired`, in order. */
    method CheckTimeOutList(now: Time) returns (fired: seq<TimerEntry>)
      requires Valid()
      modifies this, timers
      ensures Valid() && lastCheck == now
      ensures (View(), fired) == Checked(old(View()), old(lastCheck.sec), now)
      ensures old(Good(State())) && SameHour(old(lastCheck.sec), now.sec) ==>
                Exact(old(View()), now, View(), fired) && Good(State())
      ensures timerhash == old(timerhash) - set t | t in fired :: t.key
      ensures no_dup_timer == old(no_dup_timer)
    {
      hide InPlace, Timers, Indexed, Once, Scan, NotBefore, Exact, SameHour;
      if Good(State()) && SameHour(lastCheck.sec, now.sec) {
        CheckIsExact(View(), lastCheck.sec, now);
      }
      lastKnownTime := now;
      var start := lasttimeoutchk;
      var stop := now.sec % TIMERS_NUMBER_OF_ENT;
      ghost var bs := View();
      ScanOk(bs, start, stop, now);
      fired := Sweep(start, stop, now);
      lasttimeoutchk := stop;
      lastCheck := now;
      Forget(fired);
      FiredForgotten(old(timerhash), no_dup_timer, Timers(bs), Timers(View()), fired);
    }

    /** Where the loop of the distributor sets out on the wheel. From here on no check leaves anything behind, if no
        timer expires before this second. */
    method BeginLoop(now: Time)
      requires Valid()
      modifies `lastKnownTime, `lasttimeoutchk, `lastCheck
      ensures Valid() && lastCheck == now && (Good(State()) <==> NotBefore(View(), now.sec))
    {
      hide Timers, Indexed, Once;
      lastKnownTime := now;
      lasttimeoutchk := now.sec % TIMERS_NUMBER_OF_ENT;
      lastCheck := now;
    }

    /** One more check, after checks that have fired `was`. */
    method CheckOn(was: seq<TimerEntry>, now: Time) returns (fired: seq<TimerEntry>)
      requires Valid() && Good(State()) && SameHour(lastCheck.sec, now.sec) && Sorted(was)
      requires was == [] || ((forall t :: t in was ==> Before(t.expireTime, lastCheck)) && !Before(now, lastCheck))
      requires was == [] || forall t :: t in Timers(View()) ==> !Before(t.expireTime, lastCheck)
      modifies this, timers
      ensures Valid() && Good(State()) && lastCheck == now && Sorted(fired)
      ensures Timers(View()) + multiset(fired) == old(Timers(View())) + multiset(was)
      ensures forall t :: t in fired ==> Before(t.expireTime, now)
      ensures forall t :: t in Timers(View()) ==> !Before(t.expireTime, now)
    {
      hide InPlace, Timers, Indexed, Once, Checked, SameHour, NotBefore, Exact, Before, Sorted, Good;
      ghost var bs, last := View(), lastCheck;
      var more := CheckTimeOutList(now);
      CheckConserves(bs, last.sec, now);
      NextCheck(bs, View(), was, more, last, now);
      fired := was + more;
    }

    /** The loop of the distributor with nothing but timers: it sets out at `now` and checks at each of the times
        `at`. What it fires, in the order of expiry, is all that has expired by the last check. */
    method Process(now: Time, at: seq<Time>) returns (fired: seq<TimerEntry>)
      requires Valid() && NotBefore(View(), now.sec)
      requires at != [] ==> SameHour(now.sec, at[0].sec)
      requires forall i {:trigger at[i]} :: 0 < i < |at| ==> SameHour(at[i - 1].sec, at[i].sec) && !Before(at[i], at[i - 1])
      modifies this, timers
      ensures Valid() && Good(State()) && Sorted(fired)
      ensures Timers(View()) + multiset(fired) == old(Timers(View()))
      ensures at == [] ==> fired == []
      ensures at != [] ==> forall t :: t in fired ==> Before(t.expireTime, at[|at| - 1])
      ensures at != [] ==> forall t :: t in Timers(View()) ==> !Before(t.expireTime, at[|at| - 1])
    {
      hide Valid, InPlace, Timers, Indexed, Once, Checked, SameHour, NotBefore, Exact, Before, Sorted, Good;
      BeginLoop(now);
      fired := [];
      assert Timers(View()) + multiset([]) == Timers(View());
      assert Sorted(fired) by { SortedNone(); }
      var i := 0;
      while i < |at|
        invariant i <= |at| && Valid() && Good(State()) && lastCheck == (if i == 0 then now else at[i - 1])
        invariant Timers(View()) + multiset(fired) == old(Timers(View())) && Sorted(fired)
        invariant i == 0 ==> fired == []
        invariant i > 0 ==> forall t :: t in fired ==> Before(t.expireTime, lastCheck)
        invariant i > 0 ==> forall t :: t in Timers(View()) ==> !Before(t.expireTime, lastCheck)
      {
        fired := CheckOn(fired, at[i]);
        i := i + 1;
      }
    }

    /** Duplicates can be forbidden or allowed only while no timer is live. */
    method SetNoDupTimer(on: bool) returns (ok: bool)
      requires Valid()
      modifies `no_dup_timer
      ensures Valid() && ok == (Timers(View()) == multiset{})
      ensures no_dup_timer == if ok then on else old(no_dup_timer)
    {
      if timer_cnt != 0 {
        return false;
      }
      assert |Timers(View())| == 0;
      no_dup_timer := on;
      ok := true;
    }
  }

  /** Where a sweep ends that has come to bucket `i` with `fired` collected. */
  ghost function Onward(bs: Wheel, fired: seq<TimerEntry>, i: nat, stop: nat, now: Time): (Wheel, seq<TimerEntry>)
    requires stop < TIMERS_NUMBER_OF_ENT
  {
    (Scan(bs, i, stop, now).0, fired + Scan(bs, i, stop, now).1)
  }

  lemma ScanStart(bs: Wheel, i: nat, stop: nat, now: Time)
    requires stop < TIMERS_NUMBER_OF_ENT
    ensures Onward(bs, [], i, stop, now) == Scan(bs, i, stop, now)
  {
    hide Scan;
    assert [] + Scan(bs, i, stop, now).1 == Scan(bs, i, stop, now).1;
  }

  lemma ScanNext(bs: Wheel, fired: seq<TimerEntry>, i: nat, stop: nat, now: Time)
    requires i <= stop < TIMERS_NUMBER_OF_ENT
    ensures Onward(bs, fired, i, stop, now) == Onward(bs[i := Left(bs[i], now)], fired + Due(bs[i], now), i + 1, stop, now)
  {
    hide Due, Left;
    var r := Scan(bs[i := Left(bs[i], now)], i + 1, stop, now);
    assert fired + (Due(bs[i], now) + r.1) == fired + Due(bs[i], now) + r.1;
  }

  lemma ScanDone(bs: Wheel, fired: seq<TimerEntry>, i: nat, stop: nat, now: Time)
    requires stop < TIMERS_NUMBER_OF_ENT && i > stop
    ensures Onward(bs, fired, i, stop, now) == (bs, fired)
  {
    assert fired + [] == fired;
  }

  /** Firing leaves an index of just the timers still on the wheel. */
  lemma FiredForgotten(hash: map<Key, TimerEntry>, noDup: bool, bag: multiset<TimerEntry>, after: multiset<TimerEntry>,
                       fired: seq<TimerEntry>)
    requires Indexed(hash, noDup, bag) && Once(bag) && after + multiset(fired) == bag
    ensures Indexed(hash - (set t | t in fired :: t.key), noDup, after) && Once(after)
    ensures |after| + |fired| == |bag|
  {
    forall t
      ensures after[t] + multiset(fired)[t] == bag[t]
      ensures t in multiset(fired) <==> t in fired
    {
      assert (after + multiset(fired))[t] == bag[t];
    }
    assert |multiset(fired)| == |fired|;
  }

  lemma SortedNone()
    ensures Sorted([])
  {
  }

  /** A check loses no timer. */
  lemma CheckConserves(bs: Wheel, base: nat, now: Time)
    requires InPlace(bs)
    ensures InPlace(Checked(bs, base, now).0)
    ensures Timers(Checked(bs, base, now).0) + multiset(Checked(bs, base, now).1) == Timers(bs)
  {
    ScanOk(bs, base % TIMERS_NUMBER_OF_ENT, now.sec % TIMERS_NUMBER_OF_ENT, now);
  }

  lemma {:induction false} SortedTwo(a: seq<TimerEntry>, b: seq<TimerEntry>, t: Time)
    requires Sorted(a) && Sorted(b)
    requires forall x :: x in a ==> Before(x.expireTime, t)
    requires forall y :: y in b ==> !Before(y.expireTime, t)
    ensures Sorted(a + b)
  {
    if a == [] {
      assert a + b == b;
    } else {
      SortedTwo(a[1..], b, t);
      assert a + b == [a[0]] + (a[1..] + b);
      Tail(a[0], a[1..] + b);
      assert a[0] in a;
      if |a| == 1 && b != [] {
        assert b[0] in b;
      }
    }
  }

  /** What an exact check fires comes after what the checks before it fired. */
  lemma NextCheck(bs: Wheel, after: Wheel, fired: seq<TimerEntry>, more: seq<TimerEntry>, last: Time, now: Time)
    requires InPlace(bs) && InPlace(after) && Exact(bs, now, after, more) && Sorted(fired)
    requires fired == [] || ((forall t :: t in fired ==> Before(t.expireTime, last)) && !Before(now, last))
    requires fired == [] || forall t :: t in Timers(bs) ==> !Before(t.expireTime, last)
    ensures Sorted(fired + more)
    ensures forall t :: t in fired + more ==> Before(t.expireTime, now)
    ensures forall t :: t in Timers(after) ==> !Before(t.expireTime, now)
  {
    hide InPlace, Timers, Sorted, Bucket;
    forall t | t in Timers(after)
      ensures !Before(t.expireTime, now)
    {
      OnIsInBag(after, t);
    }
    if fired == [] {
      assert fired + more == more;
    } else {
      forall t | t in more
        ensures !Before(t.expireTime, last)
      {
        OnIsInBag(bs, t);
      }
      SortedTwo(fired, more, last);
    }
  }
}
