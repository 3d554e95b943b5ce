/** Counting the connection attempts that the rate limiter of APPS/inetd/inetd.c has seen. */
module RateSpec {

  const CHTGRAN := 10
  const CHTSIZE := 6
  const WORD := 0x1_0000_0000

  /** An address and a service. */
  datatype Key = Key(addr: seq<bv8>, service: string)

  datatype Attempt = Attempt(key: Key, time: nat)

  /** The ten-second tick of a time, in 32 bits. */
  function Ticks(t: nat): (r: nat)
    ensures r < WORD
  {
    t / CHTGRAN % WORD
  }

  /** How many attempts for `k` from place `g` of the log on fell into one tick. */
  function At(log: seq<Attempt>, g: nat, k: Key, tick: nat): nat {
    if |log| <= g then 0
    else
      var last := log[|log| - 1];
      At(log[..|log| - 1], g, k, tick) + if last.key == k && Ticks(last.time) == tick then 1 else 0
  }

  /** How many of them fell into the ticks `lo` to `hi`. */
  function Within(log: seq<Attempt>, g: nat, k: Key, lo: int, hi: nat): nat {
    if |log| <= g then 0
    else
      var last := log[|log| - 1];
      Within(log[..|log| - 1], g, k, lo, hi) + if last.key == k && lo <= Ticks(last.time) <= hi then 1 else 0
  }

  lemma AtMore(log: seq<Attempt>, a: Attempt, g: nat, k: Key, tick: nat)
    requires g <= |log|
    ensures At(log + [a], g, k, tick) == At(log, g, k, tick) + if a.key == k && Ticks(a.time) == tick then 1 else 0
  {
    assert (log + [a])[..|log|] == log;
  }

  /** Six ticks together. */
  lemma {:induction false} WithinIsSum(log: seq<Attempt>, g: nat, k: Key, t: nat)
    requires t >= 5
    ensures Within(log, g, k, t - 5, t)
         == At(log, g, k, t - 5) + At(log, g, k, t - 4) + At(log, g, k, t - 3) + At(log, g, k, t - 2)
          + At(log, g, k, t - 1) + At(log, g, k, t)
  {
    if |log| > g {
      WithinIsSum(log[..|log| - 1], g, k, t);
    }
  }

  /** Nothing is counted in a tick that has not come yet. */
  lemma {:induction false} NoneLater(log: seq<Attempt>, g: nat, k: Key, tick: nat)
    requires forall i {:trigger log[i]} :: 0 <= i < |log| ==> Ticks(log[i].time) < tick
    ensures At(log, g, k, tick) == 0
  {
    if |log| > g {
      var rest := log[..|log| - 1];
      forall i {:trigger rest[i]} | 0 <= i < |rest|
        ensures Ticks(rest[i].time) < tick
      {
        assert rest[i] == log[i];
      }
      NoneLater(rest, g, k, tick);
      assert Ticks(log[|log| - 1].time) < tick;
    }
  }

  // ----- one slot's six counters -----

  datatype CTime = CTime(ticks: nat, count: nat)

  /** Counter `j` stands for the latest tick of its residue with an attempt, and counts the attempts there. */
  ghost predicate Counts(ct: CTime, log: seq<Attempt>, g: nat, k: Key, j: nat) {
    && (ct.count > 0 ==> ct.ticks % CHTSIZE == j && ct.count == At(log, g, k, ct.ticks))
    && forall tick: nat {:trigger At(log, g, k, tick)} ::
         tick % CHTSIZE == j && (ct.count == 0 || tick > ct.ticks) ==> At(log, g, k, tick) == 0
  }

  ghost predicate AllCount(times: seq<CTime>, log: seq<Attempt>, g: nat, k: Key) {
    |times| == CHTSIZE && forall j {:trigger times[j]} :: 0 <= j < CHTSIZE ==> Counts(times[j], log, g, k, j)
  }

  /** What the code does to the counter of the current tick. */
  function Bumped(times: seq<CTime>, tick: nat): seq<CTime>
    requires |times| == CHTSIZE
  {
    var ct := times[tick % CHTSIZE];
    var cleared := if ct.ticks != tick then CTime(tick, 0) else ct;
    times[tick % CHTSIZE := CTime(cleared.ticks, cleared.count + 1)]
  }

  /** Ticks of log entries never exceed `tick`. */
  ghost predicate UpTo(log: seq<Attempt>, tick: nat) {
    forall i {:trigger log[i]} :: 0 <= i < |log| ==> Ticks(log[i].time) <= tick
  }

  /** Counting one attempt keeps the counters true. */
  lemma BumpedCounts(times: seq<CTime>, log: seq<Attempt>, g: nat, k: Key, a: Attempt)
    requires AllCount(times, log, g, k) && g <= |log| && a.key == k && UpTo(log, Ticks(a.time))
    ensures AllCount(Bumped(times, Ticks(a.time)), log + [a], g, k)
  {
    var tick := Ticks(a.time);
    var m := Bumped(times, tick);
    forall j {:trigger m[j]} | 0 <= j < CHTSIZE
      ensures Counts(m[j], log + [a], g, k, j)
    {
      assert Counts(times[j], log, g, k, j);
      if j == tick % CHTSIZE {
        OneBumped(times[j], m[j], log, g, k, a);
      } else {
        Undisturbed(times[j], log, g, k, j, a);
      }
    }
  }

  lemma OneBumped(ct: CTime, m: CTime, log: seq<Attempt>, g: nat, k: Key, a: Attempt)
    requires g <= |log| && a.key == k && UpTo(log, Ticks(a.time))
    requires Counts(ct, log, g, k, Ticks(a.time) % CHTSIZE)
    requires m == CTime(Ticks(a.time), if ct.ticks == Ticks(a.time) then ct.count + 1 else 1)
    ensures Counts(m, log + [a], g, k, Ticks(a.time) % CHTSIZE)
  {
    var t := Ticks(a.time);
    AtMore(log, a, g, k, t);
    if ct.ticks > t {
      NoneLater(log, g, k, ct.ticks);
    }
    forall tick: nat {:trigger At(log + [a], g, k, tick)} | tick > t
      ensures At(log + [a], g, k, tick) == 0
    {
      AtMore(log, a, g, k, tick);
      NoneLater(log, g, k, tick);
    }
  }

  lemma Undisturbed(ct: CTime, log: seq<Attempt>, g: nat, k: Key, j: nat, a: Attempt)
    requires g <= |log| && Counts(ct, log, g, k, j)
    requires a.key != k || Ticks(a.time) % CHTSIZE != j
    ensures Counts(ct, log + [a], g, k, j)
  {
    AtMore(log, a, g, k, ct.ticks);
    forall tick: nat {:trigger At(log + [a], g, k, tick)} | tick % CHTSIZE == j && (ct.count == 0 || tick > ct.ticks)
      ensures At(log + [a], g, k, tick) == 0
    {
      AtMore(log, a, g, k, tick);
    }
  }

  lemma OthersCount(times: seq<CTime>, log: seq<Attempt>, g: nat, k: Key, a: Attempt)
    requires AllCount(times, log, g, k) && g <= |log| && a.key != k
    ensures AllCount(times, log + [a], g, k)
  {
    forall j {:trigger times[j]} | 0 <= j < CHTSIZE
      ensures Counts(times[j], log + [a], g, k, j)
    {
      Undisturbed(times[j], log, g, k, j, a);
    }
  }

  /** A slot just taken over counts from here on. */
  lemma ClearedCounts(log: seq<Attempt>, k: Key)
    ensures AllCount(seq(CHTSIZE, i => CTime(0, 0)), log, |log|, k)
  {
  }

  // ----- the sum over the window -----

  /** Whether a counter is added up at tick `t`; the lower bound is computed in 32 bits without sign. */
  predicate InWindow(ct: CTime, t: nat) {
    ct.ticks <= t && ct.ticks >= (t + WORD - CHTSIZE) % WORD
  }

  function Sum(times: seq<CTime>, t: nat, n: nat): nat
    requires n <= |times|
  {
    if n == 0 then 0 else Sum(times, t, n - 1) + if InWindow(times[n - 1], t) then times[n - 1].count else 0
  }

  function Share(times: seq<CTime>, t: nat, j: nat): nat
    requires j < |times|
  {
    if InWindow(times[j], t) then times[j].count else 0
  }

  /** The counter of a tick in the window holds exactly that tick's attempts. */
  lemma ShareIs(times: seq<CTime>, log: seq<Attempt>, g: nat, k: Key, t: nat, tick: nat)
    requires AllCount(times, log, g, k) && UpTo(log, t) && CHTSIZE <= t < WORD && t - 5 <= tick <= t
    requires times[t % CHTSIZE].ticks == t
    ensures Share(times, t, tick % CHTSIZE) == At(log, g, k, tick)
  {
    var j := tick % CHTSIZE;
    var ct := times[j];
    assert Counts(ct, log, g, k, j);
    if ct.count > 0 {
      if ct.ticks > t {
        NoneLater(log, g, k, ct.ticks);
        assert false;
      } else if ct.ticks > tick {
        SameResidue(ct.ticks, tick);
        assert false;
      } else if ct.ticks < tick {
        SameResidue(tick, ct.ticks);
        if ct.ticks == tick - 6 && tick == t {
          assert false;
        }
      }
    }
  }

  lemma SameResidue(a: nat, b: nat)
    requires a > b && a % CHTSIZE == b % CHTSIZE
    ensures a >= b + CHTSIZE
  {
  }

  lemma SumOfShares(times: seq<CTime>, t: nat)
    requires |times| == CHTSIZE
    ensures Sum(times, t, CHTSIZE) == Share(times, t, 0) + Share(times, t, 1) + Share(times, t, 2)
                                    + Share(times, t, 3) + Share(times, t, 4) + Share(times, t, 5)
  {
    hide InWindow;
    assert Sum(times, t, 1) == Share(times, t, 0);
    assert Sum(times, t, 2) == Sum(times, t, 1) + Share(times, t, 1);
    assert Sum(times, t, 3) == Sum(times, t, 2) + Share(times, t, 2);
    assert Sum(times, t, 4) == Sum(times, t, 3) + Share(times, t, 3);
    assert Sum(times, t, 5) == Sum(times, t, 4) + Share(times, t, 4);
    assert Sum(times, t, 6) == Sum(times, t, 5) + Share(times, t, 5);
  }

  /** Six consecutive ticks use each counter once. */
  lemma Rotation(times: seq<CTime>, t: nat)
    requires |times| == CHTSIZE && t >= 5
    ensures Share(times, t, t % 6) + Share(times, t, (t - 1) % 6) + Share(times, t, (t - 2) % 6)
          + Share(times, t, (t - 3) % 6) + Share(times, t, (t - 4) % 6) + Share(times, t, (t - 5) % 6)
         == Share(times, t, 0) + Share(times, t, 1) + Share(times, t, 2)
          + Share(times, t, 3) + Share(times, t, 4) + Share(times, t, 5)
  {
    hide Share;
    var r := t % 6;
    assert (t - 1) % 6 == (r + 5) % 6 && (t - 2) % 6 == (r + 4) % 6 && (t - 3) % 6 == (r + 3) % 6;
    assert (t - 4) % 6 == (r + 2) % 6 && (t - 5) % 6 == (r + 1) % 6;
    if
    case r == 0 =>
    case r == 1 =>
    case r == 2 =>
    case r == 3 =>
    case r == 4 =>
    case r == 5 =>
  }

  /** From tick six on the sum is the number of attempts in the last six ticks; before that the bound wraps around
      and nothing is summed. */
  lemma SumIsWindow(times: seq<CTime>, log: seq<Attempt>, g: nat, k: Key, t: nat)
    requires AllCount(times, log, g, k) && UpTo(log, t) && t < WORD && times[t % CHTSIZE].ticks == t
    ensures t >= CHTSIZE ==> Sum(times, t, CHTSIZE) == Within(log, g, k, t - 5, t)
    ensures t < CHTSIZE ==> Sum(times, t, CHTSIZE) == 0
  {
    hide At, Within, Share, Sum, AllCount, UpTo;
    HasSix(times, log, g, k);
    SumOfShares(times, t);
    if t >= CHTSIZE {
      ShareIs(times, log, g, k, t, t);
      ShareIs(times, log, g, k, t, t - 1);
      ShareIs(times, log, g, k, t, t - 2);
      ShareIs(times, log, g, k, t, t - 3);
      ShareIs(times, log, g, k, t, t - 4);
      ShareIs(times, log, g, k, t, t - 5);
      Rotation(times, t);
      WithinIsSum(log, g, k, t);
    } else {
      NothingShared(times, t);
    }
  }

  lemma HasSix(times: seq<CTime>, log: seq<Attempt>, g: nat, k: Key)
    requires AllCount(times, log, g, k)
    ensures |times| == CHTSIZE
  {
  }

  lemma NothingShared(times: seq<CTime>, t: nat)
    requires |times| == CHTSIZE && t < CHTSIZE
    ensures forall j {:trigger Share(times, t, j)} :: 0 <= j < CHTSIZE ==> Share(times, t, j) == 0
  {
  }
}
