/** The connection rate limiter of APPS/inetd/inetd.c: a table of 256 slots, each counting one address and service. */
module RateLimiter {
  import opened ScanSpec
  import opened RateSpec

  const CPMHSIZE := 256
  const PROBES := 5

  /** A slot; `inet` says that its family has been set. */
  datatype CHash = CHash(inet: bool, addr: seq<bv8>, ltime: nat, service: Option<string>, times: seq<CTime>)

  predicate Holds(ch: CHash, k: Key) {
    ch.inet && ch.addr == k.addr && ch.service == Some(k.service)
  }

  // ----- hashing an address -----

  /** A signed character as an integer. */
  function Signed(c: bv8): bv32 {
    if c & 0x80 != 0 then (c as bv32) | 0xFFFFFF00 else c as bv32
  }

  /** A signed shift right. */
  function Down(v: bv32, n: bv6): bv32
    requires n < 32
  {
    if v & 0x80000000 != 0 then !((!v) >> n) else v >> n
  }

  function Mixed(hv: bv32, addr: seq<bv8>): bv32
    decreases |addr|
  {
    if addr == [] then hv else Mixed((hv << 5) ^ Down(hv, 23) ^ Signed(addr[0]), addr[1..])
  }

  /** The first place probed for an address. */
  function HomeOf(addr: seq<bv8>): (h: nat)
    ensures h < CPMHSIZE
  {
    var hv := Mixed(0xABC3D20F, addr);
    ((hv ^ Down(hv, 16)) & 0xFF) as nat
  }

  function Place(k: Key, i: nat): (p: nat)
    ensures p < CPMHSIZE
  {
    (HomeOf(k.addr) + i) % CPMHSIZE
  }

  /** The slot is one of the five that are probed for the key. */
  predicate Near(k: Key, p: int) {
    0 <= p < CPMHSIZE && (p + CPMHSIZE - HomeOf(k.addr)) % CPMHSIZE < PROBES
  }

  lemma PlaceIsNear(k: Key, i: nat)
    requires i < PROBES
    ensures Near(k, Place(k, i))
  {
  }

  lemma NearIsPlace(k: Key, p: int) returns (i: nat)
    requires Near(k, p)
    ensures i < PROBES && Place(k, i) == p
  {
    i := (p + CPMHSIZE - HomeOf(k.addr)) % CPMHSIZE;
  }

  // ----- the table -----

  /** Times never go back, and fit the width of the ticks. */
  ghost predicate Steady(log: seq<Attempt>) {
    && (forall i {:trigger log[i]} :: 0 <= i < |log| ==> log[i].time / CHTGRAN < WORD)
    && (forall i, j {:trigger log[i], log[j]} :: 0 <= i < j < |log| ==> log[i].time <= log[j].time)
  }

  lemma SteadyBefore(log: seq<Attempt>, a: Attempt)
    requires Steady(log + [a])
    ensures Steady(log) && UpTo(log, Ticks(a.time)) && UpTo(log + [a], Ticks(a.time))
  {
    var m := log + [a];
    assert m[|log|] == a;
    forall i {:trigger log[i]} | 0 <= i < |log|
      ensures log[i].time / CHTGRAN < WORD && Ticks(log[i].time) <= Ticks(a.time)
    {
      assert m[i] == log[i];
    }
    forall i, j {:trigger log[i], log[j]} | 0 <= i < j < |log|
      ensures log[i].time <= log[j].time
    {
      assert m[i] == log[i] && m[j] == log[j];
    }
  }

  /** What one slot says about the log. */
  ghost predicate SlotOk(ch: CHash, p: nat, since: nat, log: seq<Attempt>) {
    && |ch.times| == CHTSIZE
    && (ch.service.Some? ==>
          var k := Key(ch.addr, ch.service.value);
          && ch.inet && Near(k, p)
          && since < |log| && log[since].key == k
          && (Steady(log) ==> AllCount(ch.times, log, since, k)))
  }

  /** A slot that an attempt for another key leaves alone. */
  lemma SlotStays(ch: CHash, p: nat, since: nat, log: seq<Attempt>, a: Attempt)
    requires SlotOk(ch, p, since, log) && !Holds(ch, a.key)
    ensures SlotOk(ch, p, since, log + [a])
  {
    hide Near;
    if ch.service.Some? {
      var k := Key(ch.addr, ch.service.value);
      assert (log + [a])[since] == log[since];
      if Steady(log + [a]) {
        SteadyBefore(log, a);
        OthersCount(ch.times, log, since, k, a);
      }
    }
  }

  /** The counters of the slot that takes an attempt, and their sum. */
  lemma Counted(times: seq<CTime>, log: seq<Attempt>, g: nat, a: Attempt)
    requires |times| == CHTSIZE && g <= |log| && (Steady(log) ==> AllCount(times, log, g, a.key))
    ensures Steady(log + [a]) ==>
              var m, t := Bumped(times, Ticks(a.time)), Ticks(a.time);
              && AllCount(m, log + [a], g, a.key)
              && (t >= CHTSIZE ==> Sum(m, t, CHTSIZE) == Within(log + [a], g, a.key, t - 5, t))
              && (t < CHTSIZE ==> Sum(m, t, CHTSIZE) == 0)
  {
    if Steady(log + [a]) {
      SteadyBefore(log, a);
      hide Steady, Sum, Within;
      BumpedCounts(times, log, g, a.key, a);
      SumIsWindow(Bumped(times, Ticks(a.time)), log + [a], g, a.key, Ticks(a.time));
    }
  }

  class Limiter {
    const CHashAry: array<CHash>
    ghost var log: seq<Attempt>
    /** The attempt at which the slot's key took it over. */
    ghost var since: seq<nat>

    ghost predicate Valid()
      reads this, CHashAry
    {
      && CHashAry.Length == CPMHSIZE == |since|
      && (forall p {:trigger CHashAry[p]} :: 0 <= p < CPMHSIZE ==> SlotOk(CHashAry[p], p, since[p], log))
      && (forall p, q, k {:trigger Holds(CHashAry[p], k), Holds(CHashAry[q], k)} ::
            0 <= p < CPMHSIZE && 0 <= q < CPMHSIZE && Holds(CHashAry[p], k) && Holds(CHashAry[q], k) ==> p == q)
    }

    constructor ()
      ensures Valid() && fresh(CHashAry) && log == []
    {
      CHashAry := new CHash[CPMHSIZE](_ => CHash(false, [0, 0, 0, 0], 0, None, seq(CHTSIZE, _ => CTime(0, 0))));
      log := [];
      since := seq(CPMHSIZE, _ => 0);
    }

    /** The slot of a key: its own, if it has one, or else the least recently used of the five probed. Among slots
        never used the last is taken, among others of equal age the first. */
    method Probe(k: Key) returns (best: nat, ghost n: nat)
      requires Valid()
      ensures n < PROBES && best == Place(k, n)
      ensures !Holds(CHashAry[best], k) ==>
                && (forall p {:trigger CHashAry[p]} :: Near(k, p) ==>
                      !Holds(CHashAry[p], k) && CHashAry[best].ltime <= CHashAry[p].ltime)
                && (forall m {:trigger Place(k, m)} :: 0 <= m < n && CHashAry[best].ltime != 0 ==>
                      CHashAry[best].ltime < CHashAry[Place(k, m)].ltime)
                && (forall m {:trigger Place(k, m)} :: n < m < PROBES && CHashAry[best].ltime == 0 ==>
                      CHashAry[Place(k, m)].ltime != 0)
    {
      best, n := Place(k, 0), 0;
      var i := 0;
      while i < PROBES
        invariant 0 <= i <= PROBES
        invariant n < PROBES && (n < i || i == 0) && best == Place(k, n)
        invariant forall m {:trigger Place(k, m)} :: 0 <= m < i ==>
                    !Holds(CHashAry[Place(k, m)], k) && CHashAry[best].ltime <= CHashAry[Place(k, m)].ltime
        invariant forall m {:trigger Place(k, m)} :: 0 <= m < n && CHashAry[best].ltime != 0 ==>
                    CHashAry[best].ltime < CHashAry[Place(k, m)].ltime
        invariant forall m {:trigger Place(k, m)} :: n < m < i && CHashAry[best].ltime == 0 ==>
                    CHashAry[Place(k, m)].ltime != 0
      {
        var p := Place(k, i);
        if Holds(CHashAry[p], k) {
          return p, i;
        }
        if i == 0 || CHashAry[p].ltime == 0 || CHashAry[p].ltime < CHashAry[best].ltime {
          best, n := p, i;
        }
        i := i + 1;
      }
      forall p {:trigger CHashAry[p]} | Near(k, p)
        ensures !Holds(CHashAry[p], k) && CHashAry[best].ltime <= CHashAry[p].ltime
      {
        var m := NearIsPlace(k, p);
      }
    }

    /** The attempts for `k`, this one included, that the slot `p` has seen in the six ticks up to now. */
    ghost function Recent(k: Key, p: nat, t: nat): nat
      requires p < |since|
      reads this
    {
      Within(log, since[p], k, Ticks(t) as int - 5, Ticks(t))
    }

    /** The slot that takes an attempt written back. */
    method Record(b: nat, ghost g: nat, ch: CHash, ghost a: Attempt)
      requires Valid() && b < CPMHSIZE && Holds(ch, a.key) && Near(a.key, b) && |ch.times| == CHTSIZE
      requires g <= |log| && (log + [a])[g].key == a.key
      requires Steady(log + [a]) ==> AllCount(ch.times, log + [a], g, a.key)
      requires forall p {:trigger CHashAry[p]} :: 0 <= p < CPMHSIZE && p != b ==> !Holds(CHashAry[p], a.key)
      modifies CHashAry, `log, `since
      ensures Valid() && log == old(log) + [a] && since == old(since)[b := g]
      ensures CHashAry[..] == old(CHashAry[..])[b := ch]
    {
      hide AllCount, Near, Steady;
      forall p {:trigger CHashAry[p]} | 0 <= p < CPMHSIZE && p != b
        ensures SlotOk(CHashAry[p], p, since[p], log + [a])
      {
        SlotStays(CHashAry[p], p, since[p], log, a);
      }
      CHashAry[b] := ch;
      since := since[b := g];
      log := log + [a];
    }

    /** One attempt at time `t` for a service limited to `maxcpm` attempts a minute. No peer address, or no limit, lets
        it through uncounted. */
    method Cpmip(peer: Option<seq<bv8>>, service: string, maxcpm: int, t: nat) returns (rejected: bool, ghost best: nat)
      requires Valid()
      modifies this, CHashAry
      ensures Valid()
      ensures maxcpm <= 0 || peer.None? ==>
                !rejected && log == old(log) && since == old(since) && CHashAry[..] == old(CHashAry[..])
      ensures maxcpm > 0 && peer.Some? ==>
                var k := Key(peer.value, service);
                && best < CPMHSIZE && Near(k, best) && log == old(log) + [Attempt(k, t)]
                && Holds(CHashAry[best], k) && CHashAry[best].ltime == t
                && (forall p {:trigger CHashAry[p]} :: 0 <= p < CPMHSIZE && p != best ==>
                      CHashAry[p] == old(CHashAry[p]) && since[p] == old(since[p]) && !Holds(CHashAry[p], k))
                && since[best] == (if old(Holds(CHashAry[best], k)) then old(since[best]) else |old(log)|)
                && (!old(Holds(CHashAry[best], k)) ==> forall p {:trigger CHashAry[p]} :: Near(k, p) ==>
                      old(CHashAry[best].ltime) <= old(CHashAry[p].ltime))
                && (Steady(log) ==> (rejected <==> Ticks(t) >= CHTSIZE && Recent(k, best, t) > maxcpm))
    {
      hide AllCount, Near, Steady, Within;
      rejected, best := false, 0;
      if maxcpm <= 0 || peer.None? {
        return;
      }
      var k := Key(peer.value, service);
      var b, n := Probe(k);
      best := b;
      PlaceIsNear(k, n);
      var ch := CHashAry[b];
      assert SlotOk(ch, b, since[b], log);
      ghost var g := since[b];
      if !Holds(ch, k) {
        ch := CHash(true, k.addr, ch.ltime, Some(k.service), seq(CHTSIZE, _ => CTime(0, 0)));
        g := |log|;
      }
      ClearedCounts(log, k);
      Counted(ch.times, log, g, Attempt(k, t));
      var ticks := Ticks(t);
      ch := ch.(ltime := t, times := Bumped(ch.times, ticks));
      var cnt := 0;
      var i := 0;
      while i < CHTSIZE
        invariant 0 <= i <= CHTSIZE
        invariant cnt == Sum(ch.times, ticks, i)
      {
        if InWindow(ch.times[i], ticks) {
          cnt := cnt + ch.times[i].count;
        }
        i := i + 1;
      }
      rejected := cnt * (CHTSIZE * CHTGRAN) / 60 > maxcpm;
      Record(b, g, ch, Attempt(k, t));
    }
  }
}
