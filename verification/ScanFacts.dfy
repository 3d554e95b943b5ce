/** What searches through the entries of a scan find. */
module ScanFacts {
  import opened ScanSpec

  /** The first entry that carries the handle, or none, is what the search finds. */
  lemma {:induction false} HolderIs<E>(s: Scan<E>, home: map<E, nat>, b: nat, h: nat, g: nat, i: nat)
    requires i <= g <= |s.entries| && (g < |s.entries| ==> Carries(s, home, b, h, g))
    requires forall k :: i <= k < g ==> !Carries(s, home, b, h, k)
    ensures HolderFrom(s, home, b, h, i) == g
    decreases g - i
  {
    if i < g {
      HolderIs(s, home, b, h, g, i + 1);
    }
  }

  /** What the search finds carries the handle, and no entry before it does. */
  lemma {:induction false} NoneBefore<E>(s: Scan<E>, home: map<E, nat>, b: nat, h: nat, i: nat)
    ensures forall k :: i <= k < HolderFrom(s, home, b, h, i) ==> !Carries(s, home, b, h, k)
    ensures HolderFrom(s, home, b, h, i) < |s.entries| ==> Carries(s, home, b, h, HolderFrom(s, home, b, h, i))
    decreases |s.entries| - i
  {
    if i < |s.entries| && !Carries(s, home, b, h, i) {
      NoneBefore(s, home, b, h, i + 1);
    }
  }

  lemma {:induction false} PastFound<E>(s: Scan<E>, home: map<E, nat>, b: nat, i: nat)
    ensures var g := PastFrom(s, home, b, i);
            g <= |s.entries| && (g < |s.entries| ==> s.entries[g] in home && home[s.entries[g]] > b)
    decreases |s.entries| - i
  {
    if i < |s.entries| && !(s.entries[i] in home && home[s.entries[i]] > b) {
      PastFound(s, home, b, i + 1);
    }
  }

  lemma {:induction false} PastIs<E>(s: Scan<E>, home: map<E, nat>, b: nat, g: nat, i: nat)
    requires i <= g <= |s.entries| && (g < |s.entries| ==> s.entries[g] in home && home[s.entries[g]] > b)
    requires forall k {:trigger s.entries[k]} :: i <= k < g ==> s.entries[k] in home && home[s.entries[k]] <= b
    ensures PastFrom(s, home, b, i) == g
    decreases g - i
  {
    if i < g {
      PastIs(s, home, b, g, i + 1);
    }
  }
}
