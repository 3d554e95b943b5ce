/** What scanning a hash table means: a sequence of entries, an index into it, and marks on entries.

    The table object of HashedTable is tied to this state by its contracts; the theorems here are about every
    run of scan operations. */
module ScanSpec {
  import opened SeqFacts

  const SLOTS := 0x10000

  datatype Option<+T> = None | Some(value: T)

  /** The entries in scan order, the index of the next one, the mark word of each entry, and the last handle
      given out. A mark word is zero, or a reference count in the upper and a handle in the lower half. */
  datatype Scan<E(==)> = Scan(entries: seq<E>, pos: nat, mark: map<E, nat>, last: nat)

  function Handle(word: nat): nat {
    word % SLOTS
  }

  function Count(word: nat): nat {
    word / SLOTS % SLOTS
  }

  function Word(count: nat, handle: nat): nat {
    count % SLOTS * SLOTS + handle
  }

  /** The handle after `last`: handles run from 1 to 65535 and start over. */
  function NextHandle(last: nat): nat {
    if last + 1 >= SLOTS then 1 else last + 1
  }

  function MarkOnce(word: nat, last: nat): nat {
    if word == 0 then Word(1, NextHandle(last)) else Word(Count(word) + 1, Handle(word))
  }

  function UnmarkOnce(word: nat): nat {
    var x := (Count(word) + SLOTS - 1) % SLOTS;
    if x == 0 then 0 else Word(x, Handle(word))
  }

  ghost predicate Distinct<E>(s: seq<E>) {
    forall i, j :: 0 <= i < j < |s| ==> s[i] != s[j]
  }

  // ----- the operations -----

  function Peek<E(==)>(s: Scan<E>): Option<E> {
    if s.pos < |s.entries| then Some(s.entries[s.pos]) else None
  }

  function Forward<E(==)>(s: Scan<E>): Scan<E> {
    if s.pos < |s.entries| then s.(pos := s.pos + 1) else s
  }

  function Backward<E(==)>(s: Scan<E>): Scan<E> {
    if s.pos > 0 then s.(pos := s.pos - 1) else s
  }

  /** Take entry `g` out; the cursor keeps its place among the others. */
  function Drop<E(==)>(s: Scan<E>, g: nat): Scan<E>
    requires g < |s.entries|
  {
    s.(entries := Without(s.entries, g), pos := if g < s.pos then s.pos - 1 else s.pos)
  }

  /** Mark the next entry, giving it a handle if it has none. */
  function Save<E(==)>(s: Scan<E>): Scan<E> {
    if s.pos < |s.entries| && s.entries[s.pos] in s.mark then
      var e := s.entries[s.pos];
      s.(mark := s.mark[e := MarkOnce(s.mark[e], s.last)],
         last := if s.mark[e] == 0 then NextHandle(s.last) else s.last)
    else s
  }

  /** Go to entry `g` and take one mark off it. */
  function GoBack<E(==)>(s: Scan<E>, g: nat): Scan<E> {
    if g < |s.entries| && s.entries[g] in s.mark then
      s.(pos := g, mark := s.mark[s.entries[g] := UnmarkOnce(s.mark[s.entries[g]])])
    else s
  }

  /** Entry `i` is in bucket `b` and carries handle `h`; `home` says which bucket an entry is in. */
  predicate Carries<E(==)>(s: Scan<E>, home: map<E, nat>, b: nat, h: nat, i: nat) {
    i < |s.entries| &&
    var e := s.entries[i];
    e in home && home[e] == b && e in s.mark && Handle(s.mark[e]) == h
  }

  /** The first entry of bucket `b` from `i` on that carries handle `h`, or the number of entries. */
  function HolderFrom<E(==)>(s: Scan<E>, home: map<E, nat>, b: nat, h: nat, i: nat): nat
    decreases |s.entries| - i
  {
    if i >= |s.entries| then |s.entries|
    else if Carries(s, home, b, h, i) then i
    else HolderFrom(s, home, b, h, i + 1)
  }

  /** The first entry from `i` on that is in a later bucket than `b`, or the number of entries. */
  function PastFrom<E(==)>(s: Scan<E>, home: map<E, nat>, b: nat, i: nat): nat
    decreases |s.entries| - i
  {
    if i >= |s.entries| then |s.entries|
    else if s.entries[i] in home && home[s.entries[i]] > b then i
    else PastFrom(s, home, b, i + 1)
  }

  /** Return to the position with handle `h` saved in bucket `b`: the first entry of the bucket that carries the
      handle, or past the bucket if there is none. */
  function BackTo<E(==)>(s: Scan<E>, home: map<E, nat>, b: nat, h: nat): Scan<E> {
    var g := HolderFrom(s, home, b, h, 0);
    if g < |s.entries| then GoBack(s, g) else s.(pos := PastFrom(s, home, b, 0))
  }

  /** Every entry is in a bucket, and the entries are in the order of the buckets. */
  ghost predicate Housed<E>(es: seq<E>, home: map<E, nat>) {
    && (forall p {:trigger es[p]} :: 0 <= p < |es| ==> es[p] in home)
    && (forall p, q {:trigger es[p], es[q]} :: 0 <= p < q < |es| ==> home[es[p]] <= home[es[q]])
  }

  /** The entry after `p` is in the same bucket. */
  predicate SameBucket<E(==)>(es: seq<E>, home: map<E, nat>, p: nat) {
    p + 1 < |es| && es[p] in home && es[p + 1] in home && home[es[p]] == home[es[p + 1]]
  }
}
