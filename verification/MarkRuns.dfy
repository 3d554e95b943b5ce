/** Saved positions over whole runs of scanning, saving, returning and removing. */
module MarkRuns {
  import opened ScanFacts
  import opened ScanSpec
  import opened SeqFacts

  /** A saved position that has not been returned yet: its handle and its bucket; where it should lead, which is the
      entry saved or, once that is removed, whatever comes next; and whether its mark has been lost. */
  datatype Token = Token(handle: nat, bucket: nat, spot: nat, adrift: bool)

  datatype Op = GoNext | GoPrev | GoRewind | DoSave | DoReturn(i: nat) | DoRemove(g: nat)

  /** A table under scanning: the buckets its entries are in, whether the cursor holds on to the next entry, the saved
      positions outstanding and the number of saves so far. */
  datatype World<E(==)> = World(scan: Scan<E>, home: map<E, nat>, held: bool, out: seq<Token>, saves: nat)

  /** A removal under the cursor takes the mark of the entry along to the next one of its bucket. */
  predicate TakesAlong<E(==)>(w: World<E>, g: nat) {
    w.held && g == w.scan.pos && SameBucket(w.scan.entries, w.home, g)
  }

  /** A position when entry `g` is removed. Its mark is lost if it was on that entry and is not taken along, or if it
      was on the next entry and is overwritten. */
  function MoveToken(t: Token, g: nat, along: bool): Token {
    t.(spot := if g < t.spot then t.spot - 1 else t.spot,
       adrift := t.adrift || (t.spot == g && !along) || (t.spot == g + 1 && along))
  }

  function MoveTokens(out: seq<Token>, g: nat, along: bool): seq<Token> {
    if out == [] then [] else MoveTokens(out[..|out| - 1], g, along) + [MoveToken(out[|out| - 1], g, along)]
  }

  function MovedMarks<E(==)>(w: World<E>, g: nat): map<E, nat> {
    var s := w.scan;
    if TakesAlong(w, g) && s.entries[g] in s.mark then s.mark[s.entries[g + 1] := s.mark[s.entries[g]]] else s.mark
  }

  function RemoveEntry<E(==)>(w: World<E>, g: nat): World<E>
    requires g < |w.scan.entries|
  {
    World(Drop(w.scan, g).(mark := MovedMarks(w, g)), w.home,
          if g == w.scan.pos then TakesAlong(w, g) else w.held,
          MoveTokens(w.out, g, TakesAlong(w, g)), w.saves)
  }

  function Apply<E(==)>(w: World<E>, op: Op): World<E> {
    match op
    case GoNext =>
      var p := w.scan.pos;
      w.(scan := Forward(w.scan), held := if p < |w.scan.entries| then SameBucket(w.scan.entries, w.home, p) else w.held)
    case GoPrev => w.(scan := Backward(w.scan), held := w.scan.pos > 0)
    case GoRewind => w.(scan := w.scan.(pos := 0), held := false)
    case DoSave =>
      var p := w.scan.pos;
      if p < |w.scan.entries| && w.scan.entries[p] in w.scan.mark && w.scan.entries[p] in w.home then
        var s := Save(w.scan);
        var e := s.entries[p];
        w.(scan := s, out := w.out + [Token(Handle(s.mark[e]), w.home[e], p, false)], saves := w.saves + 1)
      else w
    case DoReturn(i) =>
      if i < |w.out| then
        var t := w.out[i];
        w.(scan := BackTo(w.scan, w.home, t.bucket, t.handle),
           held := HolderFrom(w.scan, w.home, t.bucket, t.handle, 0) < |w.scan.entries|,
           out := Without(w.out, i))
      else w
    case DoRemove(g) => if g < |w.scan.entries| then RemoveEntry(w, g) else w
  }

  function ApplyAll<E(==)>(w: World<E>, ops: seq<Op>): World<E> {
    if ops == [] then w else Apply(ApplyAll(w, ops[..|ops| - 1]), ops[|ops| - 1])
  }

  /** How many positions that have not lost their mark stand at entry `p`. */
  function Tally(out: seq<Token>, p: nat): nat {
    if out == [] then 0
    else Tally(out[..|out| - 1], p) + if !out[|out| - 1].adrift && out[|out| - 1].spot == p then 1 else 0
  }

  lemma {:induction false} TallyWithout(out: seq<Token>, i: nat, p: nat)
    requires i < |out|
    ensures Tally(Without(out, i), p) == Tally(out, p) - if !out[i].adrift && out[i].spot == p then 1 else 0
    decreases |out|
  {
    var n := |out| - 1;
    if i < n {
      TallyWithout(out[..n], i, p);
      assert Without(out, i)[..n - 1] == Without(out[..n], i);
      assert Without(out, i)[n - 1] == out[n];
    } else {
      assert Without(out, i) == out[..n];
    }
  }

  lemma {:induction false} TallyBounds(out: seq<Token>, p: nat)
    ensures Tally(out, p) <= |out|
    ensures Tally(out, p) > 0 <==> exists i :: 0 <= i < |out| && !out[i].adrift && out[i].spot == p
    decreases |out|
  {
    if out != [] {
      var n := |out| - 1;
      TallyBounds(out[..n], p);
      if Tally(out[..n], p) > 0 {
        var i :| 0 <= i < |out[..n]| && !out[..n][i].adrift && out[..n][i].spot == p;
        assert out[i].spot == p;
      }
      if exists i :: 0 <= i < |out| && !out[i].adrift && out[i].spot == p {
        var i :| 0 <= i < |out| && !out[i].adrift && out[i].spot == p;
        if i < n {
          assert out[..n][i].spot == p;
        }
      }
    }
  }

  /** Where the word and the positions of the entry now at place `p` were before entry `g` was removed. */
  function Source(g: nat, along: bool, p: nat): nat {
    if along && p == g then g else if p < g then p else p + 1
  }

  lemma {:induction false} TallyMoved(out: seq<Token>, g: nat, along: bool, p: nat)
    ensures Tally(MoveTokens(out, g, along), p) == Tally(out, Source(g, along, p))
    decreases |out|
  {
    if out != [] {
      var n := |out| - 1;
      TallyMoved(out[..n], g, along, p);
      var front, last := MoveTokens(out[..n], g, along), MoveToken(out[n], g, along);
      assert (front + [last])[..|front + [last]| - 1] == front;
    }
  }

  lemma {:induction false} MovedAt(out: seq<Token>, g: nat, along: bool)
    ensures |MoveTokens(out, g, along)| == |out|
    ensures forall i {:trigger out[i]} :: 0 <= i < |out| ==> MoveTokens(out, g, along)[i] == MoveToken(out[i], g, along)
    decreases |out|
  {
    if out != [] {
      MovedAt(out[..|out| - 1], g, along);
      assert forall i :: 0 <= i < |out| - 1 ==> out[..|out| - 1][i] == out[i];
    }
  }

  // ----- agreement -----

  /** Marks and outstanding positions agree: an entry's count is the number of positions at it that have not lost their
      mark, it is unmarked exactly when there is none, no two marked entries share a handle, and no entry carries the
      handle of a position that has. */
  ghost predicate Agree<E>(w: World<E>) {
    && Shape(w) && Words(w.scan, w.out) && Unlike(w.scan)
    && forall i {:trigger w.out[i]} :: 0 <= i < |w.out| ==> TokenOk(w.scan, w.home, w.out[i])
  }

  ghost predicate Shape<E>(w: World<E>) {
    && Distinct(w.scan.entries) && w.scan.pos <= |w.scan.entries| && Housed(w.scan.entries, w.home)
    && Marked(w.scan) && |w.out| <= w.saves && w.scan.last <= w.saves
  }

  ghost predicate Marked<E>(s: Scan<E>) {
    forall p {:trigger s.entries[p]} :: 0 <= p < |s.entries| ==> s.entries[p] in s.mark
  }

  ghost predicate Words<E>(s: Scan<E>, out: seq<Token>) {
    forall p {:trigger s.entries[p]} :: 0 <= p < |s.entries| ==>
      s.entries[p] in s.mark && WordFor(s.mark[s.entries[p]], Tally(out, p), s.last)
  }

  /** No two marked entries share a handle. */
  ghost predicate Unlike<E>(s: Scan<E>) {
    forall p, q {:trigger s.entries[p], s.entries[q]} :: 0 <= p < q < |s.entries| ==>
      && s.entries[p] in s.mark && s.entries[q] in s.mark
      && (s.mark[s.entries[p]] != 0 && s.mark[s.entries[q]] != 0 ==>
            Handle(s.mark[s.entries[p]]) != Handle(s.mark[s.entries[q]]))
  }

  ghost predicate WordFor(word: nat, tally: nat, last: nat) {
    && (word == 0 <==> tally == 0)
    && (word != 0 ==> 1 <= Handle(word) <= last < SLOTS && tally < SLOTS && word == Word(tally, Handle(word)))
  }

  /** A position stands behind no entry of a later bucket, and before none of an earlier one. */
  ghost predicate Between<E>(es: seq<E>, home: map<E, nat>, t: Token) {
    && t.spot <= |es|
    && (forall p {:trigger es[p]} :: 0 <= p < |es| ==> es[p] in home)
    && (forall p {:trigger es[p]} :: 0 <= p < t.spot ==> home[es[p]] <= t.bucket)
    && (forall p {:trigger es[p]} :: t.spot <= p < |es| ==> home[es[p]] >= t.bucket)
  }

  ghost predicate NoneCarries<E>(s: Scan<E>, h: nat) {
    forall p {:trigger s.entries[p]} :: 0 <= p < |s.entries| ==>
      s.entries[p] in s.mark && Handle(s.mark[s.entries[p]]) != h
  }

  ghost predicate TokenOk<E>(s: Scan<E>, home: map<E, nat>, t: Token) {
    && Between(s.entries, home, t) && 1 <= t.handle <= s.last
    && if t.adrift then NoneCarries(s, t.handle)
       else Carries(s, home, t.bucket, t.handle, t.spot) && s.mark[s.entries[t.spot]] != 0
  }

  lemma WordParts(c: nat, h: nat)
    requires c < SLOTS && h < SLOTS
    ensures Handle(Word(c, h)) == h && Count(Word(c, h)) == c
    ensures Word(c, h) == 0 <==> c == 0 && h == 0
  {
  }

  lemma MarkOnceWord(word: nat, tally: nat, last: nat)
    requires WordFor(word, tally, last) && last + 1 < SLOTS && tally + 1 < SLOTS
    ensures var h := if word == 0 then last + 1 else Handle(word);
            MarkOnce(word, last) == Word(tally + 1, h) && Handle(MarkOnce(word, last)) == h
            && MarkOnce(word, last) != 0
  {
    if word != 0 {
      WordParts(tally, Handle(word));
      WordParts(tally + 1, Handle(word));
    } else {
      WordParts(1, last + 1);
    }
  }

  lemma UnmarkOnceWord(word: nat, tally: nat, last: nat)
    requires WordFor(word, tally, last) && tally > 0
    ensures WordFor(UnmarkOnce(word), tally - 1, last)
    ensures UnmarkOnce(word) != 0 ==> Handle(UnmarkOnce(word)) == Handle(word)
  {
    WordParts(tally, Handle(word));
    WordParts(tally - 1, Handle(word));
  }

  // ----- saving -----

  /** The mark words with that of entry `p` replaced, and the last handle. */
  function Reworded<E(==)>(s: Scan<E>, p: nat, word: nat, last: nat): Scan<E>
    requires p < |s.entries|
  {
    s.(mark := s.mark[s.entries[p] := word], last := last)
  }

  lemma RewordedAt<E>(s: Scan<E>, p: nat, word: nat, last: nat)
    requires Distinct(s.entries) && Marked(s) && p < |s.entries|
    ensures var t := Reworded(s, p, word, last);
            Marked(t) && forall q {:trigger s.entries[q]} :: 0 <= q < |s.entries| ==>
              t.mark[s.entries[q]] == if q == p then word else s.mark[s.entries[q]]
  {
  }

  /** A save gives the entry at the cursor one count more, with a new handle if it has none. */
  lemma SaveIs<E>(w: World<E>)
    requires Agree(w) && w.saves + 1 < SLOTS && w.scan.pos < |w.scan.entries|
    ensures var s, p := w.scan, w.scan.pos;
            var e := s.entries[p];
            e in s.mark && e in w.home &&
            var h := if s.mark[e] == 0 then s.last + 1 else Handle(s.mark[e]);
            var l := if s.mark[e] == 0 then s.last + 1 else s.last;
            && Tally(w.out, p) + 1 < SLOTS && 1 <= h <= l && s.last <= l <= s.last + 1
            && (s.mark[e] == 0 ==> h > s.last)
            && Handle(Word(Tally(w.out, p) + 1, h)) == h && Word(Tally(w.out, p) + 1, h) != 0
            && Apply(w, DoSave) == w.(scan := Reworded(s, p, Word(Tally(w.out, p) + 1, h), l),
                                      out := w.out + [Token(h, w.home[e], p, false)], saves := w.saves + 1)
  {
    hide Housed, Distinct, Unlike, TokenOk, Tally, Word, Handle;
    NoSaveAtEnd(w);
    var s, p := w.scan, w.scan.pos;
    var e := s.entries[p];
    TallyBounds(w.out, p);
    assert WordFor(s.mark[e], Tally(w.out, p), s.last);
    hide MarkOnce, WordFor;
    MarkOnceWord(s.mark[e], Tally(w.out, p), s.last);
    WordParts(Tally(w.out, p) + 1, if s.mark[e] == 0 then s.last + 1 else Handle(s.mark[e]));
  }

  /** The word of one entry replaced by one of the same handle, or of a new one. */
  lemma RewordedUnlike<E>(s: Scan<E>, p: nat, word: nat, last: nat)
    requires Distinct(s.entries) && Marked(s) && Unlike(s) && p < |s.entries| && word != 0
    requires forall q {:trigger s.entries[q]} :: 0 <= q < |s.entries| ==> Handle(s.mark[s.entries[q]]) <= s.last
    requires if s.mark[s.entries[p]] == 0 then Handle(word) > s.last else Handle(word) == Handle(s.mark[s.entries[p]])
    ensures Unlike(Reworded(s, p, word, last))
  {
    RewordedAt(s, p, word, last);
    hide Handle, Distinct;
  }

  lemma RewordedTokens<E>(s: Scan<E>, home: map<E, nat>, p: nat, word: nat, last: nat, t: Token)
    requires Distinct(s.entries) && Marked(s) && p < |s.entries| && word != 0 && s.last <= last
    requires if s.mark[s.entries[p]] == 0 then Handle(word) > s.last else Handle(word) == Handle(s.mark[s.entries[p]])
    requires TokenOk(s, home, t)
    ensures TokenOk(Reworded(s, p, word, last), home, t)
  {
    RewordedAt(s, p, word, last);
    hide Handle, Distinct;
    assert t.spot < |s.entries| ==> s.entries[t.spot] in s.mark;
  }

  lemma HandlesBelow<E>(s: Scan<E>, out: seq<Token>)
    requires Words(s, out)
    ensures forall q {:trigger s.entries[q]} :: 0 <= q < |s.entries| ==> Handle(s.mark[s.entries[q]]) <= s.last
  {
    forall q {:trigger s.entries[q]} | 0 <= q < |s.entries|
      ensures Handle(s.mark[s.entries[q]]) <= s.last
    {
      assert WordFor(s.mark[s.entries[q]], Tally(out, q), s.last);
    }
  }

  lemma NewTally(out: seq<Token>, t: Token, q: nat)
    ensures Tally(out + [t], q) == Tally(out, q) + if !t.adrift && t.spot == q then 1 else 0
  {
    assert (out + [t])[..|out|] == out;
  }

  lemma SavedWords<E>(s: Scan<E>, out: seq<Token>, p: nat, h: nat, last: nat, t: Token)
    requires Distinct(s.entries) && Marked(s) && Words(s, out) && p < |s.entries| && s.last <= last < SLOTS
    requires 1 <= h <= last && Tally(out, p) + 1 < SLOTS && t.spot == p && !t.adrift
    requires Handle(Word(Tally(out, p) + 1, h)) == h && Word(Tally(out, p) + 1, h) != 0
    ensures Words(Reworded(s, p, Word(Tally(out, p) + 1, h), last), out + [t])
  {
    hide Distinct, Word, Handle, Tally;
    var v := Reworded(s, p, Word(Tally(out, p) + 1, h), last);
    RewordedAt(s, p, Word(Tally(out, p) + 1, h), last);
    forall q {:trigger v.entries[q]} | 0 <= q < |v.entries|
      ensures v.entries[q] in v.mark && WordFor(v.mark[v.entries[q]], Tally(out + [t], q), v.last)
    {
      NewTally(out, t, q);
      assert WordFor(s.mark[s.entries[q]], Tally(out, q), s.last);
    }
  }

  lemma SpotIsBetween<E>(es: seq<E>, home: map<E, nat>, p: nat, t: Token)
    requires Housed(es, home) && p < |es| && t.spot == p && t.bucket == home[es[p]]
    ensures Between(es, home, t)
  {
  }

  /** A save keeps the agreement. */
  lemma SaveAgrees<E>(w: World<E>)
    requires Agree(w) && w.saves + 1 < SLOTS && w.scan.pos < |w.scan.entries|
    ensures Agree(Apply(w, DoSave))
  {
    hide Apply, Word, Handle, Words, Unlike, TokenOk, Distinct, Housed, Marked;
    SaveIs(w);
    var s, p := w.scan, w.scan.pos;
    var e := s.entries[p];
    var h := if s.mark[e] == 0 then s.last + 1 else Handle(s.mark[e]);
    var l := if s.mark[e] == 0 then s.last + 1 else s.last;
    var word := Word(Tally(w.out, p) + 1, h);
    var t := Token(h, w.home[e], p, false);
    var v := Apply(w, DoSave);
    HandlesBelow(s, w.out);
    RewordedAt(s, p, word, l);
    RewordedUnlike(s, p, word, l);
    SavedWords(s, w.out, p, h, l, t);
    forall i {:trigger v.out[i]} | 0 <= i < |v.out|
      ensures TokenOk(v.scan, v.home, v.out[i])
    {
      if i < |w.out| {
        assert v.out[i] == w.out[i];
        RewordedTokens(s, w.home, p, word, l, w.out[i]);
      } else {
        SpotIsBetween(s.entries, w.home, p, t);
        NewTokenOk(s, w.home, p, word, l, t);
      }
    }
  }

  lemma NewTokenOk<E>(s: Scan<E>, home: map<E, nat>, p: nat, word: nat, last: nat, t: Token)
    requires p < |s.entries| && Between(s.entries, home, t) && s.entries[p] in home
    requires t == Token(Handle(word), home[s.entries[p]], p, false) && word != 0 && 1 <= Handle(word) <= last
    ensures TokenOk(Reworded(s, p, word, last), home, t)
  {
  }

  // ----- returning -----

  /** The handle of a position that has its mark is carried by its entry alone. */
  lemma FoundAtSpot<E>(w: World<E>, t: Token)
    requires Agree(w) && TokenOk(w.scan, w.home, t) && !t.adrift
    ensures HolderFrom(w.scan, w.home, t.bucket, t.handle, 0) == t.spot < |w.scan.entries|
    ensures forall q {:trigger w.scan.entries[q]} :: 0 <= q < |w.scan.entries| && q != t.spot ==>
              Handle(w.scan.mark[w.scan.entries[q]]) != t.handle
  {
    var s := w.scan;
    hide Distinct, Housed, Between;
    forall q {:trigger s.entries[q]} | 0 <= q < |s.entries| && q != t.spot
      ensures Handle(s.mark[s.entries[q]]) != t.handle
    {
      assert s.entries[t.spot] in s.mark;
      assert WordFor(s.mark[s.entries[q]], Tally(w.out, q), s.last);
    }
    HolderIs(s, w.home, t.bucket, t.handle, t.spot, 0);
  }

  /** The handle of a position that has lost its mark is found nowhere: the return goes past the bucket. */
  lemma NotFound<E>(w: World<E>, t: Token)
    requires Agree(w) && TokenOk(w.scan, w.home, t) && t.adrift
    ensures HolderFrom(w.scan, w.home, t.bucket, t.handle, 0) == |w.scan.entries|
  {
    HolderIs(w.scan, w.home, t.bucket, t.handle, |w.scan.entries|, 0);
  }

  /** Going past the bucket of a position goes where the position stands exactly when nothing of the bucket is left
      there. */
  lemma PastIsSpot<E>(es: seq<E>, s: Scan<E>, home: map<E, nat>, t: Token)
    requires Between(es, home, t) && s.entries == es
    ensures PastFrom(s, home, t.bucket, 0) <= |es|
    ensures PastFrom(s, home, t.bucket, 0) == t.spot <==> t.spot == |es| || home[es[t.spot]] != t.bucket
  {
    PastFound(s, home, t.bucket, 0);
    if t.spot == |es| || home[es[t.spot]] != t.bucket {
      PastIs(s, home, t.bucket, t.spot, 0);
    }
  }

  /** What a return to a position comes to. */
  lemma ReturnIs<E>(w: World<E>, i: nat)
    requires Agree(w) && i < |w.out|
    ensures var t, s := w.out[i], w.scan;
            var v := Apply(w, DoReturn(i));
            && v.out == Without(w.out, i) && v.home == w.home && v.saves == w.saves && v.held == !t.adrift
            && v.scan.pos <= |s.entries|
            && if t.adrift then v.scan == s.(pos := PastFrom(s, w.home, t.bucket, 0))
               else t.spot < |s.entries| && s.entries[t.spot] in s.mark && v.scan ==
                    Reworded(s, t.spot, UnmarkOnce(s.mark[s.entries[t.spot]]), s.last).(pos := t.spot)
  {
    var t := w.out[i];
    assert TokenOk(w.scan, w.home, t);
    if t.adrift {
      NotFound(w, t);
      PastIsSpot(w.scan.entries, w.scan, w.home, t);
    } else {
      FoundAtSpot(w, t);
    }
  }

  /** One count taken off the words. */
  lemma UnmarkedWords<E>(s: Scan<E>, out: seq<Token>, i: nat)
    requires Distinct(s.entries) && Marked(s) && Words(s, out) && i < |out| && !out[i].adrift && out[i].spot < |s.entries|
    ensures var p := out[i].spot;
            && Tally(out, p) > 0
            && Words(Reworded(s, p, UnmarkOnce(s.mark[s.entries[p]]), s.last), Without(out, i))
            && (UnmarkOnce(s.mark[s.entries[p]]) != 0 ==>
                  Handle(UnmarkOnce(s.mark[s.entries[p]])) == Handle(s.mark[s.entries[p]]))
            && (UnmarkOnce(s.mark[s.entries[p]]) == 0 <==> Tally(Without(out, i), p) == 0)
  {
    hide Distinct, Word, Handle, Tally, UnmarkOnce;
    var p := out[i].spot;
    TallyBounds(out, p);
    assert WordFor(s.mark[s.entries[p]], Tally(out, p), s.last);
    UnmarkOnceWord(s.mark[s.entries[p]], Tally(out, p), s.last);
    TallyWithout(out, i, p);
    var v := Reworded(s, p, UnmarkOnce(s.mark[s.entries[p]]), s.last);
    RewordedAt(s, p, UnmarkOnce(s.mark[s.entries[p]]), s.last);
    forall q {:trigger v.entries[q]} | 0 <= q < |v.entries|
      ensures v.entries[q] in v.mark && WordFor(v.mark[v.entries[q]], Tally(Without(out, i), q), v.last)
    {
      TallyWithout(out, i, q);
      assert WordFor(s.mark[s.entries[q]], Tally(out, q), s.last);
    }
  }

  /** A word of the same handle, or none, in the place of another. */
  lemma UnmarkedRest<E>(s: Scan<E>, home: map<E, nat>, p: nat, word: nat)
    requires Distinct(s.entries) && Marked(s) && Unlike(s) && p < |s.entries| && s.mark[s.entries[p]] != 0
    requires word != 0 ==> Handle(word) == Handle(s.mark[s.entries[p]])
    ensures Unlike(Reworded(s, p, word, s.last))
    ensures forall t: Token :: TokenOk(s, home, t) && (!t.adrift && t.spot == p ==> word != 0) ==>
              TokenOk(Reworded(s, p, word, s.last), home, t)
  {
    RewordedAt(s, p, word, s.last);
    assert Handle(0) == 0;
    hide Handle, Distinct;
    var v := Reworded(s, p, word, s.last);
    forall t: Token | TokenOk(s, home, t) && (!t.adrift && t.spot == p ==> word != 0)
      ensures TokenOk(v, home, t)
    {
      if t.adrift {
        assert s.entries[p] in s.mark;
      } else {
        assert s.entries[t.spot] in s.mark;
      }
    }
  }

  /** A return keeps the agreement. */
  lemma ReturnAgrees<E>(w: World<E>, i: nat)
    requires Agree(w) && i < |w.out|
    ensures Agree(Apply(w, DoReturn(i)))
  {
    hide Apply, Words, Unlike, TokenOk, Distinct, Housed, UnmarkOnce, Handle, PastFrom, Tally;
    ReturnIs(w, i);
    var s, t := w.scan, w.out[i];
    var v := Apply(w, DoReturn(i));
    assert TokenOk(s, w.home, t);
    if t.adrift {
      DroppedWords(s, w.out, i, v.scan.pos);
      forall k {:trigger v.out[k]} | 0 <= k < |v.out|
        ensures TokenOk(v.scan, v.home, v.out[k])
      {
        assert v.out[k] == w.out[if k < i then k else k + 1];
        SamePlace(s, w.home, v.scan.pos, v.out[k]);
      }
    } else {
      TokenIsMarked(s, w.home, t);
      UnmarkedWords(s, w.out, i);
      var word := UnmarkOnce(s.mark[s.entries[t.spot]]);
      UnmarkedRest(s, w.home, t.spot, word);
      RewordedAt(s, t.spot, word, s.last);
      var u := Reworded(s, t.spot, word, s.last);
      MovedScan(u, v.out, t.spot);
      forall k {:trigger v.out[k]} | 0 <= k < |v.out|
        ensures TokenOk(v.scan, v.home, v.out[k])
      {
        assert v.out[k] == w.out[if k < i then k else k + 1];
        TallyBounds(v.out, t.spot);
        SamePlace(u, w.home, t.spot, v.out[k]);
      }
    }
  }

  lemma TokenIsMarked<E>(s: Scan<E>, home: map<E, nat>, t: Token)
    requires TokenOk(s, home, t) && !t.adrift
    ensures t.spot < |s.entries| && s.entries[t.spot] in s.mark && s.mark[s.entries[t.spot]] != 0
  {
  }

  /** Where the cursor stands has no part in the agreement of marks and positions. */
  lemma SamePlace<E>(s: Scan<E>, home: map<E, nat>, pos: nat, t: Token)
    requires TokenOk(s, home, t)
    ensures TokenOk(s.(pos := pos), home, t)
  {
    if t.adrift {
      assert forall p {:trigger s.entries[p]} :: 0 <= p < |s.entries| ==> s.entries[p] in s.mark;
    }
  }

  lemma MovedScan<E>(s: Scan<E>, out: seq<Token>, pos: nat)
    requires Words(s, out) && Unlike(s) && Marked(s)
    ensures Words(s.(pos := pos), out) && Unlike(s.(pos := pos)) && Marked(s.(pos := pos))
  {
    hide WordFor, Tally;
  }

  lemma DroppedWords<E>(s: Scan<E>, out: seq<Token>, i: nat, pos: nat)
    requires i < |out| && out[i].adrift && Words(s, out) && Unlike(s) && Marked(s)
    ensures Words(s.(pos := pos), Without(out, i)) && Unlike(s.(pos := pos)) && Marked(s.(pos := pos))
  {
    hide WordFor, Tally;
    forall p {:trigger s.entries[p]} | 0 <= p < |s.entries|
      ensures WordFor(s.mark[s.entries[p]], Tally(Without(out, i), p), s.last)
    {
      TallyWithout(out, i, p);
    }
  }

  // ----- removing -----

  /** The entry and the word at place `p` after entry `g` has been removed. */
  lemma RemovedAt<E>(w: World<E>, g: nat, p: nat)
    requires Shape(w) && g < |w.scan.entries| && p + 1 < |w.scan.entries|
    ensures var s, v := w.scan, RemoveEntry(w, g);
            var q := Source(g, TakesAlong(w, g), p);
            && |v.scan.entries| == |s.entries| - 1 && v.scan.entries[p] == s.entries[if p < g then p else p + 1]
            && q < |s.entries| && s.entries[q] in s.mark && v.scan.entries[p] in v.scan.mark
            && v.scan.mark[v.scan.entries[p]] == s.mark[s.entries[q]]
  {
    var s := w.scan;
    assert s.entries[g] in s.mark && s.entries[if p < g then p else p + 1] in s.mark;
    if p != g && g + 1 < |s.entries| {
      assert s.entries[g + 1] != s.entries[if p < g then p else p + 1];
    }
  }

  /** Different places come from different ones. */
  lemma SourceApart(g: nat, along: bool, p: nat, q: nat)
    requires p < q
    ensures Source(g, along, p) < Source(g, along, q)
  {
  }

  lemma RemovedShape<E>(w: World<E>, g: nat)
    requires Shape(w) && g < |w.scan.entries|
    ensures Shape(RemoveEntry(w, g))
  {
    var s, v := w.scan, RemoveEntry(w, g);
    MovedAt(w.out, g, TakesAlong(w, g));
    assert forall p {:trigger v.scan.entries[p]} :: 0 <= p < |v.scan.entries| ==>
        v.scan.entries[p] == s.entries[if p < g then p else p + 1];
    forall p {:trigger v.scan.entries[p]} | 0 <= p < |v.scan.entries|
      ensures v.scan.entries[p] in v.scan.mark
    {
      RemovedAt(w, g, p);
    }
    assert Distinct(v.scan.entries) && Housed(v.scan.entries, w.home) && Marked(v.scan);
    assert v.scan.pos <= |v.scan.entries|;
    assert |v.out| == |w.out|;
  }

  lemma RemovedWords<E>(w: World<E>, g: nat)
    requires Shape(w) && g < |w.scan.entries| && Words(w.scan, w.out) && Unlike(w.scan)
    ensures Words(RemoveEntry(w, g).scan, RemoveEntry(w, g).out) && Unlike(RemoveEntry(w, g).scan)
  {
    hide Tally, Handle, Distinct, Housed, TakesAlong;
    var s, along := w.scan, TakesAlong(w, g);
    var v := RemoveEntry(w, g);
    forall p {:trigger v.scan.entries[p]} | 0 <= p < |v.scan.entries|
      ensures v.scan.entries[p] in v.scan.mark && WordFor(v.scan.mark[v.scan.entries[p]], Tally(v.out, p), v.scan.last)
    {
      RemovedAt(w, g, p);
      TallyMoved(w.out, g, along, p);
      assert WordFor(s.mark[s.entries[Source(g, along, p)]], Tally(w.out, Source(g, along, p)), s.last);
    }
    forall p, q {:trigger v.scan.entries[p], v.scan.entries[q]} | 0 <= p < q < |v.scan.entries|
      ensures v.scan.mark[v.scan.entries[p]] != 0 && v.scan.mark[v.scan.entries[q]] != 0 ==>
                Handle(v.scan.mark[v.scan.entries[p]]) != Handle(v.scan.mark[v.scan.entries[q]])
    {
      RemovedAt(w, g, p);
      RemovedAt(w, g, q);
      SourceApart(g, along, p, q);
    }
  }

  /** A position stands between the same buckets after a removal. */
  lemma MovedBetween<E>(es: seq<E>, home: map<E, nat>, t: Token, g: nat, along: bool)
    requires Between(es, home, t) && g < |es|
    ensures Between(Without(es, g), home, MoveToken(t, g, along))
  {
    var ds, u := Without(es, g), MoveToken(t, g, along);
    assert forall p {:trigger ds[p]} :: 0 <= p < |ds| ==> ds[p] == es[if p < g then p else p + 1];
  }

  /** A position that keeps its mark through a removal stands at the entry that now has it. */
  lemma MovedMark<E>(w: World<E>, g: nat, t: Token)
    requires Shape(w) && g < |w.scan.entries| && TokenOk(w.scan, w.home, t)
    requires !MoveToken(t, g, TakesAlong(w, g)).adrift
    ensures TokenOk(RemoveEntry(w, g).scan, w.home, MoveToken(t, g, TakesAlong(w, g)))
  {
    var u, v := MoveToken(t, g, TakesAlong(w, g)), RemoveEntry(w, g);
    MovedBetween(w.scan.entries, w.home, t, g, TakesAlong(w, g));
    RemovedAt(w, g, u.spot);
    hide Between, Distinct, Housed, Handle, Marked;
    assert w.scan.entries[t.spot] in w.scan.mark;
  }

  /** The handle of a position that has lost its mark is on no entry. */
  lemma MovedAdrift<E>(w: World<E>, g: nat, t: Token)
    requires Agree(w) && g < |w.scan.entries| && TokenOk(w.scan, w.home, t)
    requires MoveToken(t, g, TakesAlong(w, g)).adrift
    ensures TokenOk(RemoveEntry(w, g).scan, w.home, MoveToken(t, g, TakesAlong(w, g)))
  {
    var s, along := w.scan, TakesAlong(w, g);
    var v := RemoveEntry(w, g);
    MovedBetween(s.entries, w.home, t, g, along);
    if !t.adrift {
      FoundAtSpot(w, t);
    }
    hide Between, Distinct, Housed, Handle, TakesAlong, Words, Unlike, HolderFrom;
    forall p {:trigger v.scan.entries[p]} | 0 <= p < |v.scan.entries|
      ensures v.scan.entries[p] in v.scan.mark && Handle(v.scan.mark[v.scan.entries[p]]) != t.handle
    {
      RemovedAt(w, g, p);
      assert Handle(s.mark[s.entries[Source(g, along, p)]]) != t.handle;
    }
  }

  /** A removal keeps the agreement. */
  lemma RemoveAgrees<E>(w: World<E>, g: nat)
    requires Agree(w) && g < |w.scan.entries|
    ensures Agree(Apply(w, DoRemove(g)))
  {
    hide Shape, Words, Unlike, TokenOk, TakesAlong, MovedMarks;
    RemovedShape(w, g);
    RemovedWords(w, g);
    var along, v := TakesAlong(w, g), RemoveEntry(w, g);
    MovedAt(w.out, g, along);
    forall i {:trigger v.out[i]} | 0 <= i < |v.out|
      ensures TokenOk(v.scan, v.home, v.out[i])
    {
      assert TokenOk(w.scan, w.home, w.out[i]);
      if MoveToken(w.out[i], g, along).adrift {
        MovedAdrift(w, g, w.out[i]);
      } else {
        MovedMark(w, g, w.out[i]);
      }
    }
  }

  // ----- every run -----

  /** Every scan step, save, return and removal keeps marks and outstanding positions in agreement. */
  lemma StepAgrees<E>(w: World<E>, op: Op)
    requires Agree(w) && Apply(w, op).saves < SLOTS
    ensures Agree(Apply(w, op)) && w.saves <= Apply(w, op).saves && Apply(w, op).home == w.home
  {
    hide Agree, RemoveEntry, BackTo, Save;
    match op
    case DoSave =>
      NoSaveAtEnd(w);
      if w.scan.pos < |w.scan.entries| {
        SaveAgrees(w);
      }
    case DoReturn(i) =>
      if i < |w.out| {
        ReturnAgrees(w, i);
      }
    case DoRemove(g) =>
      RemovalKeeps(w, g);
      if g < |w.scan.entries| {
        RemoveAgrees(w, g);
      }
    case _ =>
      MoveAgrees(w, Apply(w, op).scan.pos, Apply(w, op).held);
  }

  lemma NoSaveAtEnd<E>(w: World<E>)
    requires Agree(w)
    ensures w.scan.pos < |w.scan.entries| ==>
              w.scan.entries[w.scan.pos] in w.scan.mark && w.scan.entries[w.scan.pos] in w.home
  {
  }

  lemma RemovalKeeps<E>(w: World<E>, g: nat)
    ensures Apply(w, DoRemove(g)).saves == w.saves && Apply(w, DoRemove(g)).home == w.home
  {
  }

  lemma MoveAgrees<E>(w: World<E>, pos: nat, held: bool)
    requires Agree(w)
    ensures pos <= |w.scan.entries| ==> Agree(w.(scan := w.scan.(pos := pos), held := held))
    ensures w.scan.pos <= |w.scan.entries|
  {
    hide TokenOk, Words, Unlike, Marked;
    MovedScan(w.scan, w.out, pos);
    forall i {:trigger w.out[i]} | 0 <= i < |w.out|
      ensures TokenOk(w.scan.(pos := pos), w.home, w.out[i])
    {
      SamePlace(w.scan, w.home, pos, w.out[i]);
    }
  }

  lemma SavesGrow<E>(w: World<E>, op: Op)
    ensures w.saves <= Apply(w, op).saves
  {
  }

  lemma {:induction false} RunAgrees<E>(w: World<E>, ops: seq<Op>)
    requires Agree(w) && ApplyAll(w, ops).saves < SLOTS
    ensures Agree(ApplyAll(w, ops)) && ApplyAll(w, ops).home == w.home
    decreases |ops|
  {
    hide Agree, Apply;
    if ops != [] {
      var n := |ops| - 1;
      SavesGrow(ApplyAll(w, ops[..n]), ops[n]);
      RunAgrees(w, ops[..n]);
      StepAgrees(ApplyAll(w, ops[..n]), ops[n]);
    }
  }

  /** A table without marks and without positions outstanding. */
  ghost predicate Unmarked<E>(w: World<E>) {
    && Distinct(w.scan.entries) && w.scan.pos <= |w.scan.entries| && Housed(w.scan.entries, w.home)
    && w.scan.last == 0 && w.out == [] && w.saves == 0
    && forall p {:trigger w.scan.entries[p]} :: 0 <= p < |w.scan.entries| ==>
         w.scan.entries[p] in w.scan.mark && w.scan.mark[w.scan.entries[p]] == 0
  }

  /** From a table without marks, marks and outstanding positions agree after every run of fewer than 65536 saves,
      whatever is removed in between. */
  lemma EveryRunAgrees<E>(w: World<E>, ops: seq<Op>)
    requires Unmarked(w) && ApplyAll(w, ops).saves < SLOTS
    ensures Agree(ApplyAll(w, ops)) && ApplyAll(w, ops).home == w.home
  {
    RunAgrees(w, ops);
  }

  /** Exactly when a marker comes back, over every run of scanning, saving, returning and removing with fewer than 65536
      saves: when it has not lost its mark, or nothing of its bucket is left from where it leads. */
  lemma MarkerComesBack<E>(w: World<E>, ops: seq<Op>, i: nat)
    requires Unmarked(w) && ApplyAll(w, ops).saves < SLOTS && i < |ApplyAll(w, ops).out|
    ensures var v := ApplyAll(w, ops);
            var t, es := v.out[i], v.scan.entries;
            && t.spot <= |es| && (t.spot < |es| ==> es[t.spot] in v.home)
            && (Apply(v, DoReturn(i)).scan.pos == t.spot <==>
                  !t.adrift || t.spot == |es| || v.home[es[t.spot]] != t.bucket)
  {
    hide Apply, Words, Unlike, UnmarkOnce;
    EveryRunAgrees(w, ops);
    var v := ApplyAll(w, ops);
    ReturnIs(v, i);
    assert TokenOk(v.scan, v.home, v.out[i]);
    PastIsSpot(v.scan.entries, v.scan, v.home, v.out[i]);
  }

  /** The mark of an entry is cleared by a return exactly when no other position that has its mark stands there. */
  lemma MarkCleared<E>(w: World<E>, i: nat)
    requires Agree(w) && i < |w.out| && !w.out[i].adrift
    ensures var u, p := Apply(w, DoReturn(i)), w.out[i].spot;
            && p < |u.scan.entries| && u.scan.entries[p] in u.scan.mark
            && (u.scan.mark[u.scan.entries[p]] == 0 <==>
                  forall k {:trigger u.out[k]} :: 0 <= k < |u.out| ==> u.out[k].adrift || u.out[k].spot != p)
  {
    hide Apply, Words, Unlike, UnmarkOnce, Distinct, Housed, TokenOk, Tally;
    ReturnIs(w, i);
    UnmarkedWords(w.scan, w.out, i);
    TallyBounds(Without(w.out, i), w.out[i].spot);
  }

  // ----- what the place of a position means -----

  /** The entries still to come at a position. */
  function Rest<E(==)>(w: World<E>, i: nat): seq<E>
    requires i < |w.out| && w.out[i].spot <= |w.scan.entries|
  {
    w.scan.entries[w.out[i].spot..]
  }

  /** The number of a position after an operation that does not return to it. */
  function Number(op: Op, i: nat): nat {
    if op.DoReturn? && op.i < i then i - 1 else i
  }

  /** Through every operation the entries still to come at a position stay the same, but for the entry removed. */
  lemma RestFollows<E>(w: World<E>, op: Op, i: nat)
    requires i < |w.out| && w.out[i].spot <= |w.scan.entries| && op != DoReturn(i)
    ensures var v, k := Apply(w, op), Number(op, i);
            && k < |v.out| && v.out[k].spot <= |v.scan.entries|
            && v.out[k].handle == w.out[i].handle && v.out[k].bucket == w.out[i].bucket
            && Rest(v, k) == if op.DoRemove? && w.out[i].spot <= op.g < |w.scan.entries|
                             then Without(Rest(w, i), op.g - w.out[i].spot) else Rest(w, i)
  {
    hide HolderFrom, PastFrom, MarkOnce, UnmarkOnce, Handle, MovedMarks, TakesAlong, SameBucket;
    match op
    case DoRemove(g) =>
      if g < |w.scan.entries| {
        MovedAt(w.out, g, TakesAlong(w, g));
        RestWithout(w.scan.entries, w.out[i].spot, g);
      }
    case _ =>
  }

  lemma RestWithout<E>(es: seq<E>, p: nat, g: nat)
    requires p <= |es| && g < |es|
    ensures g < p ==> Without(es, g)[p - 1..] == es[p..]
    ensures g >= p ==> Without(es, g)[p..] == Without(es[p..], g - p)
  {
  }

  // ----- runs without removals -----

  lemma {:induction false} NothingRemoved<E>(w: World<E>, ops: seq<Op>)
    requires forall op :: op in ops ==> !op.DoRemove?
    ensures ApplyAll(w, ops).scan.entries == w.scan.entries && w.saves <= ApplyAll(w, ops).saves
    decreases |ops|
  {
    hide Apply;
    if ops != [] {
      var n := |ops| - 1;
      assert ops[n] in ops;
      NothingRemoved(w, ops[..n]);
      OthersRemoveNothing(ApplyAll(w, ops[..n]), ops[n]);
    }
  }

  lemma OthersRemoveNothing<E>(w: World<E>, op: Op)
    requires !op.DoRemove?
    ensures Apply(w, op).scan.entries == w.scan.entries && w.saves <= Apply(w, op).saves
  {
    hide HolderFrom, PastFrom, MarkOnce, UnmarkOnce;
  }

  /** A saved position comes back. A save, any scan steps, saves and returns after it, and then its own return
      leave exactly the entries still to be scanned that there were at the save. */
  lemma SavedPositionComesBack<E>(w: World<E>, between: seq<Op>, t: Token, i: nat)
    requires Agree(w) && w.scan.pos < |w.scan.entries| && forall op :: op in between ==> !op.DoRemove?
    requires Apply(w, DoSave).out == w.out + [t]
    requires ApplyAll(Apply(w, DoSave), between).saves < SLOTS
    requires i < |ApplyAll(Apply(w, DoSave), between).out| && ApplyAll(Apply(w, DoSave), between).out[i] == t
    ensures var u := Apply(ApplyAll(Apply(w, DoSave), between), DoReturn(i));
            u.scan.entries == w.scan.entries && u.scan.pos == w.scan.pos
  {
    var w1 := Apply(w, DoSave);
    var v := ApplyAll(w1, between);
    NothingRemoved(w1, between);
    NoSaveAtEnd(w);
    assert !t.adrift && t.spot == w.scan.pos by {
      assert (w.out + [t])[|w.out|] == t;
    }
    hide Agree, Apply;
    SaveCounts(w);
    SaveAgrees(w);
    RunAgrees(w1, between);
    ReturnIs(v, i);
  }

  lemma SaveCounts<E>(w: World<E>)
    requires Agree(w) && w.scan.pos < |w.scan.entries|
    ensures Apply(w, DoSave).saves == w.saves + 1 && Apply(w, DoSave).scan.entries == w.scan.entries
  {
  }

  // ----- any number of saves -----

  /** Outstanding positions stand where their buckets are. */
  ghost predicate Placed<E>(w: World<E>) {
    && Housed(w.scan.entries, w.home)
    && forall i {:trigger w.out[i]} :: 0 <= i < |w.out| ==> Between(w.scan.entries, w.home, w.out[i])
  }

  lemma HousedWithout<E>(es: seq<E>, home: map<E, nat>, g: nat)
    requires Housed(es, home) && g < |es|
    ensures Housed(Without(es, g), home)
  {
    var ds := Without(es, g);
    assert forall p {:trigger ds[p]} :: 0 <= p < |ds| ==> ds[p] == es[if p < g then p else p + 1];
  }

  lemma StepPlaced<E>(w: World<E>, op: Op)
    requires Placed(w)
    ensures Placed(Apply(w, op)) && Apply(w, op).home == w.home
  {
    var v := Apply(w, op);
    match op
    case DoSave =>
      var p := w.scan.pos;
      if v != w {
        SpotIsBetween(w.scan.entries, w.home, p, v.out[|w.out|]);
        hide Between, Housed;
        assert forall i {:trigger v.out[i]} :: 0 <= i < |w.out| ==> v.out[i] == w.out[i];
      }
    case DoReturn(i) =>
      hide Between, Housed;
      if i < |w.out| {
        assert forall k {:trigger v.out[k]} :: 0 <= k < |v.out| ==> v.out[k] == w.out[if k < i then k else k + 1];
      }
    case DoRemove(g) =>
      if g < |w.scan.entries| {
        HousedWithout(w.scan.entries, w.home, g);
        hide Between, Housed;
        MovedAt(w.out, g, TakesAlong(w, g));
        forall i {:trigger v.out[i]} | 0 <= i < |v.out|
          ensures Between(v.scan.entries, v.home, v.out[i])
        {
          MovedBetween(w.scan.entries, w.home, w.out[i], g, TakesAlong(w, g));
        }
      }
    case _ =>
  }

  lemma {:induction false} RunPlaced<E>(w: World<E>, ops: seq<Op>)
    requires Placed(w)
    ensures Placed(ApplyAll(w, ops)) && ApplyAll(w, ops).home == w.home
    decreases |ops|
  {
    hide Placed, Apply;
    if ops != [] {
      RunPlaced(w, ops[..|ops| - 1]);
      StepPlaced(ApplyAll(w, ops[..|ops| - 1]), ops[|ops| - 1]);
    }
  }

  /** After any run with any number of saves, a return goes where the position stands exactly when the entry there is
      the first of the bucket to carry the handle, or no entry of the bucket does and none of them is left from there
      on. */
  lemma ComesBackIff<E>(w: World<E>, ops: seq<Op>, i: nat)
    requires Housed(w.scan.entries, w.home) && w.out == []
    requires i < |ApplyAll(w, ops).out|
    ensures var v := ApplyAll(w, ops);
            var t, es := v.out[i], v.scan.entries;
            && t.spot <= |es| && (t.spot < |es| ==> es[t.spot] in v.home)
            && (Apply(v, DoReturn(i)).scan.pos == t.spot <==>
                  && (forall k :: 0 <= k < t.spot ==> !Carries(v.scan, v.home, t.bucket, t.handle, k))
                  && (Carries(v.scan, v.home, t.bucket, t.handle, t.spot)
                      || ((forall k :: t.spot <= k < |es| ==> !Carries(v.scan, v.home, t.bucket, t.handle, k))
                          && (t.spot == |es| || v.home[es[t.spot]] != t.bucket))))
  {
    RunPlaced(w, ops);
    var v := ApplyAll(w, ops);
    assert Between(v.scan.entries, v.home, v.out[i]);
    ReturnLands(v, i);
  }

  lemma ReturnLands<E>(v: World<E>, i: nat)
    requires i < |v.out| && Between(v.scan.entries, v.home, v.out[i])
    ensures var t, es := v.out[i], v.scan.entries;
            && (Apply(v, DoReturn(i)).scan.pos == t.spot <==>
                  && (forall k :: 0 <= k < t.spot ==> !Carries(v.scan, v.home, t.bucket, t.handle, k))
                  && (Carries(v.scan, v.home, t.bucket, t.handle, t.spot)
                      || ((forall k :: t.spot <= k < |es| ==> !Carries(v.scan, v.home, t.bucket, t.handle, k))
                          && (t.spot == |es| || v.home[es[t.spot]] != t.bucket))))
  {
    var t, s, home := v.out[i], v.scan, v.home;
    var g := HolderFrom(s, home, t.bucket, t.handle, 0);
    NoneBefore(s, home, t.bucket, t.handle, 0);
    PastIsSpot(s.entries, s, home, t);
    if g < |s.entries| {
      assert Carries(s, home, t.bucket, t.handle, g);
      assert Apply(v, DoReturn(i)).scan.pos == g;
    } else {
      HolderBelow(s, home, t.bucket, t.handle, 0);
      assert Apply(v, DoReturn(i)).scan.pos == PastFrom(s, home, t.bucket, 0);
    }
  }

  lemma {:induction false} HolderBelow<E>(s: Scan<E>, home: map<E, nat>, b: nat, h: nat, i: nat)
    ensures HolderFrom(s, home, b, h, i) <= |s.entries|
    decreases |s.entries| - i
  {
    if i < |s.entries| && !Carries(s, home, b, h, i) {
      HolderBelow(s, home, b, h, i + 1);
    }
  }

  /** Saving and returning over and over at the second of two entries of one bucket. */
  function Pairs(k: nat): seq<Op> {
    if k == 0 then [] else Pairs(k - 1) + [DoSave, DoReturn(1)]
  }

  function TwoEntries(pos: nat, first: nat, last: nat, out: seq<Token>): World<int> {
    World(Scan([7, 8], pos, map[7 := first, 8 := 0], last), map[7 := 0, 8 := 0], pos == 1, out, last)
  }

  lemma LastTwo<E>(w: World<E>, ops: seq<Op>, a: Op, b: Op)
    ensures ApplyAll(w, ops + [a, b]) == Apply(Apply(ApplyAll(w, ops), a), b)
  {
    var all := ops + [a, b];
    assert all[..|all| - 1] == ops + [a];
    assert (ops + [a])[..|ops|] == ops;
  }

  /** One save and one return at the second entry use up one handle. */
  lemma OnePair(last: nat)
    requires 1 <= last < SLOTS - 1
    ensures var w := TwoEntries(1, Word(1, 1), last, [Token(1, 0, 0, false)]);
            Apply(Apply(w, DoSave), DoReturn(1)) == TwoEntries(1, Word(1, 1), last + 1, [Token(1, 0, 0, false)])
  {
    var w := TwoEntries(1, Word(1, 1), last, [Token(1, 0, 0, false)]);
    var v := Apply(w, DoSave);
    WordParts(1, 1);
    WordParts(1, last + 1);
    assert v.scan.mark[8] == Word(1, last + 1) && v.scan.mark[7] == Word(1, 1);
    assert v.out[1] == Token(last + 1, 0, 1, false);
    HolderIs(v.scan, v.home, 0, last + 1, 1, 0);
    assert Without(v.out, 1) == [Token(1, 0, 0, false)];
    assert v.scan.mark[8 := 0] == w.scan.mark;
  }

  lemma {:induction false} ManyPairs(k: nat)
    requires k < SLOTS - 1
    ensures var w := TwoEntries(1, Word(1, 1), 1, [Token(1, 0, 0, false)]);
            ApplyAll(w, Pairs(k)) == TwoEntries(1, Word(1, 1), k + 1, [Token(1, 0, 0, false)])
  {
    hide Apply, TwoEntries, Word;
    if k > 0 {
      ManyPairs(k - 1);
      OnePair(k);
      LastTwo(TwoEntries(1, Word(1, 1), 1, [Token(1, 0, 0, false)]), Pairs(k - 1), DoSave, DoReturn(1));
    }
  }

  lemma {:induction false} RunOn<E>(w: World<E>, a: seq<Op>, b: seq<Op>)
    ensures ApplyAll(w, a + b) == ApplyAll(ApplyAll(w, a), b)
    decreases |b|
  {
    if b == [] {
      assert a + b == a;
    } else {
      RunOn(w, a, b[..|b| - 1]);
      assert (a + b)[..|a + b| - 1] == a + b[..|b| - 1];
    }
  }

  /** The bound on saves is needed, and cannot be raised. From a table of two unmarked entries of one bucket, a run
      with 65536 saves gives the second entry the handle that the first one still carries; returning to the second
      goes to the first. */
  lemma HandlesRunRound()
    ensures var ops := [DoSave, GoNext] + Pairs(SLOTS - 2) + [DoSave];
            var w := ApplyAll(TwoEntries(0, 0, 0, []), ops);
            && w.saves == SLOTS && |w.out| == 2 && w.out[1].spot == 1
            && Apply(w, DoReturn(1)).scan.pos == 0
  {
    hide Apply, TwoEntries, Word;
    var start := TwoEntries(0, 0, 0, []);
    var first: seq<Op> := [DoSave, GoNext];
    FirstSave();
    RunOn(start, first, Pairs(SLOTS - 2));
    ManyPairs(SLOTS - 2);
    RunOn(start, first + Pairs(SLOTS - 2), [DoSave]);
    var u := TwoEntries(1, Word(1, 1), SLOTS - 1, [Token(1, 0, 0, false)]);
    assert ApplyAll(u, [DoSave]) == Apply(ApplyAll(u, []), DoSave);
    LastSave();
  }

  lemma FirstSave()
    ensures ApplyAll(TwoEntries(0, 0, 0, []), [DoSave, GoNext]) == TwoEntries(1, Word(1, 1), 1, [Token(1, 0, 0, false)])
  {
    var start := TwoEntries(0, 0, 0, []);
    LastTwo(start, [], DoSave, GoNext);
    assert [] + [DoSave, GoNext] == [DoSave, GoNext];
    WordParts(1, 1);
    assert start.scan.mark[7 := Word(1, 1)] == map[7 := Word(1, 1), 8 := 0];
  }

  lemma LastSave()
    ensures var w := Apply(TwoEntries(1, Word(1, 1), SLOTS - 1, [Token(1, 0, 0, false)]), DoSave);
            && w.saves == SLOTS && |w.out| == 2 && w.out[1].spot == 1
            && Apply(w, DoReturn(1)).scan.pos == 0
  {
    hide HolderFrom, PastFrom;
    WordParts(1, 1);
    var w := Apply(TwoEntries(1, Word(1, 1), SLOTS - 1, [Token(1, 0, 0, false)]), DoSave);
    assert w.scan.mark[7] == Word(1, 1) && w.out[1] == Token(1, 0, 1, false);
    HolderIs(w.scan, w.home, 0, 1, 0, 0);
  }
}
