/** The two-file join of APPS/incast/ele_aggregator.c. A file is the sequence of its lines, read as entries. */
module EleAggregator {
  import opened ScanSpec

  datatype Entry = Entry(timemark: int, bps: int)

  ghost predicate Increasing(s: seq<Entry>) {
    |s| <= 1 || (s[0].timemark < s[1].timemark && Increasing(s[1..]))
  }

  /** The rate at a time mark. */
  function RateAt(s: seq<Entry>, timemark: int): Option<int> {
    if s == [] then None else if s[0].timemark == timemark then Some(s[0].bps) else RateAt(s[1..], timemark)
  }

  /** One record for each time mark of `l` that `r` has too, in order, with the two rates added. */
  function Join(l: seq<Entry>, r: seq<Entry>): seq<Entry> {
    if l == [] then []
    else
      var rest := Join(l[1..], r);
      match RateAt(r, l[0].timemark)
      case None => rest
      case Some(b) => [Entry(l[0].timemark, l[0].bps + b)] + rest
  }

  lemma {:induction false} NoneBelow(s: seq<Entry>, timemark: int)
    requires Increasing(s) && (s != [] ==> timemark < s[0].timemark)
    ensures RateAt(s, timemark).None?
  {
    if s != [] {
      NoneBelow(s[1..], timemark);
    }
  }

  /** An entry of `r` below everything in `l` joins nothing. */
  lemma {:induction false} SkipRight(l: seq<Entry>, r: seq<Entry>)
    requires Increasing(l) && r != [] && (l != [] ==> r[0].timemark < l[0].timemark)
    ensures Join(l, r) == Join(l, r[1..])
  {
    if l != [] {
      SkipRight(l[1..], r);
    }
  }

  lemma {:induction false} JoinNothing(l: seq<Entry>)
    ensures Join(l, []) == []
  {
    if l != [] {
      JoinNothing(l[1..]);
    }
  }

  lemma JoinBoth(l: seq<Entry>, r: seq<Entry>)
    requires Increasing(l) && l != [] && r != [] && l[0].timemark == r[0].timemark
    ensures Join(l, r) == [Entry(l[0].timemark, l[0].bps + r[0].bps)] + Join(l[1..], r[1..])
  {
    SkipRight(l[1..], r);
    hide Increasing;
  }

  lemma SkipLeft(l: seq<Entry>, r: seq<Entry>)
    requires Increasing(r) && l != [] && r != [] && l[0].timemark < r[0].timemark
    ensures Join(l, r) == Join(l[1..], r)
  {
    NoneBelow(r, l[0].timemark);
    hide Increasing;
  }

  /** The step of the join, by comparing the first marks. */
  lemma JoinStep(l: seq<Entry>, r: seq<Entry>)
    requires Increasing(l) && Increasing(r)
    ensures l == [] || r == [] ==> Join(l, r) == []
    ensures l != [] && r != [] && l[0].timemark > r[0].timemark ==> Join(l, r) == Join(l, r[1..])
    ensures l != [] && r != [] && l[0].timemark < r[0].timemark ==> Join(l, r) == Join(l[1..], r)
    ensures l != [] && r != [] && l[0].timemark == r[0].timemark ==>
              Join(l, r) == [Entry(l[0].timemark, l[0].bps + r[0].bps)] + Join(l[1..], r[1..])
  {
    hide Increasing;
    if r == [] {
      JoinNothing(l);
    } else if l != [] {
      hide Join;
      if l[0].timemark > r[0].timemark {
        SkipRight(l, r);
      } else if l[0].timemark < r[0].timemark {
        SkipLeft(l, r);
      } else {
        JoinBoth(l, r);
      }
    }
  }

  /** The join is the same from either side. */
  lemma {:induction false} JoinSymmetric(l: seq<Entry>, r: seq<Entry>)
    requires Increasing(l) && Increasing(r)
    ensures Join(l, r) == Join(r, l)
    decreases |l| + |r|
  {
    JoinStep(l, r);
    JoinStep(r, l);
    if l != [] && r != [] {
      if l[0].timemark > r[0].timemark {
        JoinSymmetric(l, r[1..]);
      } else if l[0].timemark < r[0].timemark {
        JoinSymmetric(l[1..], r);
      } else {
        JoinSymmetric(l[1..], r[1..]);
      }
    }
  }

  // ----- the program -----

  /** An open file: its lines, and how many have been read. */
  class Stream {
    const lines: seq<Entry>
    var pos: nat

    constructor (s: seq<Entry>)
      ensures lines == s && pos == 0
    {
      lines, pos := s, 0;
    }

    method Fgets() returns (e: Option<Entry>)
      requires pos <= |lines|
      modifies this
      ensures pos <= |lines|
      ensures e == if old(pos) < |lines| then Some(lines[old(pos)]) else None
      ensures pos == if old(pos) < |lines| then old(pos) + 1 else old(pos)
    {
      if pos < |lines| {
        e := Some(lines[pos]);
        pos := pos + 1;
      } else {
        e := None;
      }
    }
  }

  /** A file and the entry last read from it agree. */
  ghost predicate Current(io: Stream?, e: Entry)
    reads io
  {
    io != null ==> 0 < io.pos <= |io.lines| && io.lines[io.pos - 1] == e
  }

  /** The entry last read and everything behind it; nothing, once the file is closed. */
  ghost function Pending(io: Stream?): seq<Entry>
    requires io != null ==> 0 < io.pos <= |io.lines|
    reads io
  {
    if io == null then [] else io.lines[io.pos - 1..]
  }

  method Drain(io: Stream)
    requires io.pos <= |io.lines|
    modifies io
    ensures io.pos == |io.lines|
  {
    var line := io.Fgets();
    while line.Some?
      invariant io.pos <= |io.lines| && (line.None? ==> io.pos == |io.lines|)
      decreases |io.lines| - io.pos, line.Some?
    {
      line := io.Fgets();
    }
  }

  /** Reads the next entry, or closes the file at its end and keeps the entry. */
  method ReadNext(io0: Stream, e0: Entry) returns (io: Stream?, e: Entry)
    requires Current(io0, e0)
    modifies io0
    ensures io == null || (io == io0 && io.pos == old(io0.pos) + 1)
    ensures Current(io, e) && (io == null ==> e == e0)
    ensures Pending(io) == old(Pending(io0))[1..]
    ensures io == null ==> old(io0.pos) == |io0.lines|
  {
    var line := io0.Fgets();
    match line
    case None => io, e := null, e0;
    case Some(next) => io, e := io0, next;
  }

  /** The join of `l` and `r`, if their marks increase, is still that of `p` and `q`. */
  ghost predicate Reduced(l: seq<Entry>, r: seq<Entry>, p: seq<Entry>, q: seq<Entry>) {
    Increasing(l) && Increasing(r) ==> Increasing(p) && Increasing(q) && Join(l, r) == Join(p, q)
  }

  lemma ReduceOne(l: seq<Entry>, r: seq<Entry>, p: seq<Entry>, q: seq<Entry>)
    requires Reduced(l, r, p, q)
    ensures p == [] || q == [] ==> Reduced(l, r, [], [])
    ensures p != [] && q != [] && p[0].timemark > q[0].timemark ==> Reduced(l, r, p, q[1..])
    ensures p != [] && q != [] && p[0].timemark < q[0].timemark ==> Reduced(l, r, p[1..], q)
  {
    if Increasing(l) && Increasing(r) {
      JoinStep(p, q);
    }
  }

  /** How much there is still to read, counting the closing of the file. */
  ghost function ToRead(io: Stream?): nat
    requires io != null ==> io.pos <= |io.lines|
    reads io
  {
    if io == null then 0 else |io.lines| - io.pos + 1
  }

  /** Reads on until the two entries agree, or until both files are closed. */
  method SyncNeeded(le0: Entry, left0: Stream?, re0: Entry, right0: Stream?)
      returns (le: Entry, left: Stream?, re: Entry, right: Stream?)
    requires left0 != null || right0 != null
    requires left0 != right0
    requires Current(left0, le0) && Current(right0, re0) && le0.timemark != re0.timemark
    modifies left0, right0
    ensures (left == null || left == left0) && (right == null || right == right0)
    ensures left == null <==> right == null
    ensures Current(left, le) && Current(right, re)
    ensures left != null ==> le.timemark == re.timemark
    ensures ToRead(left) + ToRead(right) < old(ToRead(left0) + ToRead(right0))
    ensures Reduced(old(Pending(left0)), old(Pending(right0)), Pending(left), Pending(right))
  {
    hide Join, Increasing, Reduced;
    le, left, re, right := le0, left0, re0, right0;
    ghost var l, r := Pending(left0), Pending(right0);
    ReducedStart(l, r);
    while left != null && right != null && le.timemark != re.timemark
      invariant (left == null || left == left0) && (right == null || right == right0)
      invariant left != null || right != null
      invariant Current(left, le) && Current(right, re)
      invariant ToRead(left) + ToRead(right) <= old(ToRead(left0) + ToRead(right0))
      invariant left != null && right != null && le.timemark == re.timemark ==>
                  ToRead(left) + ToRead(right) < old(ToRead(left0) + ToRead(right0))
      invariant Reduced(l, r, Pending(left), Pending(right))
      decreases ToRead(left) + ToRead(right)
    {
      ReduceOne(l, r, Pending(left), Pending(right));
      if le.timemark > re.timemark {
        right, re := ReadNext(right, re);
      } else {
        left, le := ReadNext(left, le);
      }
    }
    if left != null && right != null {
      return;
    }
    ReduceOne(l, r, Pending(left), Pending(right));
    if left == null {
      Drain(right);
      right := null;
    } else {
      Drain(left);
      left := null;
    }
  }

  lemma ReducedStart(l: seq<Entry>, r: seq<Entry>)
    ensures Reduced(l, r, l, r)
  {
  }

  /** With `out` written, what is left to join gives the rest; with one file closed, the entries disagree. */
  ghost predicate Aggregating(l: seq<Entry>, r: seq<Entry>, out: seq<Entry>, p: seq<Entry>, q: seq<Entry>,
                              le: Entry, re: Entry) {
    Increasing(l) && Increasing(r) ==>
      && Increasing(p) && Increasing(q)
      && Join(l, r) == out + Join(p, q)
      && ((p == []) != (q == []) ==> le.timemark != re.timemark)
  }

  /** Entries read on past a pair that agrees. */
  lemma Output(l: seq<Entry>, r: seq<Entry>, out: seq<Entry>, p: seq<Entry>, q: seq<Entry>, le: Entry, re: Entry,
               le2: Entry, re2: Entry)
    requires Aggregating(l, r, out, p, q, le, re)
    requires p != [] || q != []
    requires le.timemark == re.timemark
    requires p != [] ==> p[0] == le && le2 == if |p| > 1 then p[1] else le
    requires q != [] ==> q[0] == re && re2 == if |q| > 1 then q[1] else re
    ensures Increasing(l) && Increasing(r) ==> p != [] && q != []
    ensures Aggregating(l, r, out + [Entry(le.timemark, le.bps + re.bps)],
                        if p == [] then p else p[1..], if q == [] then q else q[1..], le2, re2)
  {
    if Increasing(l) && Increasing(r) {
      JoinStep(p, q);
      assert out + ([Entry(le.timemark, le.bps + re.bps)] + Join(p[1..], q[1..]))
          == out + [Entry(le.timemark, le.bps + re.bps)] + Join(p[1..], q[1..]);
    }
  }

  lemma Synced(l: seq<Entry>, r: seq<Entry>, out: seq<Entry>, p: seq<Entry>, q: seq<Entry>, le: Entry, re: Entry,
               p2: seq<Entry>, q2: seq<Entry>, le2: Entry, re2: Entry)
    requires Aggregating(l, r, out, p, q, le, re) && Reduced(p, q, p2, q2) && (p2 == [] <==> q2 == [])
    ensures Aggregating(l, r, out, p2, q2, le2, re2)
  {
  }

  lemma Finished(l: seq<Entry>, r: seq<Entry>, out: seq<Entry>, le: Entry, re: Entry)
    requires Aggregating(l, r, out, [], [], le, re)
    ensures Increasing(l) && Increasing(r) ==> out == Join(l, r)
  {
    assert out + [] == out;
  }

  lemma Started(l: seq<Entry>, r: seq<Entry>, le: Entry, re: Entry)
    requires l != [] && r != []
    ensures Aggregating(l, r, [], l, r, le, re)
  {
    assert [] + Join(l, r) == Join(l, r);
  }

  /** The next entry, where a file already closed gives the time mark 0. */
  method Advance(io0: Stream?, e0: Entry) returns (io: Stream?, e: Entry)
    requires Current(io0, e0)
    modifies io0
    ensures (io == null || io == io0) && Current(io, e)
    ensures Pending(io) == if io0 == null then [] else old(Pending(io0))[1..]
    ensures ToRead(io) <= old(ToRead(io0)) && (io0 != null ==> ToRead(io) < old(ToRead(io0)))
    ensures io0 != null ==> e == if |old(Pending(io0))| > 1 then old(Pending(io0))[1] else e0
  {
    if io0 != null {
      io, e := ReadNext(io0, e0);
    } else {
      io, e := null, e0.(timemark := 0);
    }
  }

  /** The record for two entries that agree, and the entries after them. */
  method Emit(left0: Stream?, le0: Entry, right0: Stream?, re0: Entry)
      returns (rec: Entry, left: Stream?, le: Entry, right: Stream?, re: Entry)
    requires Current(left0, le0) && Current(right0, re0)
    requires left0 != null || right0 != null
    requires left0 != right0
    modifies left0, right0
    ensures rec == Entry(le0.timemark, le0.bps + re0.bps)
    ensures (left == null || left == left0) && (right == null || right == right0)
    ensures Current(left, le) && Current(right, re)
    ensures Pending(left) == if left0 == null then [] else old(Pending(left0))[1..]
    ensures Pending(right) == if right0 == null then [] else old(Pending(right0))[1..]
    ensures left0 != null ==> le == if |old(Pending(left0))| > 1 then old(Pending(left0))[1] else le0
    ensures right0 != null ==> re == if |old(Pending(right0))| > 1 then old(Pending(right0))[1] else re0
    ensures ToRead(left) + ToRead(right) < old(ToRead(left0) + ToRead(right0))
  {
    rec := Entry(le0.timemark, le0.bps + re0.bps);
    right, re := Advance(right0, re0);
    left, le := Advance(left0, le0);
  }

  /** The records written for two files that are not empty. It ends on any two; what it writes is the join when the
      time marks of each increase. */
  method Aggregate(left: seq<Entry>, right: seq<Entry>) returns (out: seq<Entry>)
    requires left != [] && right != []
    ensures Increasing(left) && Increasing(right) ==> out == Join(left, right)
  {
    hide Join, Increasing, Reduced, Aggregating;
    var r0 := new Stream(right);
    var l0 := new Stream(left);
    var first := r0.Fgets();
    var right_entry := first.value;
    first := l0.Fgets();
    var left_entry := first.value;
    var left_io: Stream? := l0;
    var right_io: Stream? := r0;
    out := [];
    assert Pending(l0) == left && Pending(r0) == right;
    Started(left, right, left_entry, right_entry);
    while left_io != null || right_io != null
      invariant (left_io == null || left_io == l0) && (right_io == null || right_io == r0) && l0 != r0
      invariant fresh(l0) && fresh(r0)
      invariant Current(left_io, left_entry) && Current(right_io, right_entry)
      invariant Aggregating(left, right, out, Pending(left_io), Pending(right_io), left_entry, right_entry)
      decreases ToRead(left_io) + ToRead(right_io)
    {
      ghost var p, q := Pending(left_io), Pending(right_io);
      ghost var le, re := left_entry, right_entry;
      if left_entry.timemark != right_entry.timemark {
        left_entry, left_io, right_entry, right_io := SyncNeeded(left_entry, left_io, right_entry, right_io);
        Synced(left, right, out, p, q, le, re, Pending(left_io), Pending(right_io), left_entry, right_entry);
        continue;
      }
      var rec;
      rec, left_io, left_entry, right_io, right_entry := Emit(left_io, left_entry, right_io, right_entry);
      Output(left, right, out, p, q, le, re, left_entry, right_entry);
      out := out + [rec];
    }
    Finished(left, right, out, left_entry, right_entry);
  }
}
