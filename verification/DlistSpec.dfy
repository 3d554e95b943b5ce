/** The list of APPS/baselib/dlist.c as a sequence with a cursor. */
module DlistSpec {
  import opened ScanSpec
  import opened SeqFacts

  /** Where the cursor stands: not started, on the entry that comes next, or past the end. */
  datatype Cursor = Start | At(i: nat) | End

  datatype Lst<E> = Lst(items: seq<E>, cur: Cursor)

  ghost predicate Ok<E>(l: Lst<E>) {
    l.cur.At? ==> l.cur.i < |l.items|
  }

  /** How many of the entries are behind the cursor. */
  function Given<E>(l: Lst<E>): nat {
    match l.cur
    case Start => 0
    case At(i) => i
    case End => |l.items|
  }

  /** The place that "this" refers to: the entry given out last, or the first. */
  function This<E>(l: Lst<E>): nat {
    if Given(l) == 0 then 0 else Given(l) - 1
  }

  /** What is still to be given out. */
  function Rest<E>(l: Lst<E>): seq<E>
    requires Ok(l)
  {
    l.items[Given(l)..]
  }

  function Put<E>(s: seq<E>, k: nat, x: E): seq<E>
    requires k <= |s|
  {
    s[..k] + [x] + s[k..]
  }

  /** The cursor on entry `i`, or past the end. */
  function Onto(i: nat, n: nat): Cursor {
    if i < n then At(i) else End
  }

  function Get<E>(l: Lst<E>): (Lst<E>, Option<E>)
    requires Ok(l)
  {
    if l.items == [] || l.cur.End? then (l, None)
    else (l.(cur := Onto(Given(l) + 1, |l.items|)), Some(l.items[Given(l)]))
  }

  /** The first entry taken off the list. */
  function GetNext<E>(l: Lst<E>): (Lst<E>, Option<E>)
    requires Ok(l)
  {
    if l.items == [] then (Lst([], Start), None)
    else
      var cur := if l.cur.At? then (if |l.items| == 1 then Start else At(This(l))) else l.cur;
      (Lst(l.items[1..], cur), Some(l.items[0]))
  }

  /** The entry given out last taken off the list. */
  function GetThis<E>(l: Lst<E>): (Lst<E>, Option<E>)
    requires Ok(l)
  {
    if l.items == [] then (l, None)
    else
      var cur := if l.cur.At? then (if |l.items| == 1 then Start else At(This(l))) else l.cur;
      (Lst(Without(l.items, This(l)), cur), Some(l.items[This(l)]))
  }

  function ReplaceThis<E>(l: Lst<E>, x: E): (Lst<E>, Option<E>)
    requires Ok(l)
  {
    if l.items == [] then (l, None)
    else (l.(items := l.items[This(l) := x]), Some(l.items[This(l)]))
  }

  function Reset<E>(l: Lst<E>): Lst<E> {
    l.(cur := if l.items == [] then Start else At(0))
  }

  /** The cursor stays on its entry when one is put in at `k`. */
  function Shifted(c: Cursor, k: nat): Cursor {
    if c.At? && k <= c.i then At(c.i + 1) else c
  }

  function Insert<E>(l: Lst<E>, x: E): Lst<E> {
    Lst([x] + l.items, Shifted(l.cur, 0))
  }

  function Append<E>(l: Lst<E>, x: E): Lst<E> {
    l.(items := l.items + [x])
  }

  /** Put in just before the entry given out last. */
  function InsertHere<E>(l: Lst<E>, x: E): Lst<E>
    requires Ok(l)
  {
    if l.items == [] then l.(items := [x]) else Lst(Put(l.items, This(l), x), Shifted(l.cur, This(l)))
  }

  /** Put in just after the entry given out last. */
  function AppendHere<E>(l: Lst<E>, x: E): Lst<E>
    requires Ok(l)
  {
    if l.items == [] then l.(items := [x]) else Lst(Put(l.items, This(l) + 1, x), Shifted(l.cur, This(l) + 1))
  }

  /** One entry back; from the end the code goes to the first entry, not to the last. */
  function BackUpOne<E>(l: Lst<E>): Lst<E> {
    if l.items == [] then l else l.(cur := At(if l.cur.At? then This(l) else 0))
  }

  function GetToTheEnd<E>(l: Lst<E>): Lst<E> {
    l.(cur := if l.items == [] then Start else At(|l.items| - 1))
  }

  lemma CutFirst<E>(s: seq<E>)
    requires s != []
    ensures Without(s, 0) == s[1..]
  {
  }

  /** Entry `k` taken off, wherever the cursor is; a cursor on it moves to the next entry or past the end. */
  function PullAt<E>(l: Lst<E>, k: nat): Lst<E>
    requires k < |l.items|
  {
    var cur := if l.cur.At? && l.cur.i == k then Onto(k, |l.items| - 1)
               else if l.cur.At? && l.cur.i > k then At(l.cur.i - 1) else l.cur;
    Lst(Without(l.items, k), cur)
  }

  /** With at most one entry behind the cursor, "this" is the first entry. */
  lemma ThisIsFirst<E>(l: Lst<E>)
    requires Ok(l) && l.items != [] && !l.cur.End? && Given(l) <= 1
    ensures GetThis(l) == GetNext(l)
  {
    assert Without(l.items, 0) == l.items[1..];
  }

  lemma PutFirst<E>(s: seq<E>, x: E)
    ensures Put(s, 0, x) == [x] + s
  {
  }

  lemma PutLast<E>(s: seq<E>, x: E)
    ensures Put(s, |s|, x) == s + [x]
  {
  }

  lemma PutOnly<T, E>(t: T, x: E)
    ensures Put([], 0, t) == [t] && Put([], 0, x) == [x]
  {
  }
}
