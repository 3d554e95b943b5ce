/** The doubly linked list of APPS/baselib/dlist.c. */
module Dlist {
  import opened ScanSpec
  import DlistSpec
  import opened SeqFacts

  class Dlink<E> {
    var prev: Dlink?<E>
    var next: Dlink?<E>
    var ent: E
    ghost const owner: object

    constructor (e: E, ghost o: object)
      ensures prev == null && next == null && ent == e && owner == o
    {
      prev, next, ent, owner := null, null, e, o;
    }
  }

  /** Each node points at its neighbours in the sequence, and no node occurs twice. */
  ghost predicate Linked<E>(ns: seq<Dlink<E>>)
    reads ns
  {
    && (forall i {:trigger ns[i].next} :: 0 <= i < |ns| ==> ns[i].next == if i + 1 < |ns| then ns[i + 1] else null)
    && (forall i {:trigger ns[i].prev} :: 0 <= i < |ns| ==> ns[i].prev == if i > 0 then ns[i - 1] else null)
    && (forall i, j :: 0 <= i < j < |ns| ==> ns[i] != ns[j])
  }

  /** The links after the node at `k` has been bridged over. */
  ghost predicate Bridged<E>(ns: seq<Dlink<E>>, k: nat)
    requires k < |ns|
    reads ns
  {
    && (forall i {:trigger ns[i].next} :: 0 <= i < |ns| && i != k ==>
          ns[i].next == if i + 1 == k then (if k + 1 < |ns| then ns[k + 1] else null)
                        else if i + 1 < |ns| then ns[i + 1] else null)
    && (forall i {:trigger ns[i].prev} :: 0 <= i < |ns| && i != k ==>
          ns[i].prev == if i == k + 1 then (if k > 0 then ns[k - 1] else null)
                        else if i > 0 then ns[i - 1] else null)
    && (forall i, j :: 0 <= i < j < |ns| ==> ns[i] != ns[j])
  }

  lemma BridgedLinks<E>(ns: seq<Dlink<E>>, k: nat)
    requires k < |ns| && Bridged(ns, k)
    ensures Linked(Without(ns, k))
  {
    var ms := Without(ns, k);
    forall i {:trigger ms[i].next} | 0 <= i < |ms|
      ensures ms[i].next == if i + 1 < |ms| then ms[i + 1] else null
    {
      var j := if i < k then i else i + 1;
      assert ms[i] == ns[j] && ns[j].next == ns[j].next;
    }
    forall i {:trigger ms[i].prev} | 0 <= i < |ms|
      ensures ms[i].prev == if i > 0 then ms[i - 1] else null
    {
      var j := if i < k then i else i + 1;
      assert ms[i] == ns[j] && ns[j].prev == ns[j].prev;
    }
  }

  /** The links after `t` has been hooked in before the node at `k`. */
  ghost predicate Hooked<E>(ns: seq<Dlink<E>>, k: nat, t: Dlink<E>)
    requires k <= |ns|
    reads ns, t
  {
    && t !in ns
    && t.next == (if k < |ns| then ns[k] else null)
    && t.prev == (if k > 0 then ns[k - 1] else null)
    && (forall i {:trigger ns[i].next} :: 0 <= i < |ns| ==>
          ns[i].next == if i + 1 == k then t else if i + 1 < |ns| then ns[i + 1] else null)
    && (forall i {:trigger ns[i].prev} :: 0 <= i < |ns| ==>
          ns[i].prev == if i == k then t else if i > 0 then ns[i - 1] else null)
    && (forall i, j :: 0 <= i < j < |ns| ==> ns[i] != ns[j])
  }

  lemma HookedLinks<E>(ns: seq<Dlink<E>>, k: nat, t: Dlink<E>)
    requires k <= |ns| && Hooked(ns, k, t)
    ensures Linked(DlistSpec.Put(ns, k, t))
  {
    var ms := DlistSpec.Put(ns, k, t);
    forall i {:trigger ms[i].next} | 0 <= i < |ms|
      ensures ms[i].next == if i + 1 < |ms| then ms[i + 1] else null
    {
      if i != k {
        var j := if i < k then i else i - 1;
        assert ms[i] == ns[j] && ns[j].next == ns[j].next;
      }
    }
    forall i {:trigger ms[i].prev} | 0 <= i < |ms|
      ensures ms[i].prev == if i > 0 then ms[i - 1] else null
    {
      if i != k {
        var j := if i < k then i else i - 1;
        assert ms[i] == ns[j] && ns[j].prev == ns[j].prev;
      }
    }
    forall i, j | 0 <= i < j < |ms|
      ensures ms[i] != ms[j]
    {
      if i != k && j != k {
        assert ms[i] == ns[if i < k then i else i - 1] && ms[j] == ns[if j < k then j else j - 1];
      } else if i == k {
        assert ms[j] == ns[j - 1];
      } else {
        assert ms[i] == ns[i];
      }
    }
  }

  /** The nodes hold these entries. */
  ghost predicate Holding<E>(ns: seq<Dlink<E>>, items: seq<E>)
    requires |ns| == |items|
    reads ns
  {
    forall i {:trigger ns[i].ent} :: 0 <= i < |ns| ==> ns[i].ent == items[i]
  }

  lemma HoldingCut<E>(ns: seq<Dlink<E>>, items: seq<E>, k: nat)
    requires k < |ns| == |items| && Holding(ns, items)
    ensures Holding(Without(ns, k), Without(items, k))
  {
    var ms := Without(ns, k);
    forall i {:trigger ms[i].ent} | 0 <= i < |ms|
      ensures ms[i].ent == Without(items, k)[i]
    {
      var j := if i < k then i else i + 1;
      assert ms[i] == ns[j] && ns[j].ent == ns[j].ent;
    }
  }

  lemma HoldingPut<E>(ns: seq<Dlink<E>>, items: seq<E>, k: nat, t: Dlink<E>)
    requires k <= |ns| == |items| && Holding(ns, items)
    ensures Holding(DlistSpec.Put(ns, k, t), DlistSpec.Put(items, k, t.ent))
  {
    var ms := DlistSpec.Put(ns, k, t);
    forall i {:trigger ms[i].ent} | 0 <= i < |ms|
      ensures ms[i].ent == DlistSpec.Put(items, k, t.ent)[i]
    {
      if i != k {
        var j := if i < k then i else i - 1;
        assert ms[i] == ns[j] && ns[j].ent == ns[j].ent;
      }
    }
  }

  /** The nodes belong to one list. */
  ghost predicate Owned<E>(ns: seq<Dlink<E>>, o: object) {
    forall n {:trigger n.owner} :: n in ns ==> n.owner == o
  }

  class DlistT<E> {
    var head: Dlink?<E>
    var tail: Dlink?<E>
    var curr: Dlink?<E>
    var wrapFlag: bool
    var cntIn: int
    ghost var nodes: seq<Dlink<E>>
    ghost var items: seq<E>
    ghost var pos: nat

    ghost predicate Valid()
      reads this, nodes
    {
      && Linked(nodes) && Owned(nodes, this)
      && head == (if nodes == [] then null else nodes[0])
      && tail == (if nodes == [] then null else nodes[|nodes| - 1])
      && cntIn == |nodes| == |items|
      && Holding(nodes, items)
      && (wrapFlag ==> curr == null)
      && (curr != null ==> pos < |nodes| && nodes[pos] == curr)
    }

    ghost function View(): DlistSpec.Lst<E>
      reads this
    {
      DlistSpec.Lst(items, if curr != null then DlistSpec.At(pos) else if wrapFlag then DlistSpec.End else DlistSpec.Start)
    }

    constructor ()
      ensures Valid() && View() == DlistSpec.Lst([], DlistSpec.Start) && nodes == []
    {
      head, tail, curr := null, null, null;
      wrapFlag, cntIn := false, 0;
      nodes, items, pos := [], [], 0;
    }

    method Get() returns (e: Option<E>)
      requires Valid()
      modifies this
      ensures Valid() && nodes == old(nodes)
      ensures (View(), e) == DlistSpec.Get(old(View()))
    {
      if cntIn == 0 && head != null {
        assert false;
      }
      if head == null {
        return None;
      }
      if curr == null && wrapFlag {
        return None;
      }
      if curr == null {
        curr, pos := head, 0;
      }
      e := Some(curr.ent);
      curr, pos := curr.next, pos + 1;
      if curr == null {
        wrapFlag := true;
      }
    }

    /** The head moved on, and the cursor with it if it stood there. */
    method Behead()
      requires Valid() && head != null
      modifies `head, `tail, `curr, `pos, nodes
      ensures Bridged(nodes, 0) && Holding(nodes, items)
      ensures |nodes| > 1 ==> head == nodes[1] && tail == old(tail)
      ensures |nodes| == 1 ==> head == null && tail == null && curr == null
      ensures |nodes| > 1 && old(curr) == null ==> curr == null
      ensures |nodes| > 1 && old(curr) != null ==>
                var p := if old(pos) == 0 then 1 else old(pos);
                curr == nodes[p] && pos == p - 1
    {
      var tmp := head;
      assert tmp.next == nodes[0].next;
      head := tmp.next;
      if head != null {
        head.prev := null;
        if curr == tmp {
          curr := head;
          pos := 0;
        } else {
          pos := if pos == 0 then 0 else pos - 1;
        }
      } else {
        tail := null;
        curr := null;
      }
    }

    method GetNext() returns (e: Option<E>)
      requires Valid()
      modifies this, nodes
      ensures Valid() && (forall n :: n in nodes ==> n in old(nodes))
      ensures (View(), e) == DlistSpec.GetNext(old(View()))
      ensures nodes == if old(nodes) == [] then [] else Without(old(nodes), 0)
    {
      if head == null {
        wrapFlag := false;
        return None;
      }
      hide Linked, Bridged, Holding;
      var tmp := head;
      Behead();
      BridgedLinks(nodes, 0);
      HoldingCut(nodes, items, 0);
      assert Without(items, 0) == items[1..];
      nodes, items := Without(nodes, 0), items[1..];
      cntIn := cntIn - 1;
      if cntIn <= 0 && head != null {
        assert false;
      }
      if cntIn == 1 && head != tail {
        assert false;
      }
      e := Some(tmp.ent);
    }

    /** The node `getOut` bridged over. */
    method Bridge(getOut: Dlink<E>, ghost k: nat)
      requires Valid() && k < |nodes| && nodes[k] == getOut
      modifies `head, `tail, nodes
      ensures Bridged(nodes, k) && Holding(nodes, items)
      ensures |nodes| > 1 ==> head == nodes[if k == 0 then 1 else 0]
      ensures |nodes| > 1 ==> tail == nodes[if k == |nodes| - 1 then k - 1 else |nodes| - 1]
      ensures |nodes| == 1 ==> head == null && tail == null
    {
      assert getOut.next == nodes[k].next && getOut.prev == nodes[k].prev;
      if getOut == tail {
        tail := getOut.prev;
      }
      if getOut.prev != null {
        getOut.prev.next := getOut.next;
      }
      if getOut.next != null {
        getOut.next.prev := getOut.prev;
      }
      if getOut == head {
        head := getOut.next;
      }
    }

    method TakeOut(getOut: Dlink<E>, ghost k: nat)
      requires Valid() && k < |nodes| && nodes[k] == getOut && curr != getOut
      modifies this, nodes
      ensures Valid()
      ensures nodes == Without(old(nodes), k) && items == Without(old(items), k)
      ensures curr == old(curr) && wrapFlag == old(wrapFlag)
      ensures curr != null ==> pos == if old(pos) > k then old(pos) - 1 else old(pos)
    {
      hide Linked, Bridged, Holding;
      Bridge(getOut, k);
      cntIn := cntIn - 1;
      BridgedLinks(nodes, k);
      HoldingCut(nodes, items, k);
      nodes, items := Without(nodes, k), Without(items, k);
      pos := if pos > k then pos - 1 else pos;
      if cntIn <= 0 && head != null {
        assert false;
      }
      if cntIn == 1 && head != tail {
        assert false;
      }
    }

    /** The entry given out last, or the first, taken off the list. */
    method GetThis() returns (e: Option<E>)
      requires Valid()
      modifies this, nodes
      ensures Valid() && (forall n :: n in nodes ==> n in old(nodes))
      ensures (View(), e) == DlistSpec.GetThis(old(View()))
      ensures nodes == if old(nodes) == [] then [] else Without(old(nodes), DlistSpec.This(old(View())))
    {
      if head == null {
        return None;
      }
      var getOut: Dlink<E>;
      if curr == null && wrapFlag {
        getOut := tail;
      } else if curr == null && !wrapFlag {
        DlistSpec.ThisIsFirst(View());
        e := GetNext();
        return;
      } else {
        assert curr.prev == nodes[pos].prev;
        if curr.prev == head {
          DlistSpec.ThisIsFirst(View());
          e := GetNext();
          return;
        } else if curr.prev != null {
          getOut := curr.prev;
        } else {
          DlistSpec.ThisIsFirst(View());
          e := GetNext();
          return;
        }
      }
      assert getOut == nodes[DlistSpec.This(View())];
      e := Some(getOut.ent);
      TakeOut(getOut, DlistSpec.This(View()));
    }

    /** The entry that "this" refers to, replaced in place. */
    method ReplaceThis(entry: E) returns (en: Option<E>)
      requires Valid()
      modifies this, nodes
      ensures Valid() && nodes == old(nodes)
      ensures (View(), en) == DlistSpec.ReplaceThis(old(View()), entry)
    {
      if head == null {
        return None;
      }
      ghost var k := DlistSpec.This(View());
      if wrapFlag {
        en := Some(tail.ent);
        tail.ent := entry;
      } else if curr == null {
        en := Some(head.ent);
        head.ent := entry;
      } else {
        assert curr.prev == nodes[pos].prev;
        if curr.prev == null {
          en := Some(head.ent);
          head.ent := entry;
        } else {
          en := Some(curr.prev.ent);
          curr.prev.ent := entry;
        }
      }
      items := items[k := entry];
    }

    method Reset()
      requires Valid()
      modifies `curr, `wrapFlag, `pos
      ensures Valid() && View() == DlistSpec.Reset(old(View()))
    {
      curr := head;
      pos := 0;
      wrapFlag := false;
    }

    method GetToTheEnd()
      requires Valid()
      modifies `curr, `wrapFlag, `pos
      ensures Valid() && View() == DlistSpec.GetToTheEnd(old(View()))
    {
      wrapFlag := false;
      curr := tail;
      pos := if nodes == [] then 0 else |nodes| - 1;
    }

    method BackUpOne() returns (ok: bool)
      requires Valid()
      modifies `curr, `wrapFlag, `pos
      ensures Valid() && View() == DlistSpec.BackUpOne(old(View()))
      ensures ok == (nodes != [])
    {
      if head == null {
        return false;
      }
      if curr != null {
        assert curr.prev == nodes[pos].prev;
        curr := curr.prev;
        pos := if pos == 0 then 0 else pos - 1;
      }
      if curr == null {
        curr := head;
        pos := 0;
      }
      wrapFlag := false;
      ok := true;
    }

    method LookLastOne() returns (e: Option<E>)
      requires Valid()
      ensures e == if items == [] then None else Some(items[|items| - 1])
    {
      if tail != null {
        e := Some(tail.ent);
      } else {
        e := None;
      }
    }

    // ----- putting in -----

    /** The node `tmp`, already hooked in before place `k`, counted in. */
    method Enter(tmp: Dlink<E>, ghost k: nat)
      requires |nodes| == |items| == cntIn && k <= |nodes|
      requires Hooked(nodes, k, tmp) && Holding(nodes, items)
      requires Owned(nodes, this) && tmp.owner == this
      requires head == if k == 0 then tmp else nodes[0]
      requires tail == if k == |nodes| then tmp else nodes[|nodes| - 1]
      requires wrapFlag ==> curr == null
      requires curr != null ==> pos < |nodes| && nodes[pos] == curr
      modifies `cntIn, `nodes, `items, `pos
      ensures Valid() && nodes == DlistSpec.Put(old(nodes), k, tmp)
      ensures View() == DlistSpec.Lst(DlistSpec.Put(old(items), k, tmp.ent), DlistSpec.Shifted(old(View()).cur, k))
    {
      hide Linked, Hooked, Holding;
      HookedLinks(nodes, k, tmp);
      HoldingPut(nodes, items, k, tmp);
      nodes, items := DlistSpec.Put(nodes, k, tmp), DlistSpec.Put(items, k, tmp.ent);
      pos := if k <= pos then pos + 1 else pos;
      cntIn := cntIn + 1;
    }

    method Insert(entry: E) returns (temp: Dlink<E>)
      requires Valid()
      modifies this, nodes
      ensures Valid() && fresh(set n | n in nodes && n !in old(nodes))
      ensures View() == DlistSpec.Insert(old(View()), entry)
      ensures fresh(temp) && nodes == DlistSpec.Put(old(nodes), 0, temp)
    {
      temp := new Dlink(entry, this);
      if head != null {
        assert head.prev == nodes[0].prev;
        temp.prev := head.prev;
        temp.next := head;
        head.prev := temp;
        head := temp;
      } else {
        tail, head := temp, temp;
      }
      DlistSpec.PutFirst(items, entry);
      Enter(temp, 0);
    }

    method Append(entry: E) returns (temp: Dlink<E>)
      requires Valid()
      modifies this, nodes
      ensures Valid() && fresh(set n | n in nodes && n !in old(nodes))
      ensures View() == DlistSpec.Append(old(View()), entry)
      ensures fresh(temp) && nodes == DlistSpec.Put(old(nodes), |old(nodes)|, temp)
    {
      temp := new Dlink(entry, this);
      DlistSpec.PutLast(items, entry);
      if tail != null {
        assert tail.next == nodes[|nodes| - 1].next;
        temp.prev := tail;
        temp.next := tail.next;
        tail.next := temp;
        tail := temp;
      } else {
        if head != null {
          assert false;
        }
        tail, head := temp, temp;
      }
      Enter(temp, |nodes|);
    }

    /** The node `tmp` hooked in before `x`, which has a predecessor. */
    method HookBefore(tmp: Dlink<E>, x: Dlink<E>, ghost k: nat)
      requires Valid() && tmp !in nodes && 0 < k < |nodes| && nodes[k] == x
      modifies tmp`prev, tmp`next, nodes
      ensures Hooked(nodes, k, tmp) && Holding(nodes, items)
    {
      assert x.prev == nodes[k].prev;
      assert x.prev.next == nodes[k - 1].next;
      tmp.prev := x.prev;
      tmp.next := x;
      if tmp.prev != null {
        tmp.prev.next := tmp;
      }
      if tmp.next != null {
        tmp.next.prev := tmp;
      }
    }

    /** A new node put in before `x`, which has a predecessor. */
    method PutBefore(x: Dlink<E>, entry: E, ghost k: nat) returns (tmp: Dlink<E>)
      requires Valid() && 0 < k < |nodes| && nodes[k] == x
      modifies this, nodes
      ensures Valid() && fresh(set n | n in nodes && n !in old(nodes))
      ensures View() == DlistSpec.Lst(DlistSpec.Put(old(items), k, entry), DlistSpec.Shifted(old(View()).cur, k))
      ensures fresh(tmp) && nodes == DlistSpec.Put(old(nodes), k, tmp)
    {
      hide Linked, Hooked, Holding;
      tmp := new Dlink(entry, this);
      HookBefore(tmp, x, k);
      Enter(tmp, k);
    }

    /** The first node of an empty list; the cursor is left as it is. */
    method PutAlone(entry: E) returns (tmp: Dlink<E>)
      requires Valid() && head == null
      modifies this
      ensures Valid() && fresh(nodes)
      ensures View() == DlistSpec.Lst([entry], old(View()).cur)
      ensures fresh(tmp) && nodes == [tmp]
    {
      tmp := new Dlink(entry, this);
      head, tail := tmp, tmp;
      Alone(nodes, items, tmp);
      Enter(tmp, 0);
    }

    method InsertHere(entry: E) returns (tmp: Dlink<E>)
      requires Valid()
      modifies this, nodes
      ensures Valid() && fresh(set n | n in nodes && n !in old(nodes))
      ensures View() == DlistSpec.InsertHere(old(View()), entry)
      ensures fresh(tmp)
      ensures nodes == if old(nodes) == [] then [tmp] else DlistSpec.Put(old(nodes), DlistSpec.This(old(View())), tmp)
    {
      hide Linked, Hooked, Holding;
      DlistSpec.PutFirst(items, entry);
      if head == null {
        tmp := PutAlone(entry);
        return;
      }
      if tail == null {
        assert false;
      }
      Neighbours(pos);
      Neighbours(|nodes| - 1);
      if wrapFlag {
        if tail.prev != null {
          tmp := PutBefore(tail, entry, |nodes| - 1);
        } else {
          tmp := Insert(entry);
        }
      } else if curr == null {
        tmp := Insert(entry);
      } else {
        if curr == head {
          tmp := Insert(entry);
          return;
        }
        if curr.prev == head {
          tmp := Insert(entry);
          return;
        }
        if curr.prev != null {
          tmp := PutBefore(curr.prev, entry, pos - 1);
        } else {
          assert false;
        }
      }
    }

    /** What the links of the node at `p` say. */
    lemma Neighbours(p: nat)
      requires Valid()
      ensures p < |nodes| ==> nodes[p].prev == if p > 0 then nodes[p - 1] else null
      ensures p < |nodes| ==> nodes[p].next == if p + 1 < |nodes| then nodes[p + 1] else null
      ensures 0 < p < |nodes| ==> nodes[p] != nodes[0]
      ensures 1 < p < |nodes| ==> nodes[p - 1] != nodes[0]
    {
      if p < |nodes| {
        assert nodes[p].prev == nodes[p].prev && nodes[p].next == nodes[p].next;
      }
    }

    /** The cursor stands on the first entry: the list was just reset, backed up to its start, or lost the
        entries before the cursor. */
    predicate OnFirst()
      reads this, curr
    {
      curr != null && curr.prev == null
    }

    /** A list in order begins with a node that has no predecessor. */
    lemma HeadHasNoPrev()
      requires Valid() && head != null
      ensures head.prev == null
    {
      Neighbours(0);
    }

    /** The node `tmp` hooked in after the head. */
    method HookAfterHead(tmp: Dlink<E>)
      requires Valid() && head != null && tmp !in nodes
      modifies tmp`prev, tmp`next, nodes, `tail
      ensures Hooked(nodes, 1, tmp) && Holding(nodes, items)
      ensures tail == if |nodes| == 1 then tmp else old(tail)
    {
      assert head.next == nodes[0].next;
      tmp.prev := head;
      tmp.next := head.next;
      head.next := tmp;
      if tmp.next != null {
        tmp.next.prev := tmp;
      } else {
        tail := tmp;
      }
    }

    /** Put in after the entry given out last, with the cursor not on the first entry. */
    method AppendBehind(entry: E) returns (tmp: Dlink<E>)
      requires Valid() && !OnFirst()
      modifies this, nodes
      ensures Valid() && head != null && fresh(tmp) && fresh(set n | n in nodes && n !in old(nodes))
      ensures View() == DlistSpec.AppendHere(old(View()), entry)
      ensures nodes == if old(nodes) == [] then [tmp] else DlistSpec.Put(old(nodes), DlistSpec.This(old(View())) + 1, tmp)
    {
      hide Linked, Hooked, Holding, Owned;
      if head == null {
        tmp := Append(entry);
        return;
      }
      if wrapFlag {
        tmp := Append(entry);
        return;
      }
      if curr == null {
        tmp := new Dlink(entry, this);
        NewNode(tmp);
        HookAfterHead(tmp);
        Enter(tmp, 1);
        return;
      }
      Neighbours(pos);
      tmp := PutBefore(curr, entry, pos);
    }

    lemma NewNode(tmp: Dlink<E>)
      requires Valid() && tmp !in nodes && tmp.owner == this
      ensures Owned(nodes, this) && Linked(nodes) && Holding(nodes, items)
    {
    }

    /** The code's last branch with the cursor on the first entry. */
    method PutBeforeFirst(entry: E) returns (tmp: Dlink<E>)
      requires Valid() && curr != null && curr.prev == null
      modifies `cntIn, curr`prev
      ensures !Valid() && head == old(head) && head != null && head.prev != null && cntIn == old(cntIn) + 1
    {
      Neighbours(pos);
      tmp := new Dlink(entry, this);
      tmp.prev := curr.prev;
      tmp.next := curr;
      cntIn := cntIn + 1;
      if tmp.prev != null {
        assert false;
      }
      if tmp.next != null {
        tmp.next.prev := tmp;
      } else {
        assert false;
      }
      Overcounted();
    }

    /** Put in after the entry given out last. With the cursor on the first entry the code breaks the list: it
        puts a node before the head without making it the head, so that the head has a predecessor, the count
        is one too high, and no walk along the forward links meets the new entry. */
    method AppendHere(entry: E) returns (tmp: Dlink<E>)
      requires Valid()
      modifies this, nodes
      ensures head != null && (old(OnFirst()) <==> head.prev != null)
      ensures old(OnFirst()) <==> !Valid()
      ensures old(OnFirst()) ==> head == old(head) && cntIn == old(cntIn) + 1
      ensures old(OnFirst()) ==> forall n :: n in old(nodes) ==> n.next == old(n.next)
      ensures !old(OnFirst()) ==> fresh(set n | n in nodes && n !in old(nodes))
      ensures !old(OnFirst()) ==> View() == DlistSpec.AppendHere(old(View()), entry)
      ensures !old(OnFirst()) ==> fresh(tmp)
      ensures !old(OnFirst()) ==>
                nodes == if old(nodes) == [] then [tmp] else DlistSpec.Put(old(nodes), DlistSpec.This(old(View())) + 1, tmp)
    {
      hide Linked, Hooked, Holding, Owned;
      if curr != null && curr.prev == null {
        CurrIsANode();
        tmp := PutBeforeFirst(entry);
      } else {
        tmp := AppendBehind(entry);
        HeadHasNoPrev();
      }
    }

    lemma CurrIsANode()
      requires Valid() && curr != null
      ensures curr in nodes
    {
    }

    lemma Overcounted()
      requires cntIn != |nodes|
      ensures !Valid()
    {
    }
  }

  lemma Alone<E>(ns: seq<Dlink<E>>, items: seq<E>, t: Dlink<E>)
    requires ns == [] && items == [] && t.prev == null && t.next == null
    ensures Hooked(ns, 0, t) && Holding(ns, items)
  {
  }
}
