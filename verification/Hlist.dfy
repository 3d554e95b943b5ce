/** The list with a hash index of APPS/baselib/hlist.c. Its list half is the list of Dlist; the index is the finite
    map that the hash table of HashedTable implements. */
module Hlist {
  import opened ScanSpec
  import DlistSpec
  import opened Dlist
  import opened SeqFacts

  /** The index leads from each entry to its own node, and from nothing else. */
  ghost predicate Indexed<E(!new)>(ns: seq<Dlink<E>>, items: seq<E>, hash: map<E, Dlink<E>>) {
    && |ns| == |items|
    && (forall i {:trigger items[i]} :: 0 <= i < |items| ==> items[i] in hash && hash[items[i]] == ns[i])
    && (forall e :: e in hash ==> e in items)
  }

  ghost predicate Apart<E>(ns: seq<Dlink<E>>) {
    forall i, j :: 0 <= i < j < |ns| ==> ns[i] != ns[j]
  }

  /** No entry is on the list twice. */
  lemma IndexedDistinct<E(!new)>(ns: seq<Dlink<E>>, items: seq<E>, hash: map<E, Dlink<E>>)
    requires Indexed(ns, items, hash) && Apart(ns)
    ensures Distinct(items)
  {
    forall i, j | 0 <= i < j < |items|
      ensures items[i] != items[j]
    {
      assert ns[i] != ns[j];
    }
  }

  /** The index has as many entries as the list. */
  lemma {:induction false} IndexedSize<E(!new)>(ns: seq<Dlink<E>>, items: seq<E>, hash: map<E, Dlink<E>>)
    requires Indexed(ns, items, hash) && Apart(ns)
    ensures |hash| == |items|
    decreases |items|
  {
    if items == [] {
      assert hash == map[];
    } else {
      var n := |items| - 1;
      IndexedDistinct(ns, items, hash);
      IndexedCut(ns, items, hash, n);
      assert Without(items, n) == items[..n];
      IndexedSize(Without(ns, n), Without(items, n), hash - {items[n]});
      assert hash.Keys == (hash - {items[n]}).Keys + {items[n]};
      assert |hash.Keys| == |hash|;
    }
  }

  lemma IndexedCut<E(!new)>(ns: seq<Dlink<E>>, items: seq<E>, hash: map<E, Dlink<E>>, k: nat)
    requires Indexed(ns, items, hash) && Apart(ns) && k < |items|
    ensures Indexed(Without(ns, k), Without(items, k), hash - {items[k]})
    ensures Apart(Without(ns, k))
  {
    IndexedDistinct(ns, items, hash);
    var less := Without(items, k);
    var rest := hash - {items[k]};
    forall i {:trigger less[i]} | 0 <= i < |less|
      ensures less[i] in rest && rest[less[i]] == Without(ns, k)[i]
    {
      var j := if i < k then i else i + 1;
      assert less[i] == items[j] && items[j] != items[k];
    }
    forall e | e in rest
      ensures e in less
    {
      var j :| 0 <= j < |items| && items[j] == e;
      assert less[if j < k then j else j - 1] == e;
    }
  }

  lemma IndexedPut<E(!new)>(ns: seq<Dlink<E>>, items: seq<E>, hash: map<E, Dlink<E>>, k: nat, t: Dlink<E>, e: E)
    requires Indexed(ns, items, hash) && k <= |items| && e !in items
    ensures Indexed(DlistSpec.Put(ns, k, t), DlistSpec.Put(items, k, e), hash[e := t])
  {
    var more := DlistSpec.Put(items, k, e);
    forall i {:trigger more[i]} | 0 <= i < |more|
      ensures more[i] in hash[e := t] && hash[e := t][more[i]] == DlistSpec.Put(ns, k, t)[i]
    {
      if i != k {
        var j := if i < k then i else i - 1;
        assert more[i] == items[j];
      }
    }
    forall x | x in hash[e := t]
      ensures x in more
    {
      if x != e {
        var j :| 0 <= j < |items| && items[j] == x;
        assert more[if j < k then j else j + 1] == x;
      } else {
        assert more[k] == e;
      }
    }
  }

  lemma IndexedSet<E(!new)>(ns: seq<Dlink<E>>, items: seq<E>, hash: map<E, Dlink<E>>, k: nat, e: E)
    requires Indexed(ns, items, hash) && Apart(ns) && k < |items| && e !in items
    ensures Indexed(ns, items[k := e], (hash - {items[k]})[e := ns[k]])
  {
    IndexedDistinct(ns, items, hash);
    var now := items[k := e];
    var m := (hash - {items[k]})[e := ns[k]];
    forall i {:trigger now[i]} | 0 <= i < |now|
      ensures now[i] in m && m[now[i]] == ns[i]
    {
      if i != k {
        assert now[i] == items[i] && items[i] != items[k];
      }
    }
    forall x | x in m
      ensures x in now
    {
      if x != e {
        var j :| 0 <= j < |items| && items[j] == x;
        assert now[j] == x;
      } else {
        assert now[k] == e;
      }
    }
  }

  // ----- runs -----

  datatype Call<E> =
    | Get | Reset | GetNext | GetThis | PullThis(e: E) | MoveToThis(e: E)
    | ReplaceThis(e: E) | Insert(e: E) | Append(e: E) | InsertHere(e: E) | AppendHere(e: E)

  /** The calls that the list can take: those that check for the entry themselves, and the others with an entry that is
      not there. */
  predicate Careful<E(==)>(l: DlistSpec.Lst<E>, c: Call<E>)
    requires DlistSpec.Ok(l)
  {
    match c
    case Insert(e) => e !in l.items
    case ReplaceThis(e) => e !in l.items || l.items[DlistSpec.This(l)] == e
    case AppendHere(e) => e in l.items || l.cur != DlistSpec.At(0)
    case _ => true
  }

  function After<E(==)>(l: DlistSpec.Lst<E>, c: Call<E>): (r: DlistSpec.Lst<E>)
    requires DlistSpec.Ok(l) && Careful(l, c)
    ensures DlistSpec.Ok(r)
  {
    match c
    case Get => DlistSpec.Get(l).0
    case Reset => DlistSpec.Reset(l)
    case GetNext => DlistSpec.GetNext(l).0
    case GetThis => DlistSpec.GetThis(l).0
    case PullThis(e) => if e in l.items then DlistSpec.PullAt(l, IndexOf(l.items, e)) else l
    case MoveToThis(e) => if e in l.items then l.(cur := DlistSpec.At(IndexOf(l.items, e))) else l
    case ReplaceThis(e) => DlistSpec.ReplaceThis(l, e).0
    case Insert(e) => DlistSpec.Insert(l, e)
    case Append(e) => if e in l.items then l else DlistSpec.Append(l, e)
    case InsertHere(e) => if e in l.items then l else DlistSpec.InsertHere(l, e)
    case AppendHere(e) => if e in l.items then l else DlistSpec.AppendHere(l, e)
  }

  predicate AllCareful<E(==)>(l: DlistSpec.Lst<E>, cs: seq<Call<E>>)
    requires DlistSpec.Ok(l)
    decreases |cs|
  {
    cs == [] || (Careful(l, cs[0]) && AllCareful(After(l, cs[0]), cs[1..]))
  }

  function AfterAll<E(==)>(l: DlistSpec.Lst<E>, cs: seq<Call<E>>): (r: DlistSpec.Lst<E>)
    requires DlistSpec.Ok(l) && AllCareful(l, cs)
    decreases |cs|
  {
    if cs == [] then l else AfterAll(After(l, cs[0]), cs[1..])
  }

  class HlistT<E(==,!new)> {
    const list: DlistT<E>
    var entries: map<E, Dlink<E>>

    ghost predicate Valid()
      reads this, list, list.nodes
    {
      list.Valid() && Indexed(list.nodes, list.items, entries)
    }

    ghost function View(): DlistSpec.Lst<E>
      reads list
    {
      list.View()
    }

    constructor ()
      ensures Valid() && View() == DlistSpec.Lst([], DlistSpec.Start) && fresh(list) && list.nodes == []
    {
      list := new DlistT<E>();
      entries := map[];
    }

    lemma NodesApart()
      requires Valid()
      ensures Apart(list.nodes)
    {
    }

    /** What the audit counts: the list, the index and the counter agree, and no entry occurs twice. */
    lemma Agree()
      requires Valid()
      ensures list.cntIn == |list.items| == |entries| && Distinct(list.items)
      ensures forall e :: e in entries <==> e in list.items
    {
      NodesApart();
      IndexedDistinct(list.nodes, list.items, entries);
      IndexedSize(list.nodes, list.items, entries);
      hide Linked, Holding, Owned;
    }

    method IsItInTheList(item: E) returns (yes: bool)
      requires Valid()
      ensures yes <==> item in list.items
    {
      yes := item in entries;
      if yes {
        assert item in list.items;
      } else {
        assert forall i {:trigger list.items[i]} :: 0 <= i < |list.items| ==> list.items[i] in entries;
      }
    }

    method GetNext() returns (e: Option<E>)
      requires Valid()
      modifies this, list, list.nodes
      ensures Valid() && (View(), e) == DlistSpec.GetNext(old(View()))
      ensures forall n :: n in list.nodes ==> n in old(list.nodes)
    {
      hide Linked, Holding, Owned, Indexed;
      NodesApart();
      if list.head != null {
        IndexedCut(list.nodes, list.items, entries, 0);
        DlistSpec.CutFirst(list.items);
      }
      e := list.GetNext();
      match e
      case None =>
      case Some(v) => entries := entries - {v};
    }

    method GetThis() returns (e: Option<E>)
      requires Valid()
      modifies this, list, list.nodes
      ensures Valid() && (View(), e) == DlistSpec.GetThis(old(View()))
      ensures forall n :: n in list.nodes ==> n in old(list.nodes)
    {
      hide Linked, Holding, Owned, Indexed;
      NodesApart();
      if list.head != null {
        IndexedCut(list.nodes, list.items, entries, DlistSpec.This(View()));
      }
      e := list.GetThis();
      match e
      case None =>
      case Some(v) => entries := entries - {v};
    }

    method Get() returns (e: Option<E>)
      requires Valid()
      modifies list
      ensures Valid() && (View(), e) == DlistSpec.Get(old(View())) && entries == old(entries)
      ensures list.nodes == old(list.nodes)
    {
      hide Linked, Holding, Owned, Indexed;
      e := list.Get();
    }

    method Reset()
      requires Valid()
      modifies list
      ensures Valid() && View() == DlistSpec.Reset(old(View())) && entries == old(entries)
      ensures list.nodes == old(list.nodes)
    {
      hide Linked, Holding, Owned, Indexed;
      list.Reset();
    }

    /** The entry found through the index, taken off wherever the cursor is. */
    method PullThis(item: E) returns (ok: bool)
      requires Valid()
      modifies this, list, list.nodes
      ensures Valid() && ok == (item in old(list.items))
      ensures View() == if ok then DlistSpec.PullAt(old(View()), IndexOf(old(list.items), item)) else old(View())
      ensures forall n :: n in list.nodes ==> n in old(list.nodes)
    {
      hide Linked, Holding, Owned;
      NodesApart();
      if item !in entries {
        assert forall i {:trigger list.items[i]} :: 0 <= i < |list.items| ==> list.items[i] in entries;
        return false;
      }
      ok := true;
      var getOut := entries[item];
      assert item in list.items;
      ghost var k := IndexOf(list.items, item);
      assert list.items[k] == item && list.nodes[k] == getOut;
      IndexedCut(list.nodes, list.items, entries, k);
      hide Indexed;
      Unhook(getOut, k);
      entries := entries - {item};
    }

    /** A node taken off the list, wherever the cursor is. */
    method Unhook(getOut: Dlink<E>, ghost k: nat)
      requires list.Valid() && k < |list.nodes| && list.nodes[k] == getOut
      modifies list, list.nodes
      ensures list.Valid() && list.nodes == Without(old(list.nodes), k)
      ensures View() == DlistSpec.PullAt(old(View()), k)
    {
      hide Linked, Holding, Owned, Without;
      StepOver(getOut, k);
      list.TakeOut(getOut, k);
    }

    /** The cursor moved off the node `getOut`, if it stands there. */
    method StepOver(getOut: Dlink<E>, ghost k: nat)
      requires list.Valid() && k < |list.nodes| && list.nodes[k] == getOut
      modifies list`curr, list`pos, list`wrapFlag
      ensures list.Valid() && list.curr != getOut
      ensures View() == old(View()).(cur := if old(View()).cur == DlistSpec.At(k) then DlistSpec.Onto(k + 1, |list.items|)
                                            else old(View()).cur)
    {
      list.Neighbours(k);
      NodesDiffer(k);
      if list.curr == getOut {
        list.curr := getOut.next;
        list.pos := k + 1;
        if list.curr == null {
          list.wrapFlag := true;
        }
      }
    }

    lemma NodesDiffer(k: nat)
      requires list.Valid() && k < |list.nodes|
      ensures list.curr == list.nodes[k] <==> list.View().cur == DlistSpec.At(k)
      ensures k + 1 < |list.nodes| ==> list.nodes[k + 1] != list.nodes[k]
    {
      hide Holding, Owned;
    }

    /** The cursor moved to an entry found through the index. */
    method MoveToThis(item: E) returns (ok: bool)
      requires Valid()
      modifies list`curr, list`pos, list`wrapFlag
      ensures Valid() && ok == (item in list.items)
      ensures View() == if ok then old(View()).(cur := DlistSpec.At(IndexOf(list.items, item))) else old(View())
    {
      hide Linked, Holding, Owned;
      if item !in entries {
        assert forall i {:trigger list.items[i]} :: 0 <= i < |list.items| ==> list.items[i] in entries;
        return false;
      }
      assert item in list.items;
      ghost var k := IndexOf(list.items, item);
      assert list.items[k] == item && list.nodes[k] == entries[item];
      list.curr := entries[item];
      list.pos := k;
      list.wrapFlag := false;
      ok := true;
    }

    /** The entry that "this" refers to, replaced, with no check for the new one being there already. The list and
        the index part exactly when it is there in another place. */
    method ReplaceThis(entry: E) returns (en: Option<E>)
      requires Valid()
      modifies this, list, list.nodes
      ensures list.Valid() && (View(), en) == DlistSpec.ReplaceThis(old(View()), entry)
      ensures Valid() <==> entry !in old(list.items) || en == Some(entry)
      ensures list.nodes == old(list.nodes)
    {
      hide Linked, Holding, Owned, Indexed;
      Agree();
      NodesApart();
      ghost var k := DlistSpec.This(View());
      if list.head == null {
        return None;
      }
      ThisNode();
      ghost var v := list.items[k];
      var at := if list.wrapFlag then list.tail
                else if list.curr == null || list.curr.prev == null then list.head else list.curr.prev;
      if entry !in list.items {
        IndexedSet(list.nodes, list.items, entries, k, entry);
      } else if entry == v {
        IndexedSame(list.nodes, list.items, entries, k);
      }
      en := list.ReplaceThis(entry);
      Reindex(en.value, entry, at);
    }

    /** An entry taken out of the index and another entered for the node `at`; entering fails if it is there. */
    method Reindex(v: E, entry: E, at: Dlink<E>)
      requires list.Valid() && v in entries && list.cntIn == |entries|
      modifies `entries
      ensures entry !in old(entries) || entry == v ==> entries == (old(entries) - {v})[entry := at]
      ensures entry in old(entries) && entry != v ==> !Valid()
    {
      hide Linked, Holding, Owned, Indexed;
      RemoveOne(entries, v);
      entries := entries - {v};
      if entry !in entries {
        entries := entries[entry := at];
      } else {
        Overfull();
      }
    }

    lemma IndexedSame(ns: seq<Dlink<E>>, items: seq<E>, hash: map<E, Dlink<E>>, k: nat)
      requires Indexed(ns, items, hash) && k < |items|
      ensures items[k := items[k]] == items && (hash - {items[k]})[items[k] := ns[k]] == hash
    {
    }

    lemma RemoveOne(hash: map<E, Dlink<E>>, v: E)
      requires v in hash
      ensures |hash - {v}| == |hash| - 1
    {
      assert hash.Keys == (hash - {v}).Keys + {v};
      assert |hash.Keys| == |hash| && |(hash - {v}).Keys| == |hash - {v}|;
    }

    /** The node that "this" refers to, as the code finds it. */
    lemma ThisNode()
      requires list.Valid() && list.head != null
      ensures list.nodes[DlistSpec.This(list.View())]
           == if list.wrapFlag then list.tail
              else if list.curr == null || list.curr.prev == null then list.head else list.curr.prev
    {
      list.Neighbours(list.pos);
      hide Linked, Holding, Owned;
    }

    /** Put in at the front, with no check for an entry already there. Entering it in the index again fails, so
        that the list and the index part exactly when it was there. */
    method Insert(entry: E)
      requires Valid()
      modifies this, list, list.nodes
      ensures list.Valid() && View() == DlistSpec.Insert(old(View()), entry)
      ensures Valid() <==> entry !in old(list.items)
      ensures fresh(set n | n in list.nodes && n !in old(list.nodes))
      ensures entry in old(list.items) ==> entries == old(entries) && list.cntIn == |entries| + 1
    {
      hide Linked, Holding, Owned;
      Agree();
      ghost var was := list.items;
      if entry !in list.items {
        DlistSpec.PutFirst(list.items, entry);
      }
      var temp := list.Insert(entry);
      if entry !in entries {
        IndexedPut(old(list.nodes), was, entries, 0, temp, entry);
        entries := entries[entry := temp];
      } else {
        Overfull();
      }
    }

    lemma Overfull()
      requires list.cntIn == |entries| + 1
      ensures !Valid()
    {
      if Valid() {
        Agree();
        assert false;
      }
    }

    method Append(entry: E) returns (ok: bool)
      requires Valid()
      modifies this, list, list.nodes
      ensures Valid() && ok == (entry !in old(list.items))
      ensures View() == if ok then DlistSpec.Append(old(View()), entry) else old(View())
      ensures fresh(set n | n in list.nodes && n !in old(list.nodes))
    {
      hide Linked, Holding, Owned, Indexed;
      var there := IsItInTheList(entry);
      if there {
        return false;
      }
      DlistSpec.PutLast(list.items, entry);
      var temp := list.Append(entry);
      IndexedPut(old(list.nodes), old(list.items), entries, |old(list.items)|, temp, entry);
      entries := entries[entry := temp];
      ok := true;
    }

    method InsertHere(entry: E) returns (ok: bool)
      requires Valid()
      modifies this, list, list.nodes
      ensures Valid() && ok == (entry !in old(list.items))
      ensures View() == if ok then DlistSpec.InsertHere(old(View()), entry) else old(View())
      ensures fresh(set n | n in list.nodes && n !in old(list.nodes))
    {
      hide Linked, Holding, Owned, Indexed;
      var there := IsItInTheList(entry);
      if there {
        return false;
      }
      ghost var k := DlistSpec.This(View());
      var tmp := list.InsertHere(entry);
      if old(list.items) == [] {
        DlistSpec.PutOnly(tmp, entry);
        IndexedPut(old(list.nodes), old(list.items), entries, 0, tmp, entry);
      } else {
        IndexedPut(old(list.nodes), old(list.items), entries, k, tmp, entry);
      }
      entries := entries[entry := tmp];
      ok := true;
    }

    /** With the cursor on the first entry the code breaks the list half as it does for the plain list, and the index
        holds an entry that no walk along the forward links meets. */
    method AppendHere(entry: E) returns (ok: bool)
      requires Valid()
      modifies this, list, list.nodes
      ensures ok == (entry !in old(list.items))
      ensures !ok ==> Valid() && View() == old(View()) && list.nodes == old(list.nodes)
      ensures ok ==> (Valid() <==> !old(list.OnFirst()))
      ensures ok && !old(list.OnFirst()) ==> View() == DlistSpec.AppendHere(old(View()), entry)
      ensures ok && !old(list.OnFirst()) ==> fresh(set n | n in list.nodes && n !in old(list.nodes))
      ensures ok && old(list.OnFirst()) ==>
                && entry in entries && list.head == old(list.head) && list.cntIn == old(list.cntIn) + 1
                && forall n :: n in old(list.nodes) ==> n.next == old(n.next)
    {
      hide Linked, Holding, Owned, Indexed;
      var there := IsItInTheList(entry);
      if there {
        return false;
      }
      ghost var k := DlistSpec.This(View()) + 1;
      ghost var broken := list.OnFirst();
      var tmp := list.AppendHere(entry);
      if !broken {
        if old(list.items) == [] {
          DlistSpec.PutOnly(tmp, entry);
          IndexedPut(old(list.nodes), old(list.items), entries, 0, tmp, entry);
        } else {
          IndexedPut(old(list.nodes), old(list.items), entries, k, tmp, entry);
        }
      }
      entries := entries[entry := tmp];
      ok := true;
    }

    lemma CursorOnFirst()
      requires Valid()
      ensures list.OnFirst() <==> View().cur == DlistSpec.At(0)
      ensures DlistSpec.Ok(View())
    {
      list.Neighbours(list.pos);
    }

    /** One call. */
    method Do(c: Call<E>)
      requires Valid() && DlistSpec.Ok(View()) && Careful(View(), c)
      modifies this, list, list.nodes
      ensures Valid() && View() == After(old(View()), c)
      ensures fresh(set n | n in list.nodes && n !in old(list.nodes))
    {
      CursorOnFirst();
      hide Valid;
      match c
      case Get => var e := Get();
      case Reset => Reset();
      case GetNext => var e := GetNext();
      case GetThis => var e := GetThis();
      case PullThis(x) => var ok := PullThis(x);
      case MoveToThis(x) => var ok := MoveToThis(x);
      case ReplaceThis(x) => var e := ReplaceThis(x);
      case Insert(x) => Insert(x);
      case Append(x) => var ok := Append(x);
      case InsertHere(x) => var ok := InsertHere(x);
      case AppendHere(x) => var ok := AppendHere(x);
    }

    /** Over every run of careful calls the list and the index agree. */
    method Run(cs: seq<Call<E>>)
      requires Valid() && DlistSpec.Ok(View()) && AllCareful(View(), cs)
      modifies this, list, list.nodes
      ensures Valid() && View() == AfterAll(old(View()), cs)
      ensures list.cntIn == |list.items| == |entries| && Distinct(list.items)
    {
      var i := 0;
      while i < |cs|
        invariant i <= |cs| && Valid() && DlistSpec.Ok(View()) && AllCareful(View(), cs[i..])
        invariant AfterAll(View(), cs[i..]) == AfterAll(old(View()), cs)
        invariant fresh(set n | n in list.nodes && n !in old(list.nodes))
      {
        hide Valid, Careful, After;
        assert cs[i..][1..] == cs[i + 1..];
        Do(cs[i]);
        i := i + 1;
      }
      Agree();
    }
  }
}
