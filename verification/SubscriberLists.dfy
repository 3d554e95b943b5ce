/** The subscriber operations of APPS/baselib/distributor.c on linked lists. */
module SubscriberLists {
  import opened ScanSpec
  import DlistSpec
  import opened Dlist
  import opened SeqFacts
  import opened SubscriberSpec

  /** Walking a list from its start: `n` entries given out, the last of them `at`. */
  ghost predicate Walking(items: seq<MsgConsumer>, view: DlistSpec.Lst<MsgConsumer>, n: nat, at: Option<MsgConsumer>) {
    && view.items == items
    && match at
       case None => n == |items| && (items == [] || view.cur.End?)
       case Some(mc) => 0 < n <= |items| && items[n - 1] == mc && view.cur == DlistSpec.Onto(n, |items|)
  }

  lemma WalkOn(items: seq<MsgConsumer>, view: DlistSpec.Lst<MsgConsumer>, n: nat, at: Option<MsgConsumer>)
    requires DlistSpec.Ok(view)
    requires if at.None? then view == DlistSpec.Reset(DlistSpec.Lst(items, DlistSpec.Start)) && n == 0
             else Walking(items, view, n, at)
    ensures Walking(items, DlistSpec.Get(view).0, if n < |items| then n + 1 else n, DlistSpec.Get(view).1)
  {
  }

  method StartWalk(dl: DlistT<MsgConsumer>) returns (at: Option<MsgConsumer>, ghost n: nat)
    requires dl.Valid()
    modifies dl
    ensures dl.Valid() && dl.nodes == old(dl.nodes) && dl.items == old(dl.items)
    ensures Walking(dl.items, dl.View(), n, at) && n == if dl.items == [] then 0 else 1
    ensures at.Some? <==> dl.items != []
  {
    hide Linked, Holding, Owned;
    dl.Reset();
    WalkOn(dl.items, dl.View(), 0, None);
    at := dl.Get();
    n := if dl.items == [] then 0 else 1;
  }

  method StepWalk(dl: DlistT<MsgConsumer>, ghost m: nat, mc: MsgConsumer) returns (at: Option<MsgConsumer>, ghost n: nat)
    requires dl.Valid() && Walking(dl.items, dl.View(), m, Some(mc))
    modifies dl
    ensures dl.Valid() && dl.nodes == old(dl.nodes) && dl.items == old(dl.items)
    ensures Walking(dl.items, dl.View(), n, at) && n == if m < |dl.items| then m + 1 else m
    ensures at.Some? <==> m < |dl.items|
  {
    hide Linked, Holding, Owned;
    WalkOn(dl.items, dl.View(), m, Some(mc));
    at := dl.Get();
    n := if m < |dl.items| then m + 1 else m;
  }

  lemma SlotIs(items: seq<MsgConsumer>, mc: MsgConsumer, n: nat)
    requires n <= |items| && (n < |items| ==> items[n].precedence > mc.precedence)
    requires forall i {:trigger items[i]} :: 0 <= i < n ==> items[i].precedence <= mc.precedence
    ensures Slot(items, mc.precedence) == n
  {
  }

  lemma FoundIs(items: seq<MsgConsumer>, r: Request, n: nat)
    requires n <= |items| && (n < |items| ==> Matches(items[n], r))
    requires forall i {:trigger items[i]} :: 0 <= i < n ==> !Matches(items[i], r)
    ensures Found(items, r) == n
  {
  }

  method PlaceMcInDlist(dl: DlistT<MsgConsumer>, mc: MsgConsumer)
    requires dl.Valid()
    modifies dl, dl.nodes
    ensures dl.Valid() && fresh(set n | n in dl.nodes && n !in old(dl.nodes))
    ensures dl.items == Placed(old(dl.items), mc)
  {
    hide DlistSpec.Put, Slot, Linked, Holding, Owned;
    ghost var items := dl.items;
    var at, n := StartWalk(dl);
    while at.Some?
      invariant dl.Valid() && dl.nodes == old(dl.nodes) && dl.items == items
      invariant Walking(items, dl.View(), n, at)
      invariant forall i {:trigger items[i]} :: 0 <= i < (if at.Some? then n - 1 else n) ==>
                  items[i].precedence <= mc.precedence
      decreases |items| - n, at.Some?
    {
      if at.value.precedence > mc.precedence {
        SlotIs(items, mc, n - 1);
        var link := dl.InsertHere(mc);
        return;
      }
      at, n := StepWalk(dl, n, at.value);
    }
    SlotIs(items, mc, n);
    DlistSpec.PutLast(items, mc);
    var link := dl.Append(mc);
  }

  method PullFromDlist2(dl: DlistT<MsgConsumer>, r: Request) returns (out: Option<MsgConsumer>)
    requires dl.Valid()
    modifies dl, dl.nodes
    ensures dl.Valid() && (forall n :: n in dl.nodes ==> n in old(dl.nodes))
    ensures dl.items == Pulled(old(dl.items), r) && out == First(old(dl.items), r)
  {
    hide Without, Found, Matches, Linked, Holding, Owned;
    out := None;
    ghost var items := dl.items;
    var at, n := StartWalk(dl);
    while at.Some?
      invariant dl.Valid() && dl.nodes == old(dl.nodes) && dl.items == items
      invariant Walking(items, dl.View(), n, at)
      invariant forall i {:trigger items[i]} :: 0 <= i < (if at.Some? then n - 1 else n) ==> !Matches(items[i], r)
      decreases |items| - n, at.Some?
    {
      if Matches(at.value, r) {
        FoundIs(items, r, n - 1);
        out := dl.GetThis();
        if out != at {
          assert false;
        }
        return;
      }
      at, n := StepWalk(dl, n, at.value);
    }
    FoundIs(items, r, n);
  }

  /** Delivery without round robin; `called` records the calls made. */
  method DistributeMsgOList(dl: DlistT<MsgConsumer>, msg: Message, notify: (MsgConsumer, Message) -> Message)
      returns (m: Message, ghost called: seq<MsgConsumer>)
    requires dl.Valid()
    modifies dl
    ensures dl.Valid() && dl.nodes == old(dl.nodes) && dl.items == old(dl.items)
    ensures (called, m) == Offered(dl.items, msg, notify)
  {
    hide Consumed, Linked, Holding, Owned;
    m, called := msg, [];
    ghost var items := dl.items;
    var at, n := StartWalk(dl);
    assert items[0..] == items;
    assert [] + Offered(items, msg, notify).0 == Offered(items, msg, notify).0;
    while at.Some?
      invariant dl.Valid() && dl.nodes == old(dl.nodes) && dl.items == items
      invariant Walking(items, dl.View(), n, at)
      invariant at.None? ==> (called, m) == Offered(items, msg, notify)
      invariant at.Some? ==>
                  var r := Offered(items[n - 1..], m, notify);
                  (called + r.0, r.1) == Offered(items, msg, notify)
      decreases |items| - n, at.Some?
    {
      OfferedNext(items[n - 1..], m, called, notify);
      assert items[n - 1..][1..] == items[n..];
      m, called := notify(at.value, m), called + [at.value];
      if Consumed(m) {
        break;
      }
      at, n := StepWalk(dl, n, at.value);
    }
  }

  lemma OfferedNext(s: seq<MsgConsumer>, m: Message, called: seq<MsgConsumer>, notify: (MsgConsumer, Message) -> Message)
    requires s != []
    ensures var next := notify(s[0], m);
            var r := Offered(s, m, notify);
            if Consumed(next) then (called + r.0, r.1) == (called + [s[0]], next)
            else
              var t := Offered(s[1..], next, notify);
              (called + r.0, r.1) == (called + [s[0]] + t.0, t.1)
    ensures |s| == 1 && !Consumed(notify(s[0], m)) ==>
              (called + Offered(s, m, notify).0, Offered(s, m, notify).1) == (called + [s[0]], notify(s[0], m))
  {
    hide Consumed;
    var next := notify(s[0], m);
    var t := Offered(s[1..], next, notify);
    assert called + ([s[0]] + t.0) == called + [s[0]] + t.0;
    if |s| == 1 {
      assert s[1..] == [];
      assert [s[0]] + [] == [s[0]];
    }
  }
}
