/** The message side of the distributor of APPS/baselib/distributor.c: a list of all subscribers and one list for
    each protocol and stream, found through a table of tables. */
module Distributor {
  import opened ScanSpec
  import opened Dlist
  import opened Routing
  import opened SubscriberSpec
  import opened SubscriberLists

  const DIST_SCTP_PROTO_ID_DEFAULT: nat := 0
  const DIST_STREAM_DEFAULT: nat := 0x10000

  class HashableDlist {
    const streamNo: nat
    const list: DlistT<MsgConsumer>

    constructor (strm: nat)
      ensures streamNo == strm && fresh(list)
      ensures list.Valid() && list.items == [] && list.nodes == []
    {
      streamNo := strm;
      list := new DlistT<MsgConsumer>();
    }
  }

  class DistributorT {
    const msgSubscriberList: DlistT<MsgConsumer>
    const msgSubZeroNoStrm: HashableDlist
    var msgSubscribers: map<nat, map<nat, HashableDlist>>
    /** The key each list stands under. */
    ghost var Repr: set<object>
    ghost var home: map<DlistT<MsgConsumer>, (nat, nat)>

    function Entry(p: nat, s: nat): Option<HashableDlist>
      reads `msgSubscribers
    {
      if p in msgSubscribers && s in msgSubscribers[p] then Some(msgSubscribers[p][s]) else None
    }

    /** The subscribers for a protocol and stream. */
    ghost function Subs(p: nat, s: nat): seq<MsgConsumer>
      reads `msgSubscribers, if Entry(p, s).Some? then {Entry(p, s).value.list} else {}
    {
      match Entry(p, s)
      case None => []
      case Some(h) => h.list.items
    }

    ghost predicate ListOk(l: DlistT<MsgConsumer>)
      reads this, Repr
    {
      && l in Repr
      && (forall n :: n in l.nodes ==> n in Repr)
      && l.Valid() && Sorted(l.items)
    }

    ghost function All(): set<DlistT<MsgConsumer>>
      reads `home
    {
      home.Keys + {msgSubscriberList}
    }

    /** The list under one key holds what the whole list holds for that key. */
    ghost predicate EntryOk(p: nat, s: nat, h: HashableDlist)
      requires msgSubscriberList in Repr
      reads this, Repr
    {
      && h.list != msgSubscriberList && h.list in Repr
      && h.list in home && home[h.list] == (p, s)
      && (if h == msgSubZeroNoStrm
          then p == DIST_SCTP_PROTO_ID_DEFAULT && s == DIST_STREAM_DEFAULT && AllFor(h.list.items, p, s)
          else h.list.items == Only(msgSubscriberList.items, p, s))
    }

    ghost predicate Valid()
      reads this, Repr
    {
      && AllOk() && ListOk(msgSubscriberList)
      && Entry(DIST_SCTP_PROTO_ID_DEFAULT, DIST_STREAM_DEFAULT) == Some(msgSubZeroNoStrm)
      && Only(msgSubscriberList.items, DIST_SCTP_PROTO_ID_DEFAULT, DIST_STREAM_DEFAULT) == []
      && (forall p, s {:trigger Entry(p, s)} :: Entry(p, s).Some? ==> EntryOk(p, s, Entry(p, s).value))
      && (forall p, s {:trigger Entry(p, s)} :: Entry(p, s).None? ==> Only(msgSubscriberList.items, p, s) == [])
    }

    constructor ()
      ensures Valid() && fresh(Repr)
      ensures forall p, s :: Subs(p, s) == []
      ensures forall p, s {:trigger Entry(p, s)} ::
                Entry(p, s).Some? <==> p == DIST_SCTP_PROTO_ID_DEFAULT && s == DIST_STREAM_DEFAULT
      ensures msgSubscriberList.items == []
    {
      msgSubscriberList := new DlistT<MsgConsumer>();
      var zero := new HashableDlist(DIST_STREAM_DEFAULT);
      msgSubZeroNoStrm := zero;
      msgSubscribers := map[DIST_SCTP_PROTO_ID_DEFAULT := map[DIST_STREAM_DEFAULT := zero]];
      Repr := {msgSubscriberList, zero.list};
      home := map[zero.list := (DIST_SCTP_PROTO_ID_DEFAULT, DIST_STREAM_DEFAULT)];
    }

    /** An empty list put into the table. */
    method AddList(proto: nat, stream: nat) returns (hdl: HashableDlist)
      requires Valid() && Entry(proto, stream).None?
      modifies this
      ensures Valid() && Entry(proto, stream) == Some(hdl)
      ensures forall p, s {:trigger Entry(p, s)} ::
                Entry(p, s).Some? <==> old(Entry(p, s)).Some? || (p == proto && s == stream)
      ensures fresh(Repr - old(Repr)) && old(Repr) <= Repr
      ensures forall p, s :: Subs(p, s) == old(Subs(p, s))
    {
      hide Only, Sorted, Linked, Holding, Owned, AllFor, DlistT.Valid;
      hdl := new HashableDlist(stream);
      var hofl: map<nat, HashableDlist> := if proto in msgSubscribers then msgSubscribers[proto] else map[];
      hofl := hofl[stream := hdl];
      msgSubscribers := msgSubscribers[proto := hofl];
      home := home[hdl.list := (proto, stream)];
      Repr := Repr + {hdl.list};
      assert forall p, s {:trigger Entry(p, s)} ::
          Entry(p, s) == if p == proto && s == stream then Some(hdl) else old(Entry(p, s));
      EmptySorted();
      assert ListOk(hdl.list);
      ListsKept(hdl);
      EntriesKept(hdl, proto, stream);
    }

    /** The other lists are as they were. */
    twostate lemma ListsKept(new hdl: HashableDlist)
      requires old(Valid()) && unchanged(old(Repr)) && this !in Repr && Repr == old(Repr) + {hdl.list}
      requires hdl.list in home && home == old(home)[hdl.list := home[hdl.list]] && ListOk(hdl.list)
      ensures AllOk()
    {
      hide Only, Sorted, Linked, Holding, Owned, EntryOk, DlistT.Valid;
      forall m {:trigger ListOk(m)} | m in All()
        ensures ListOk(m)
      {
        if m != hdl.list {
          assert old(ListOk(m));
        }
      }
    }

    twostate lemma EntriesKept(new hdl: HashableDlist, new proto: nat, new stream: nat)
      requires old(Valid()) && unchanged(old(Repr)) && old(Repr) <= Repr && hdl.list !in old(Repr)
      requires msgSubscriberList in old(Repr)
      requires old(Entry(proto, stream)).None? && hdl != msgSubZeroNoStrm && hdl.list.items == [] && hdl.list in Repr
      requires home == old(home)[hdl.list := (proto, stream)]
      requires forall p, s {:trigger Entry(p, s)} ::
                 Entry(p, s) == if p == proto && s == stream then Some(hdl) else old(Entry(p, s))
      ensures forall p, s {:trigger Entry(p, s)} :: Entry(p, s).Some? ==> EntryOk(p, s, Entry(p, s).value)
    {
      hide Only, Sorted, Linked, Holding, Owned, AllFor, ListOk, DlistT.Valid;
      assert EntryOk(proto, stream, hdl);
      forall p, s {:trigger Entry(p, s)} | Entry(p, s).Some?
        ensures EntryOk(p, s, Entry(p, s).value)
      {
        if !(p == proto && s == stream) {
          assert old(Entry(p, s)).Some?;
        }
      }
    }

    lemma EmptySorted()
      ensures Sorted([])
    {
    }

    /** The list under a key, put into the table if it is not there yet. */
    method FindOrAdd(proto: nat, stream: nat) returns (hdl: HashableDlist)
      requires Valid()
      modifies this
      ensures Valid() && Entry(proto, stream) == Some(hdl)
      ensures forall p, s {:trigger Entry(p, s)} ::
                Entry(p, s).Some? <==> old(Entry(p, s)).Some? || (p == proto && s == stream)
      ensures fresh(Repr - old(Repr)) && old(Repr) <= Repr
      ensures forall p, s :: Subs(p, s) == old(Subs(p, s))
    {
      if proto in msgSubscribers && stream in msgSubscribers[proto] {
        hdl := msgSubscribers[proto][stream];
      } else {
        hdl := AddList(proto, stream);
      }
    }

    /** Different lists have different nodes. */
    lemma Apart(l: DlistT<MsgConsumer>, m: DlistT<MsgConsumer>)
      requires l.Valid() && m.Valid() && l != m
      ensures forall n :: n in m.nodes ==> n !in l.nodes
    {
      forall n | n in m.nodes
        ensures n !in l.nodes
      {
        assert n.owner == m;
      }
    }

    /** Every list is in order. */
    ghost predicate AllOk()
      reads this, Repr
    {
      this !in Repr && forall m {:trigger ListOk(m)} {:trigger m in All()} :: m in All() ==> ListOk(m)
    }

    twostate lemma StaysOk(m: DlistT<MsgConsumer>)
      requires old(ListOk(m)) && unchanged(m) && old(Repr) <= Repr && forall n :: n in m.nodes ==> unchanged(n)
      ensures ListOk(m)
    {
      hide Sorted;
      assert forall i {:trigger m.nodes[i]} :: 0 <= i < |m.nodes| ==> m.nodes[i] in m.nodes && unchanged(m.nodes[i]);
    }

    /** A new subscriber placed on one list only. */
    method PlaceOn(l: DlistT<MsgConsumer>, mc: MsgConsumer)
      requires l in All() && AllOk()
      modifies `Repr, Repr
      ensures fresh(Repr - old(Repr)) && old(Repr) <= Repr
      ensures AllOk()
      ensures l.items == Placed(old(l.items), mc)
      ensures forall m :: m in old(All()) && m != l ==> m.items == old(m.items)
    {
      hide Sorted, Placed, Linked, Holding, Owned, DlistT.Valid;
      assert ListOk(l);
      PlacedSorted(l.items, mc);
      ghost var others := All() - {l};
      forall m | m in others
        ensures forall n :: n in m.nodes ==> n !in l.nodes
      {
        assert ListOk(m);
        Apart(l, m);
      }
      label before:
      PlaceMcInDlist(l, mc);
      Repr := Repr + set n | n in l.nodes;
      forall m | m in others
        ensures ListOk(m) && m.items == old(m.items)
      {
        assert old@before(ListOk(m));
        assert unchanged@before(m);
        assert forall n :: n in m.nodes ==> n !in old@before(l.nodes) && n in old@before(Repr);
        forall n | n in m.nodes
          ensures unchanged@before(n)
        {
          assert n as object != l;
        }
        StaysOk@before(m);
      }
      assert ListOk(l);
    }

    method SubscribeDefault(mc: MsgConsumer)
      requires Valid() && For(mc, DIST_SCTP_PROTO_ID_DEFAULT, DIST_STREAM_DEFAULT)
      modifies `Repr, Repr
      ensures Valid() && fresh(Repr - old(Repr))
      ensures msgSubscribers == old(msgSubscribers) && msgSubscriberList.items == old(msgSubscriberList.items)
      ensures msgSubZeroNoStrm.list.items == Placed(old(msgSubZeroNoStrm.list.items), mc)
      ensures forall p, s {:trigger Entry(p, s)} :: Entry(p, s).Some? && Entry(p, s).value != msgSubZeroNoStrm ==>
                Entry(p, s).value.list.items == old(Entry(p, s).value.list.items)
    {
      hide Only, Sorted, Placed, Linked, Holding, Owned, AllFor;
      assert EntryOk(DIST_SCTP_PROTO_ID_DEFAULT, DIST_STREAM_DEFAULT, msgSubZeroNoStrm);
      PlacedAllFor(msgSubZeroNoStrm.list.items, mc, DIST_SCTP_PROTO_ID_DEFAULT, DIST_STREAM_DEFAULT);
      PlaceOn(msgSubZeroNoStrm.list, mc);
    }

    /** The sub-list of every key once `mc` has been placed on the whole list. */
    lemma WholePlaced(whole: seq<MsgConsumer>, mc: MsgConsumer, proto: nat, stream: nat)
      requires Sorted(whole) && For(mc, proto, stream)
      ensures forall p, s :: Only(Placed(whole, mc), p, s)
                          == if p == proto && s == stream then Placed(Only(whole, p, s), mc) else Only(whole, p, s)
    {
      forall p, s
        ensures Only(Placed(whole, mc), p, s)
             == if p == proto && s == stream then Placed(Only(whole, p, s), mc) else Only(whole, p, s)
      {
        PlacedOnly(whole, mc, p, s);
      }
    }

    method SubscribeKeyed(hdl: HashableDlist, mc: MsgConsumer, ghost proto: nat, ghost stream: nat)
      requires Valid() && Entry(proto, stream) == Some(hdl) && hdl != msgSubZeroNoStrm && For(mc, proto, stream)
      modifies `Repr, Repr
      ensures Valid() && fresh(Repr - old(Repr))
      ensures msgSubscribers == old(msgSubscribers)
      ensures msgSubscriberList.items == Placed(old(msgSubscriberList.items), mc)
      ensures hdl.list.items == Placed(old(hdl.list.items), mc)
      ensures forall p, s {:trigger Entry(p, s)} :: Entry(p, s).Some? && (p != proto || s != stream) ==>
                Entry(p, s).value.list.items == old(Entry(p, s).value.list.items)
    {
      hide Only, Sorted, Placed, Linked, Holding, Owned, For;
      assert EntryOk(proto, stream, hdl);
      assert ListOk(msgSubscriberList) && msgSubscriberList in All();
      WholePlaced(msgSubscriberList.items, mc, proto, stream);
      PlaceOn(msgSubscriberList, mc);
      PlaceOn(hdl.list, mc);
      assert ListOk(msgSubscriberList);
      forall p, s {:trigger Entry(p, s)} | Entry(p, s).Some?
        ensures EntryOk(p, s, Entry(p, s).value)
        ensures p != proto || s != stream ==> Entry(p, s).value.list.items == old(Entry(p, s).value.list.items)
      {
        assert old(EntryOk(p, s, Entry(p, s).value));
        assert ListOk(Entry(p, s).value.list);
      }
      assert old(Entry(DIST_SCTP_PROTO_ID_DEFAULT, DIST_STREAM_DEFAULT)) == Some(msgSubZeroNoStrm);
    }

    /** A subscription. The general default goes only on its own list, every other one also on the whole list. */
    method MsgSubscribe(mf: MessageFunc, proto: nat, stream: nat, priority: int, arg: Arg) returns (mc: MsgConsumer)
      requires Valid()
      modifies this, Repr
      ensures Valid() && fresh(Repr - old(Repr))
      ensures fresh(mc) && mc.precedence == priority && Matches(mc, Request(mf, proto, stream, arg))
      ensures Subs(proto, stream) == Placed(old(Subs(proto, stream)), mc)
      ensures forall p, s {:trigger Entry(p, s)} ::
                Entry(p, s).Some? <==> old(Entry(p, s)).Some? || (p == proto && s == stream)
      ensures forall p, s :: p != proto || s != stream ==> Subs(p, s) == old(Subs(p, s))
      ensures msgSubscriberList.items == if proto == DIST_SCTP_PROTO_ID_DEFAULT && stream == DIST_STREAM_DEFAULT
                                         then old(msgSubscriberList.items) else Placed(old(msgSubscriberList.items), mc)
    {
      hide Only, Sorted, Placed, Linked, Holding, Owned, AllFor, AllOk, DlistT.Valid;
      mc := new MsgConsumer(priority, proto, stream, mf, arg);
      if proto == DIST_SCTP_PROTO_ID_DEFAULT && stream == DIST_STREAM_DEFAULT {
        SubscribeDefault(mc);
        return;
      }
      var hdl := FindOrAdd(proto, stream);
      assert EntryOk(proto, stream, hdl);
      SubscribeKeyed(hdl, mc, proto, stream);
    }

    // ----- unsubscribing -----

    method PullOn(l: DlistT<MsgConsumer>, r: Request) returns (mc: Option<MsgConsumer>)
      requires l in All() && AllOk()
      modifies Repr
      ensures AllOk()
      ensures l.items == Pulled(old(l.items), r) && mc == First(old(l.items), r)
      ensures forall m :: m in All() && m != l ==> m.items == old(m.items)
    {
      hide Sorted, Pulled, First, Linked, Holding, Owned, DlistT.Valid;
      assert ListOk(l);
      PulledSorted(l.items, r);
      ghost var others := All() - {l};
      forall m | m in others
        ensures forall n :: n in m.nodes ==> n !in l.nodes
      {
        assert ListOk(m);
        Apart(l, m);
      }
      label before:
      mc := PullFromDlist2(l, r);
      forall m | m in others
        ensures ListOk(m) && m.items == old(m.items)
      {
        assert old@before(ListOk(m));
        assert unchanged@before(m);
        assert forall n :: n in m.nodes ==> n !in old@before(l.nodes) && n in old@before(Repr);
        forall n | n in m.nodes
          ensures unchanged@before(n)
        {
          assert n as object != l;
        }
        StaysOk@before(m);
      }
      assert ListOk(l);
    }

    /** The sub-list of every key once the request has been pulled from the whole list. */
    lemma WholePulled(whole: seq<MsgConsumer>, r: Request)
      ensures forall p, s :: Only(Pulled(whole, r), p, s)
                          == if p == r.protocol && s == r.stream then Pulled(Only(whole, p, s), r) else Only(whole, p, s)
      ensures First(Only(whole, r.protocol, r.stream), r) == First(whole, r)
    {
      hide Only, Pulled, First;
      FirstOnly(whole, r);
      forall p, s
        ensures Only(Pulled(whole, r), p, s)
             == if p == r.protocol && s == r.stream then Pulled(Only(whole, p, s), r) else Only(whole, p, s)
      {
        PulledOnly(whole, r, p, s);
        if p != r.protocol || s != r.stream {
          NothingPulled(whole, r, p, s);
        }
      }
    }

    lemma NothingPulled(whole: seq<MsgConsumer>, r: Request, p: nat, s: nat)
      requires p != r.protocol || s != r.stream
      ensures Pulled(Only(whole, p, s), r) == Only(whole, p, s)
    {
      NoMatchElsewhere(whole, r, p, s);
    }

    lemma NothingFound(r: Request)
      ensures Pulled([], r) == [] && First([], r) == None
    {
    }

    /** Ends a subscription; the two lists it is looked for on never disagree about whom it means. */
    method MsgUnsubscribe(r: Request) returns (ok: bool)
      requires Valid()
      modifies Repr
      ensures Valid() && Repr == old(Repr) && msgSubscribers == old(msgSubscribers)
      ensures ok == First(old(Subs(r.protocol, r.stream)), r).Some?
      ensures Subs(r.protocol, r.stream) == Pulled(old(Subs(r.protocol, r.stream)), r)
      ensures forall p, s :: p != r.protocol || s != r.stream ==> Subs(p, s) == old(Subs(p, s))
      ensures msgSubscriberList.items == Pulled(old(msgSubscriberList.items), r)
    {
      hide Only, Sorted, Pulled, First, Linked, Holding, Owned, AllFor, DlistT.Valid;
      WholePulled(msgSubscriberList.items, r);
      NothingFound(r);
      assert ListOk(msgSubscriberList) && msgSubscriberList in All();
      var mc := PullOn(msgSubscriberList, r);
      var mc2 := mc;
      if r.protocol in msgSubscribers && r.stream in msgSubscribers[r.protocol] {
        var hdl := msgSubscribers[r.protocol][r.stream];
        assert old(EntryOk(r.protocol, r.stream, Entry(r.protocol, r.stream).value));
        if hdl == msgSubZeroNoStrm {
          PulledAllFor(hdl.list.items, r, r.protocol, r.stream);
        }
        mc2 := PullOn(hdl.list, r);
      }
      assert ListOk(msgSubscriberList);
      forall p, s {:trigger Entry(p, s)} | Entry(p, s).Some?
        ensures EntryOk(p, s, Entry(p, s).value)
        ensures p != r.protocol || s != r.stream ==> Entry(p, s).value.list.items == old(Entry(p, s).value.list.items)
      {
        assert old(EntryOk(p, s, Entry(p, s).value));
        assert ListOk(Entry(p, s).value.list);
      }
      assert old(Entry(DIST_SCTP_PROTO_ID_DEFAULT, DIST_STREAM_DEFAULT)) == Some(msgSubZeroNoStrm);
      if mc.Some? && mc2.Some? {
        if mc != mc2 {
          assert false;
        }
        ok := true;
      } else if mc.Some? {
        assert false;
      } else if mc2.Some? {
        ok := true;
      } else {
        ok := false;
      }
    }

    // ----- delivery -----

    /** Whose list gets a message first: the stream's, or else the protocol's default stream's. */
    function Route(p: nat, s: nat): Option<HashableDlist>
      reads `msgSubscribers
    {
      if Entry(p, s).Some? then Entry(p, s) else Entry(p, DIST_STREAM_DEFAULT)
    }

    /** The calls a message leads to and what becomes of it: the routed list first, then the general default list,
        unless that was the routed one or the message is gone. */
    ghost function Delivered(msg: Message, notify: (MsgConsumer, Message) -> Message): (seq<MsgConsumer>, Message)
      requires Valid()
      reads this, Repr
    {
      var h := Route(msg.protocolId, msg.streamNo);
      assert h.Some? ==> h == Entry(msg.protocolId, msg.streamNo) || h == Entry(msg.protocolId, DIST_STREAM_DEFAULT);
      var first := if h.Some? then Offered(h.value.list.items, msg, notify) else ([], msg);
      if Consumed(first.1) || h == Some(msgSubZeroNoStrm) then first
      else
        assert Entry(DIST_SCTP_PROTO_ID_DEFAULT, DIST_STREAM_DEFAULT).Some?;
        var second := Offered(msgSubZeroNoStrm.list.items, first.1, notify);
        (first.0 + second.0, second.1)
    }

    /** The lists that the comment on the subscription tables names, in its order and each once: that of the protocol and
        stream, that of the protocol's default stream, that of protocol 0 and the stream, and the general default. A list
        that is not there has no subscribers. */
    ghost function Documented(p: nat, s: nat): seq<MsgConsumer>
      requires Valid()
      reads this, Repr
    {
      InRepr();
      Subs(p, s)
      + (if s == DIST_STREAM_DEFAULT then [] else Subs(p, DIST_STREAM_DEFAULT))
      + (if p == DIST_SCTP_PROTO_ID_DEFAULT then [] else Subs(DIST_SCTP_PROTO_ID_DEFAULT, s))
      + (if p == DIST_SCTP_PROTO_ID_DEFAULT || s == DIST_STREAM_DEFAULT then []
         else Subs(DIST_SCTP_PROTO_ID_DEFAULT, DIST_STREAM_DEFAULT))
    }

    lemma PromisedOf(p: nat, s: nat)
      requires Valid() && p != DIST_SCTP_PROTO_ID_DEFAULT && s != DIST_STREAM_DEFAULT
      ensures Documented(p, s) == Subs(p, s) + Subs(p, DIST_STREAM_DEFAULT) + Subs(DIST_SCTP_PROTO_ID_DEFAULT, s)
                                  + Subs(DIST_SCTP_PROTO_ID_DEFAULT, DIST_STREAM_DEFAULT)
    {
    }

    lemma DeliveredOf(msg: Message, notify: (MsgConsumer, Message) -> Message)
      requires Valid() && !Consumed(msg)
      requires msg.protocolId != DIST_SCTP_PROTO_ID_DEFAULT && msg.streamNo != DIST_STREAM_DEFAULT
      ensures var p, s := msg.protocolId, msg.streamNo;
              Delivered(msg, notify) ==
              Offered((if Entry(p, s).Some? then Subs(p, s) else Subs(p, DIST_STREAM_DEFAULT))
                      + Subs(DIST_SCTP_PROTO_ID_DEFAULT, DIST_STREAM_DEFAULT), msg, notify)
    {
      hide Only, Sorted, Offered, AllFor, DlistT.Valid, Delivered, Consulted;
      DeliveredInOne(msg, notify);
      ConsultedIs(msg.protocolId, msg.streamNo);
    }

    /** A list found in the table is one of the distributor's own. */
    lemma InRepr()
      requires Valid()
      ensures forall p, s {:trigger Entry(p, s)} :: Entry(p, s).Some? ==> Entry(p, s).value.list in Repr
    {
    }

    /** Exactly when a message sees the lists documented: its protocol is 0 or its stream the default one, or the first
        list the code finds consumes it, or no subscriber is on the lists that the code then leaves out. */
    ghost predicate AsDocumented(msg: Message, notify: (MsgConsumer, Message) -> Message)
      requires Valid()
      reads this, Repr
    {
      InRepr();
      var p, s := msg.protocolId, msg.streamNo;
      || p == DIST_SCTP_PROTO_ID_DEFAULT
      || s == DIST_STREAM_DEFAULT
      || Consumed(Offered(if Entry(p, s).Some? then Subs(p, s) else Subs(p, DIST_STREAM_DEFAULT), msg, notify).1)
      || (&& Subs(DIST_SCTP_PROTO_ID_DEFAULT, s) == []
          && (Entry(p, s).Some? ==> Subs(p, DIST_STREAM_DEFAULT) == []))
    }

    /** The subscribers the code puts a message before, as one list. */
    ghost function Consulted(p: nat, s: nat): seq<MsgConsumer>
      requires Valid()
      reads this, Repr
    {
      InRepr();
      var h := Route(p, s);
      (if h.Some? then assert h == Entry(p, s) || h == Entry(p, DIST_STREAM_DEFAULT); h.value.list.items else [])
      + (if h == Some(msgSubZeroNoStrm) then []
         else assert Entry(DIST_SCTP_PROTO_ID_DEFAULT, DIST_STREAM_DEFAULT).Some?; msgSubZeroNoStrm.list.items)
    }

    lemma DeliveredInOne(msg: Message, notify: (MsgConsumer, Message) -> Message)
      requires Valid() && !Consumed(msg)
      ensures Delivered(msg, notify) == Offered(Consulted(msg.protocolId, msg.streamNo), msg, notify)
    {
      hide Only, Sorted, Offered, AllFor, DlistT.Valid;
      InRepr();
      var h := Route(msg.protocolId, msg.streamNo);
      var a := if h.Some? then h.value.list.items else [];
      OfferedBoth(a, if h == Some(msgSubZeroNoStrm) then [] else msgSubZeroNoStrm.list.items, msg, notify);
      assert a + [] == a;
      NoneOffered(msg, notify);
    }

    lemma NoneOffered(msg: Message, notify: (MsgConsumer, Message) -> Message)
      ensures Offered([], msg, notify) == ([], msg)
    {
    }

    /** Two subscriptions under different keys are different subscribers. */
    lemma OtherKey(p: nat, s: nat, q: nat, t: nat)
      requires Valid() && (p != q || s != t)
      ensures Subs(p, s) != [] && Subs(q, t) != [] ==> Subs(p, s)[0] != Subs(q, t)[0]
    {
      hide Only, Sorted, Placed, DlistT.Valid;
      AllForKey(p, s);
      AllForKey(q, t);
    }

    lemma AllForKey(p: nat, s: nat)
      requires Valid()
      ensures AllFor(Subs(p, s), p, s)
    {
      hide Only, Sorted, Placed, DlistT.Valid;
      OnlyAllFor(msgSubscriberList.items, p, s);
    }

    lemma ConsultedIs(p: nat, s: nat)
      requires Valid()
      ensures p == DIST_SCTP_PROTO_ID_DEFAULT || s == DIST_STREAM_DEFAULT ==> Consulted(p, s) == Documented(p, s)
      ensures p != DIST_SCTP_PROTO_ID_DEFAULT && s != DIST_STREAM_DEFAULT ==>
                Consulted(p, s) == (if Entry(p, s).Some? then Subs(p, s) else Subs(p, DIST_STREAM_DEFAULT))
                                   + Subs(DIST_SCTP_PROTO_ID_DEFAULT, DIST_STREAM_DEFAULT)
    {
      hide Only, Sorted, AllFor, DlistT.Valid;
      InRepr();
      assert Entry(p, s).Some? ==> EntryOk(p, s, Entry(p, s).value);
      var h := Entry(p, DIST_STREAM_DEFAULT);
      assert h.Some? ==> EntryOk(p, DIST_STREAM_DEFAULT, h.value);
    }

    /** A message is offered to the subscribers documented, and to no others, exactly under the condition above. */
    lemma RoutedAsDocumented(msg: Message, notify: (MsgConsumer, Message) -> Message)
      requires Valid() && !Consumed(msg)
      ensures var promised := Offered(Documented(msg.protocolId, msg.streamNo), msg, notify);
              && (Delivered(msg, notify).0 == promised.0 <==> AsDocumented(msg, notify))
              && (AsDocumented(msg, notify) ==> Delivered(msg, notify) == promised)
    {
      hide Only, Sorted, Offered, Consumed, AllFor, DlistT.Valid, Delivered, Consulted;
      DeliveredInOne(msg, notify);
      InRepr();
      var p, s := msg.protocolId, msg.streamNo;
      var zero := Subs(DIST_SCTP_PROTO_ID_DEFAULT, DIST_STREAM_DEFAULT);
      ConsultedIs(p, s);
      if p != DIST_SCTP_PROTO_ID_DEFAULT && s != DIST_STREAM_DEFAULT {
        var front := if Entry(p, s).Some? then Subs(p, s) else Subs(p, DIST_STREAM_DEFAULT);
        var out := (if Entry(p, s).Some? then Subs(p, DIST_STREAM_DEFAULT) else []) + Subs(DIST_SCTP_PROTO_ID_DEFAULT, s);
        OtherKey(p, DIST_STREAM_DEFAULT, DIST_SCTP_PROTO_ID_DEFAULT, DIST_STREAM_DEFAULT);
        OtherKey(DIST_SCTP_PROTO_ID_DEFAULT, s, DIST_SCTP_PROTO_ID_DEFAULT, DIST_STREAM_DEFAULT);
        MiddleLeftOut(front, out, zero, msg, notify);
        assert Documented(p, s) == front + out + zero;
      }
    }

    /** Delivery, with the calls made recorded in `called`; `freed` says that the buffer was released. */
    method SendMessage(msg: Message, notify: (MsgConsumer, Message) -> Message)
        returns (m: Message, freed: bool, ghost called: seq<MsgConsumer>)
      requires Valid()
      modifies Repr
      ensures Valid() && Repr == old(Repr) && msgSubscribers == old(msgSubscribers)
      ensures (called, m) == old(Delivered(msg, notify))
      ensures !Consumed(msg) ==>
                var promised := old(Offered(Documented(msg.protocolId, msg.streamNo), msg, notify));
                && (called == promised.0 <==> old(AsDocumented(msg, notify)))
                && (called == promised.0 ==> m == promised.1)
      ensures freed == (m.totData && m.takeOk)
      ensures forall p, s :: Subs(p, s) == old(Subs(p, s))
    {
      hide Only, Sorted, Offered, Linked, Holding, Owned, Documented, AsDocumented, Consumed;
      if !Consumed(msg) {
        RoutedAsDocumented(msg, notify);
      }
      m, called := msg, [];
      var hdl := None;
      if msg.protocolId in msgSubscribers {
        var hofl := msgSubscribers[msg.protocolId];
        if msg.streamNo in hofl {
          hdl := Some(hofl[msg.streamNo]);
        } else if DIST_STREAM_DEFAULT in hofl {
          hdl := Some(hofl[DIST_STREAM_DEFAULT]);
        }
      }
      assert hdl == Route(msg.protocolId, msg.streamNo);
      if hdl.Some? {
        m, called := SendOver(hdl.value, m, notify);
      }
      if !Consumed(m) && hdl != Some(msgSubZeroNoStrm) {
        ghost var more;
        m, more := SendOver(msgSubZeroNoStrm, m, notify);
        called := called + more;
      }
      freed := m.totData && m.takeOk;
    }

    method SendOver(hdl: HashableDlist, msg: Message, notify: (MsgConsumer, Message) -> Message)
        returns (m: Message, ghost called: seq<MsgConsumer>)
      requires Valid() && exists p, s :: Entry(p, s) == Some(hdl)
      modifies Repr
      ensures Valid() && Repr == old(Repr) && msgSubscribers == old(msgSubscribers)
      ensures (called, m) == Offered(old(hdl.list.items), msg, notify)
      ensures forall m :: m in All() ==> m.items == old(m.items)
    {
      hide Only, Sorted, Offered, Linked, Holding, Owned;
      var p, s :| Entry(p, s) == Some(hdl);
      assert EntryOk(p, s, hdl) && ListOk(hdl.list);
      m, called := DistributeMsgOList(hdl.list, msg, notify);
    }
  }
}
