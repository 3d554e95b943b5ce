/** Runs of subscriptions, unsubscriptions and messages on the distributor, and the runs that part from its header. */
module DistributorRuns {
  import opened ScanSpec
  import opened Distributor
  import opened SubscriberSpec
  import opened SubscriberRuns

  /** What a program may ask of the distributor. */
  datatype Step =
    | Join(mf: MessageFunc, proto: nat, stream: nat, priority: int, arg: Arg)
    | Leave(r: Request)
    | Send(msg: Message, notify: (MsgConsumer, Message) -> Message)

  function KeyOf(op: Op): (nat, nat) {
    match op
    case Subscribe(mc) => (mc.protocolId, mc.streamId)
    case Unsubscribe(r) => (r.protocol, r.stream)
  }

  /** What a step comes to: a subscription of a new subscriber, an unsubscription, or neither. */
  ghost predicate Records(step: Step, op: Option<Op>) {
    match step
    case Join(mf, proto, stream, priority, arg) =>
      && op.Some? && op.value.Subscribe? && op.value.mc.precedence == priority
      && Matches(op.value.mc, Request(mf, proto, stream, arg))
    case Leave(r) => op == Some(Unsubscribe(r))
    case Send(_, _) => op == None
  }

  /** The subscriptions and unsubscriptions under one key, in order. */
  function Mine(ops: seq<Option<Op>>, p: nat, s: nat): seq<Op> {
    if ops == [] then []
    else
      var last := ops[|ops| - 1];
      Mine(ops[..|ops| - 1], p, s) + if last.Some? && KeyOf(last.value) == (p, s) then [last.value] else []
  }

  /** Somebody has subscribed under a key, or it is that of the general default. */
  ghost predicate Opened(ops: seq<Option<Op>>, p: nat, s: nat) {
    (p == DIST_SCTP_PROTO_ID_DEFAULT && s == DIST_STREAM_DEFAULT) || exists op :: op in Mine(ops, p, s) && op.Subscribe?
  }

  /** Whom a message is sent to after a history of subscriptions, and what becomes of it. */
  ghost function Sent(ops: seq<Option<Op>>, msg: Message, notify: (MsgConsumer, Message) -> Message)
    : (seq<MsgConsumer>, Message)
  {
    var p := msg.protocolId;
    var s := if Opened(ops, p, msg.streamNo) then msg.streamNo else DIST_STREAM_DEFAULT;
    var first := Offered(Kept(Mine(ops, p, s)), msg, notify);
    if Consumed(first.1) || (p == DIST_SCTP_PROTO_ID_DEFAULT && s == DIST_STREAM_DEFAULT) then first
    else
      var second := Offered(Kept(Mine(ops, DIST_SCTP_PROTO_ID_DEFAULT, DIST_STREAM_DEFAULT)), first.1, notify);
      (first.0 + second.0, second.1)
  }

  /** The lists of the distributor are those the history leads to. */
  ghost predicate Tracks(d: DistributorT, ops: seq<Option<Op>>)
    reads d, d.Repr
  {
    && d.Valid()
    && (forall p, s {:trigger d.Entry(p, s)} :: d.Entry(p, s).Some? <==> Opened(ops, p, s))
    && (forall p, s :: d.Subs(p, s) == Kept(Mine(ops, p, s)))
  }

  lemma MoreMine(ops: seq<Option<Op>>, op: Option<Op>, p: nat, s: nat)
    ensures Mine(ops + [op], p, s) == Mine(ops, p, s) + if op.Some? && KeyOf(op.value) == (p, s) then [op.value] else []
    ensures Opened(ops + [op], p, s) <==>
            Opened(ops, p, s) || (op.Some? && KeyOf(op.value) == (p, s) && op.value.Subscribe?)
  {
    assert (ops + [op])[..|ops|] == ops;
    if op.Some? && KeyOf(op.value) == (p, s) {
      assert op.value in Mine(ops + [op], p, s);
    }
  }

  function Changed(was: seq<MsgConsumer>, op: Op): seq<MsgConsumer> {
    match op
    case Subscribe(mc) => Placed(was, mc)
    case Unsubscribe(r) => Pulled(was, r)
  }

  lemma MoreKept(ops: seq<Op>, op: Op)
    ensures Kept(ops + [op]) == Changed(Kept(ops), op)
  {
    assert (ops + [op])[..|ops|] == ops;
  }

  /** The lists after one more step. */
  lemma MoreTracked(ops: seq<Option<Op>>, op: Option<Op>, p: nat, s: nat)
    ensures Kept(Mine(ops + [op], p, s)) ==
            var was := Kept(Mine(ops, p, s));
            if op.None? || KeyOf(op.value) != (p, s) then was else Changed(was, op.value)
  {
    hide Kept, Mine, Opened;
    MoreMine(ops, op, p, s);
    if op.Some? {
      MoreKept(Mine(ops, p, s), op.value);
    }
    assert Mine(ops, p, s) + [] == Mine(ops, p, s);
  }

  /** The code's delivery is the one the history leads to. */
  lemma DeliveredIsSent(d: DistributorT, ops: seq<Option<Op>>, msg: Message, notify: (MsgConsumer, Message) -> Message)
    requires Tracks(d, ops)
    ensures d.Delivered(msg, notify) == Sent(ops, msg, notify)
  {
    hide Kept, Mine, Opened, Offered, Only, Sorted;
    var p := msg.protocolId;
    var s := if Opened(ops, p, msg.streamNo) then msg.streamNo else DIST_STREAM_DEFAULT;
    assert d.Entry(p, msg.streamNo).Some? <==> Opened(ops, p, msg.streamNo);
    assert d.Subs(p, s) == Kept(Mine(ops, p, s));
    d.NoneOffered(msg, notify);
  }

  /** The state after a step follows from what the step did to each list. */
  lemma TracksOn(d: DistributorT, ops: seq<Option<Op>>, op: Option<Op>)
    requires d.Valid()
    requires forall p: nat, s: nat {:trigger d.Entry(p, s)} ::
               d.Entry(p, s).Some? <==>
               Opened(ops, p, s) || (op.Some? && op.value.Subscribe? && KeyOf(op.value) == (p, s))
    requires forall p: nat, s: nat ::
               d.Subs(p, s) == var was := Kept(Mine(ops, p, s));
                               if op.Some? && KeyOf(op.value) == (p, s) then Changed(was, op.value) else was
    ensures Tracks(d, ops + [op])
  {
    hide Kept, Mine, Opened, Changed, DistributorT.Valid;
    forall p: nat, s: nat
      ensures d.Entry(p, s).Some? <==> Opened(ops + [op], p, s)
      ensures d.Subs(p, s) == Kept(Mine(ops + [op], p, s))
    {
      MoreMine(ops, op, p, s);
      MoreTracked(ops, op, p, s);
    }
  }

  method Do(d: DistributorT, step: Step, ghost ops: seq<Option<Op>>)
      returns (ghost op: Option<Op>, ghost called: seq<MsgConsumer>)
    requires Tracks(d, ops)
    modifies d, d.Repr
    ensures Tracks(d, ops + [op]) && Records(step, op) && fresh(d.Repr - old(d.Repr))
    ensures step.Send? ==> called == Sent(ops, step.msg, step.notify).0
  {
    hide Kept, Mine, Opened, Placed, Pulled, First, Offered, DistributorT.AllOk, DistributorT.ListOk;
    op, called := None, [];
    match step {
      case Join(mf, proto, stream, priority, arg) =>
        var mc := d.MsgSubscribe(mf, proto, stream, priority, arg);
        op := Some(Subscribe(mc));
      case Leave(r) =>
        var ok := d.MsgUnsubscribe(r);
        op := Some(Unsubscribe(r));
      case Send(msg, notify) =>
        DeliveredIsSent(d, ops, msg, notify);
        var m, freed;
        m, freed, called := d.SendMessage(msg, notify);
    }
    TracksOn(d, ops, op);
  }

  lemma FirstTracks(d: DistributorT)
    requires d.Valid() && forall p, s :: d.Subs(p, s) == []
    requires forall p, s {:trigger d.Entry(p, s)} ::
               d.Entry(p, s).Some? <==> p == DIST_SCTP_PROTO_ID_DEFAULT && s == DIST_STREAM_DEFAULT
    ensures Tracks(d, [])
  {
    hide DistributorT.Valid;
  }

  /** Any run on a new distributor: the list of each key is the stable sort, by precedence, of the registrations under
      that key that are in force, and every message is offered to whom the history before it leads to. */
  method Run(steps: seq<Step>) returns (d: DistributorT, ghost ops: seq<Option<Op>>, ghost calls: seq<seq<MsgConsumer>>)
    ensures d.Valid() && |ops| == |calls| == |steps|
    ensures forall k {:trigger ops[k]} :: 0 <= k < |steps| ==> Records(steps[k], ops[k])
    ensures forall p, s :: d.Subs(p, s) == Kept(Mine(ops, p, s)) && StableSort(d.Subs(p, s), Live(Mine(ops, p, s)))
    ensures forall k {:trigger calls[k]} :: 0 <= k < |steps| && steps[k].Send? ==>
              calls[k] == Sent(ops[..k], steps[k].msg, steps[k].notify).0
  {
    hide Tracks, Sent, Records, DistributorT.Valid;
    d := new DistributorT();
    FirstTracks(d);
    ops, calls := [], [];
    var k := 0;
    while k < |steps|
      invariant k <= |steps| && |ops| == |calls| == k && Tracks(d, ops) && fresh(d) && fresh(d.Repr)
      invariant forall j {:trigger ops[j]} :: 0 <= j < k ==> Records(steps[j], ops[j])
      invariant forall j {:trigger calls[j]} :: 0 <= j < k && steps[j].Send? ==>
                  calls[j] == Sent(ops[..j], steps[j].msg, steps[j].notify).0
    {
      ghost var was := ops;
      ghost var op, called;
      op, called := Do(d, steps[k], ops);
      ops, calls := ops + [op], calls + [called];
      assert forall j :: 0 <= j <= k ==> ops[..j] == was[..j];
      assert ops[..k] == was;
      k := k + 1;
    }
    AllSorted(d, ops);
  }

  lemma AllSorted(d: DistributorT, ops: seq<Option<Op>>)
    requires Tracks(d, ops)
    ensures d.Valid()
    ensures forall p, s :: d.Subs(p, s) == Kept(Mine(ops, p, s)) && StableSort(d.Subs(p, s), Live(Mine(ops, p, s)))
  {
    hide Kept, Mine, Live, StableSort;
    forall p: nat, s: nat
      ensures d.Subs(p, s) == Kept(Mine(ops, p, s)) && StableSort(d.Subs(p, s), Live(Mine(ops, p, s)))
    {
      EveryRunIsSorted(Mine(ops, p, s));
    }
  }

  // ----- where delivery parts from the documentation -----

  /** A message for a protocol nobody has subscribed to is not offered to a subscriber for its stream under protocol 0. */
  method UnknownProtocol(mf: MessageFunc, arg: Arg, msg: Message, notify: (MsgConsumer, Message) -> Message)
      returns (d: DistributorT, mc: MsgConsumer, ghost called: seq<MsgConsumer>)
    requires msg.protocolId == 7 && msg.streamNo == 5 && !Consumed(msg)
    ensures d.Valid() && d.Subs(0, 5) == [mc]
    ensures called == [] && Offered(d.Documented(7, 5), msg, notify).0 == [mc]
  {
    hide DistributorT.Valid, Offered, Consumed, DistributorT.AsDocumented, DistributorT.Documented, DistributorT.Delivered;
    d := new DistributorT();
    mc := d.MsgSubscribe(mf, 0, 5, 10, arg);
    assert Placed([], mc) == [mc];
    d.DeliveredOf(msg, notify);
    d.NoneOffered(msg, notify);
    assert d.Subs(7, 5) == d.Subs(7, DIST_STREAM_DEFAULT) == d.Subs(0, DIST_STREAM_DEFAULT) == [];
    OnlyOne(mc, msg, notify);
    var none: seq<MsgConsumer> := [];
    assert none + none == none;
    assert d.Delivered(msg, notify) == ([], msg);
    var m, freed;
    m, freed, called := d.SendMessage(msg, notify);
    d.PromisedOf(7, 5);
    assert [] + [] + [mc] + [] == [mc];
  }

  /** A subscriber that looks at a message and leaves it as it is. */
  function Look(mc: MsgConsumer, msg: Message): Message {
    msg
  }

  /** A message that the only subscriber for its stream leaves is not offered to the one for the default stream of its
      protocol. */
  method SkippedDefault(mf: MessageFunc, arg: Arg, msg: Message)
      returns (d: DistributorT, mc: MsgConsumer, other: MsgConsumer, ghost called: seq<MsgConsumer>)
    requires msg.protocolId == 7 && msg.streamNo == 5 && !Consumed(msg)
    ensures d.Valid() && d.Subs(7, 5) == [mc] && d.Subs(7, DIST_STREAM_DEFAULT) == [other]
    ensures called == [mc] && Offered(d.Documented(7, 5), msg, Look).0 == [mc, other]
  {
    hide DistributorT.Valid, Offered, Consumed, DistributorT.AsDocumented, DistributorT.Documented, DistributorT.Delivered;
    d := new DistributorT();
    mc := d.MsgSubscribe(mf, 7, 5, 10, arg);
    assert Placed([], mc) == [mc];
    other := d.MsgSubscribe(mf, 7, DIST_STREAM_DEFAULT, 10, arg);
    assert Placed([], other) == [other];
    d.DeliveredOf(msg, Look);
    OnlyOne(mc, msg, Look);
    BothLook(mc, other, msg);
    assert d.Subs(0, 5) == d.Subs(0, DIST_STREAM_DEFAULT) == [];
    assert [mc] + [] == [mc];
    assert d.Delivered(msg, Look) == ([mc], msg);
    var m, freed;
    m, freed, called := d.SendMessage(msg, Look);
    d.PromisedOf(7, 5);
    assert [mc] + [other] + [] + [] == [mc, other];
  }

  lemma BothLook(mc: MsgConsumer, other: MsgConsumer, msg: Message)
    requires !Consumed(msg)
    ensures Offered([mc, other], msg, Look).0 == [mc, other]
  {
    assert [mc, other][1..] == [other];
    OnlyOne(other, msg, Look);
  }

  lemma OnlyOne(mc: MsgConsumer, msg: Message, notify: (MsgConsumer, Message) -> Message)
    ensures Offered([mc], msg, notify) == ([mc], notify(mc, msg))
  {
    var m := notify(mc, msg);
    assert Offered([mc][1..], m, notify) == ([], m);
    assert [mc] + [] == [mc];
  }
}
