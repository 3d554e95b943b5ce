/** Precedence-ordered subscriber lists of APPS/baselib/distributor.c as sequences. */
module SubscriberSpec {
  import opened ScanSpec
  import opened DlistSpec
  import opened SeqFacts

  type MessageFunc(==)
  type Arg(==)

  class MsgConsumer {
    const precedence: int
    const protocolId: nat
    const streamId: nat
    const msgNotify: MessageFunc
    const arg: Arg

    constructor (priority: int, protocol: nat, stream: nat, mf: MessageFunc, a: Arg)
      ensures precedence == priority && protocolId == protocol && streamId == stream
      ensures msgNotify == mf && arg == a
    {
      precedence, protocolId, streamId, msgNotify, arg := priority, protocol, stream, mf, a;
    }
  }

  /** What an unsubscription names. */
  datatype Request = Request(mf: MessageFunc, protocol: nat, stream: nat, arg: Arg)

  predicate Matches(mc: MsgConsumer, r: Request) {
    mc.protocolId == r.protocol && mc.streamId == r.stream && mc.msgNotify == r.mf && mc.arg == r.arg
  }

  predicate For(mc: MsgConsumer, protocol: nat, stream: nat) {
    mc.protocolId == protocol && mc.streamId == stream
  }

  /** The place before the first subscriber of greater precedence, or the end. */
  function Slot(s: seq<MsgConsumer>, precedence: int): (k: nat)
    ensures k <= |s|
    ensures forall i {:trigger s[i]} :: 0 <= i < k ==> s[i].precedence <= precedence
    ensures k < |s| ==> s[k].precedence > precedence
  {
    if s == [] || s[0].precedence > precedence then 0 else 1 + Slot(s[1..], precedence)
  }

  function Placed(s: seq<MsgConsumer>, mc: MsgConsumer): seq<MsgConsumer> {
    Put(s, Slot(s, mc.precedence), mc)
  }

  /** The place of the first subscriber the request names, or the length. */
  function Found(s: seq<MsgConsumer>, r: Request): (k: nat)
    ensures k <= |s|
    ensures forall i {:trigger s[i]} :: 0 <= i < k ==> !Matches(s[i], r)
    ensures k < |s| ==> Matches(s[k], r)
  {
    if s == [] || Matches(s[0], r) then 0 else 1 + Found(s[1..], r)
  }

  function Pulled(s: seq<MsgConsumer>, r: Request): seq<MsgConsumer> {
    if Found(s, r) < |s| then Without(s, Found(s, r)) else s
  }

  /** Precedences never decrease along the list. */
  ghost predicate Sorted(s: seq<MsgConsumer>) {
    |s| <= 1 || (s[0].precedence <= s[1].precedence && Sorted(s[1..]))
  }

  /** The subscribers at one precedence, in list order. */
  function Level(s: seq<MsgConsumer>, p: int): seq<MsgConsumer> {
    if s == [] then [] else if s[0].precedence == p then [s[0]] + Level(s[1..], p) else Level(s[1..], p)
  }

  /** The subscribers for one protocol and stream, in list order. */
  function Only(s: seq<MsgConsumer>, protocol: nat, stream: nat): seq<MsgConsumer> {
    if s == [] then []
    else if For(s[0], protocol, stream) then [s[0]] + Only(s[1..], protocol, stream)
    else Only(s[1..], protocol, stream)
  }

  // ----- delivery -----

  type Body(==)

  /** A message on its way: whether its data and its buffer are still there, and what it carries. */
  datatype Message = Message(data: bool, totData: bool, protocolId: nat, streamNo: nat, takeOk: bool, body: Body)

  predicate Consumed(msg: Message) {
    !msg.data || !msg.totData
  }

  /** The subscribers that get to see the message, and what becomes of it: each in turn up to the first that
      consumes it. */
  function Offered(s: seq<MsgConsumer>, msg: Message, notify: (MsgConsumer, Message) -> Message)
    : (seq<MsgConsumer>, Message)
  {
    if s == [] then ([], msg)
    else
      var m := notify(s[0], msg);
      if Consumed(m) then ([s[0]], m)
      else
        var r := Offered(s[1..], m, notify);
        ([s[0]] + r.0, r.1)
  }

  /** The message after the first `k` subscribers have had it in turn. */
  function Passed(s: seq<MsgConsumer>, msg: Message, notify: (MsgConsumer, Message) -> Message, k: nat): Message
    requires k <= |s|
  {
    if k == 0 then msg else notify(s[k - 1], Passed(s, msg, notify, k - 1))
  }

  /** The first `k` subscribers of a list get the message and no more do: the message passed through them unconsumed up
      to the last, and the last consumed it or was the last of the list. */
  ghost predicate StopsAt(s: seq<MsgConsumer>, msg: Message, notify: (MsgConsumer, Message) -> Message, k: nat) {
    && k <= |s|
    && (forall i {:trigger Passed(s, msg, notify, i)} :: 0 < i < k ==> !Consumed(Passed(s, msg, notify, i)))
    && (k < |s| ==> k > 0 && Consumed(Passed(s, msg, notify, k)))
  }

  lemma {:induction false} PassedTail(s: seq<MsgConsumer>, msg: Message, notify: (MsgConsumer, Message) -> Message, k: nat)
    requires s != [] && k < |s|
    ensures Passed(s, msg, notify, k + 1) == Passed(s[1..], notify(s[0], msg), notify, k)
  {
    if k > 0 {
      PassedTail(s, msg, notify, k - 1);
    }
  }

  /** A message is offered to a prefix of the list: all but the last of those called left it unconsumed, and unless that
      is the whole list the last consumed it. There is only one such prefix. */
  lemma {:induction false} OfferedPrefix(s: seq<MsgConsumer>, msg: Message, notify: (MsgConsumer, Message) -> Message)
    ensures var r := Offered(s, msg, notify);
            && r.0 <= s && r.1 == Passed(s, msg, notify, |r.0|) && StopsAt(s, msg, notify, |r.0|)
            && forall k: nat :: StopsAt(s, msg, notify, k) ==> k == |r.0|
  {
    if s != [] {
      var m := notify(s[0], msg);
      assert Passed(s, msg, notify, 1) == m by {
        assert Passed(s, msg, notify, 0) == msg;
      }
      var n := |Offered(s, msg, notify).0|;
      if !Consumed(m) {
        OfferedPrefix(s[1..], m, notify);
        PassedTail(s, msg, notify, n - 1);
        forall i | 0 < i < n
          ensures !Consumed(Passed(s, msg, notify, i))
        {
          PassedTail(s, msg, notify, i - 1);
          if i > 1 {
            assert !Consumed(Passed(s[1..], m, notify, i - 1));
          }
        }
      }
      OnlyOneStop(s, msg, notify, n);
    }
  }

  lemma OnlyOneStop(s: seq<MsgConsumer>, msg: Message, notify: (MsgConsumer, Message) -> Message, n: nat)
    requires s != [] && n > 0 && StopsAt(s, msg, notify, n)
    ensures forall k: nat :: StopsAt(s, msg, notify, k) ==> k == n
  {
    forall k: nat | StopsAt(s, msg, notify, k)
      ensures k == n
    {
      var there, here := Passed(s, msg, notify, k), Passed(s, msg, notify, n);
    }
  }

  // ----- placing -----

  lemma PlacedFirst(s: seq<MsgConsumer>, mc: MsgConsumer)
    requires s == [] || s[0].precedence > mc.precedence
    ensures Placed(s, mc) == [mc] + s
  {
    PutFirst(s, mc);
  }

  lemma PlacedLater(s: seq<MsgConsumer>, mc: MsgConsumer)
    requires s != [] && s[0].precedence <= mc.precedence
    ensures Placed(s, mc) == [s[0]] + Placed(s[1..], mc)
  {
    hide Put;
    PutLater(s, Slot(s[1..], mc.precedence), mc);
  }

  lemma PutLater<E>(s: seq<E>, k: nat, x: E)
    requires k < |s|
    ensures Put(s, k + 1, x) == [s[0]] + Put(s[1..], k, x)
  {
    assert s[..k + 1] == [s[0]] + s[1..][..k];
    assert s[k + 1..] == s[1..][k..];
  }

  /** Placing keeps the list sorted by precedence. */
  lemma {:induction false} PlacedSorted(s: seq<MsgConsumer>, mc: MsgConsumer)
    requires Sorted(s)
    ensures Sorted(Placed(s, mc))
  {
    hide Placed;
    if s == [] || s[0].precedence > mc.precedence {
      PlacedFirst(s, mc);
      Tail(mc, s);
    } else {
      PlacedLater(s, mc);
      PlacedSorted(s[1..], mc);
      var t := Placed(s[1..], mc);
      Tail(s[0], t);
      if s[1..] == [] || s[1].precedence > mc.precedence {
        PlacedFirst(s[1..], mc);
      } else {
        PlacedLater(s[1..], mc);
      }
    }
  }

  /** A new subscriber comes last among those of its precedence; the others keep their order. */
  lemma {:induction false} PlacedLevel(s: seq<MsgConsumer>, mc: MsgConsumer, p: int)
    requires Sorted(s)
    ensures Level(Placed(s, mc), p) == Level(s, p) + if p == mc.precedence then [mc] else []
  {
    hide Placed;
    if s == [] || s[0].precedence > mc.precedence {
      PlacedFirst(s, mc);
      Tail(mc, s);
      if p == mc.precedence {
        NoneAt(s, p);
      }
    } else {
      PlacedLater(s, mc);
      PlacedLevel(s[1..], mc, p);
      Tail(s[0], Placed(s[1..], mc));
    }
  }

  lemma {:induction false} NoneAt(s: seq<MsgConsumer>, p: int)
    requires Sorted(s) && (s != [] ==> s[0].precedence > p)
    ensures Level(s, p) == []
  {
    if s != [] {
      NoneAt(s[1..], p);
    }
  }

  /** The sub-list of one protocol and stream is placed into just as the whole list is. */
  lemma {:induction false} PlacedOnly(s: seq<MsgConsumer>, mc: MsgConsumer, protocol: nat, stream: nat)
    requires Sorted(s)
    ensures Only(Placed(s, mc), protocol, stream)
         == if For(mc, protocol, stream) then Placed(Only(s, protocol, stream), mc) else Only(s, protocol, stream)
  {
    hide Placed, For;
    if s == [] || s[0].precedence > mc.precedence {
      PlacedFirst(s, mc);
      Tail(mc, s);
      OnlyAbove(s, mc.precedence, protocol, stream);
      PlacedFirst(Only(s, protocol, stream), mc);
    } else {
      PlacedLater(s, mc);
      PlacedOnly(s[1..], mc, protocol, stream);
      Tail(s[0], Placed(s[1..], mc));
      if For(s[0], protocol, stream) {
        PlacedLater(Only(s, protocol, stream), mc);
        Tail(s[0], Only(s[1..], protocol, stream));
      }
    }
  }

  lemma {:induction false} OnlyAbove(s: seq<MsgConsumer>, p: int, protocol: nat, stream: nat)
    requires Sorted(s) && (s != [] ==> s[0].precedence > p)
    ensures Only(s, protocol, stream) != [] ==> Only(s, protocol, stream)[0].precedence > p
  {
    if s != [] {
      OnlyAbove(s[1..], p, protocol, stream);
    }
  }

  // ----- pulling -----

  lemma PulledHead(s: seq<MsgConsumer>, r: Request)
    requires s != []
    ensures Pulled(s, r) == if Matches(s[0], r) then s[1..] else [s[0]] + Pulled(s[1..], r)
  {
    hide Matches;
    var k := Found(s[1..], r);
    if Matches(s[0], r) {
      assert Without(s, 0) == s[1..];
    } else if k < |s| - 1 {
      CutLater(s, k);
    }
  }

  lemma CutLater<E>(s: seq<E>, k: nat)
    requires k + 1 < |s|
    ensures Without(s, k + 1) == [s[0]] + Without(s[1..], k)
  {
    assert s[..k + 1] == [s[0]] + s[1..][..k];
    assert s[k + 2..] == s[1..][k + 1..];
  }

  /** Pulling keeps the list sorted. */
  lemma {:induction false} PulledSorted(s: seq<MsgConsumer>, r: Request)
    requires Sorted(s)
    ensures Sorted(Pulled(s, r))
  {
    if s != [] {
      hide Pulled, Matches;
      PulledHead(s, r);
      PulledSorted(s[1..], r);
      if !Matches(s[0], r) {
        Tail(s[0], Pulled(s[1..], r));
        if |s| > 1 {
          PulledHead(s[1..], r);
          if Matches(s[1], r) && |s| > 2 {
            assert s[2] == s[1..][1] && s[1..][1..][0] == s[2];
          }
        }
      }
    }
  }

  /** Whom the request finds in a list: the first match, if there is one. */
  function First(s: seq<MsgConsumer>, r: Request): Option<MsgConsumer> {
    if Found(s, r) < |s| then Some(s[Found(s, r)]) else None
  }

  /** Pulling from the sub-list of one protocol and stream is pulling from the whole list and then taking the
      sub-list. */
  lemma {:induction false} PulledOnly(s: seq<MsgConsumer>, r: Request, protocol: nat, stream: nat)
    ensures Only(Pulled(s, r), protocol, stream) == Pulled(Only(s, protocol, stream), r)
  {
    if s != [] {
      PulledOnly(s[1..], r, protocol, stream);
      var o := Only(s[1..], protocol, stream);
      PulledHead(s, r);
      PulledHead([s[0]] + o, r);
      Tail(s[0], o);
      Tail(s[0], Pulled(s[1..], r));
      PulledElsewhere(s, r, protocol, stream);
      hide Pulled, Matches, For;
    }
  }

  lemma PulledElsewhere(s: seq<MsgConsumer>, r: Request, protocol: nat, stream: nat)
    requires s != []
    ensures !For(s[0], protocol, stream) && Matches(s[0], r) ==> r.protocol != protocol || r.stream != stream
    ensures !For(s[0], protocol, stream) && Matches(s[0], r)
         ==> Pulled(Only(s[1..], protocol, stream), r) == Only(s[1..], protocol, stream)
  {
    if !For(s[0], protocol, stream) && Matches(s[0], r) {
      NoMatchElsewhere(s[1..], r, protocol, stream);
    }
  }

  lemma {:induction false} NoMatchElsewhere(s: seq<MsgConsumer>, r: Request, protocol: nat, stream: nat)
    requires r.protocol != protocol || r.stream != stream
    ensures Found(Only(s, protocol, stream), r) == |Only(s, protocol, stream)|
  {
    if s != [] {
      NoMatchElsewhere(s[1..], r, protocol, stream);
      Tail(s[0], Only(s[1..], protocol, stream));
    }
  }

  /** The request finds the same subscriber in the whole list and in the sub-list it names. */
  lemma {:induction false} FirstOnly(s: seq<MsgConsumer>, r: Request)
    ensures First(Only(s, r.protocol, r.stream), r) == First(s, r)
  {
    if s != [] {
      FirstOnly(s[1..], r);
      FirstHead(s, r);
      var o := Only(s[1..], r.protocol, r.stream);
      FirstHead([s[0]] + o, r);
      Tail(s[0], o);
      hide First;
    }
  }

  lemma FirstHead(s: seq<MsgConsumer>, r: Request)
    requires s != []
    ensures First(s, r) == if Matches(s[0], r) then Some(s[0]) else First(s[1..], r)
  {
    hide Matches;
  }
}
