/** The lists a message is to see, one after the other, as sequences of subscribers. */
module Routing {
  import opened SeqFacts
  import opened SubscriberSpec

  /** Offering a message that is still there to two lists in turn is offering it to the one list of both. */
  lemma {:induction false} OfferedBoth(a: seq<MsgConsumer>, b: seq<MsgConsumer>, msg: Message,
                                       notify: (MsgConsumer, Message) -> Message)
    requires !Consumed(msg)
    ensures var r := Offered(a, msg, notify);
            Offered(a + b, msg, notify) ==
            if Consumed(r.1) then r
            else (r.0 + Offered(b, r.1, notify).0, Offered(b, r.1, notify).1)
    decreases |a|
  {
    hide Consumed;
    if a == [] {
      assert a + b == b;
      assert [] + Offered(b, msg, notify).0 == Offered(b, msg, notify).0;
    } else {
      var m := notify(a[0], msg);
      Tail(a[0], a[1..] + b);
      assert a + b == [a[0]] + (a[1..] + b);
      if !Consumed(m) {
        OfferedBoth(a[1..], b, m, notify);
        var r := Offered(a[1..], m, notify);
        assert ([a[0]] + r.0) + Offered(b, r.1, notify).0 == [a[0]] + (r.0 + Offered(b, r.1, notify).0);
      }
    }
  }

  lemma FirstCalled(s: seq<MsgConsumer>, msg: Message, notify: (MsgConsumer, Message) -> Message)
    ensures s == [] ==> Offered(s, msg, notify).0 == []
    ensures s != [] ==> Offered(s, msg, notify).0 != [] && Offered(s, msg, notify).0[0] == s[0]
  {
    hide Consumed;
  }

  /** Leaving the middle of three lists out makes no difference exactly when it is empty or the first list consumes the
      message; the last list is taken not to start with the subscriber the middle one starts with. */
  lemma MiddleLeftOut(a: seq<MsgConsumer>, b: seq<MsgConsumer>, c: seq<MsgConsumer>, msg: Message,
                      notify: (MsgConsumer, Message) -> Message)
    requires !Consumed(msg) && (b != [] && c != [] ==> b[0] != c[0])
    ensures var same := b == [] || Consumed(Offered(a, msg, notify).1);
            && (Offered(a + c, msg, notify).0 == Offered(a + b + c, msg, notify).0 <==> same)
            && (same ==> Offered(a + c, msg, notify) == Offered(a + b + c, msg, notify))
  {
    hide Consumed, Offered;
    var r := Offered(a, msg, notify);
    assert a + b + c == a + (b + c);
    OfferedBoth(a, c, msg, notify);
    OfferedBoth(a, b + c, msg, notify);
    if b == [] {
      assert b + c == c;
    } else if !Consumed(r.1) {
      FirstCalled(b + c, r.1, notify);
      FirstCalled(c, r.1, notify);
      assert (b + c)[0] == b[0];
      OtherEnd(r.0, Offered(c, r.1, notify).0, Offered(b + c, r.1, notify).0);
    }
  }

  lemma OtherEnd<E>(s: seq<E>, t: seq<E>, u: seq<E>)
    requires t != u
    ensures s + t != s + u
  {
    assert (s + t)[|s|..] == t && (s + u)[|s|..] == u;
  }

  // ----- whom a list is for -----

  ghost predicate AllFor(s: seq<MsgConsumer>, protocol: nat, stream: nat) {
    forall i {:trigger s[i]} :: 0 <= i < |s| ==> For(s[i], protocol, stream)
  }

  lemma {:induction false} OnlyAllFor(s: seq<MsgConsumer>, protocol: nat, stream: nat)
    ensures AllFor(Only(s, protocol, stream), protocol, stream)
  {
    if s != [] {
      OnlyAllFor(s[1..], protocol, stream);
    }
  }

  lemma PlacedAllFor(s: seq<MsgConsumer>, mc: MsgConsumer, protocol: nat, stream: nat)
    requires AllFor(s, protocol, stream) && For(mc, protocol, stream)
    ensures AllFor(Placed(s, mc), protocol, stream)
  {
  }

  lemma PulledAllFor(s: seq<MsgConsumer>, r: Request, protocol: nat, stream: nat)
    requires AllFor(s, protocol, stream)
    ensures AllFor(Pulled(s, r), protocol, stream)
  {
  }
}
