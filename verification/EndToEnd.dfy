/** A sender, a lossy network and a receiver on one RELIABLE_ORDERED channel.

    The network may deliver any fragment and any acknowledgement that was ever
    sent, any number of times and in any order, or never. Retransmission does
    not change the state: every fragment is in flight from its first sending. */
module EndToEnd {
  import opened Connection
  import opened NetUtil
  import opened OrderedSpec
  import opened Streams
  import SB = SenderBuffer

  datatype System = System(
    channel: int,               // the channel qualifier
    rstMsg: Msg,                // the RST that closing the connection sends
    cap: nat,                   // size of the receiver's buffer
    base: nat,                  // the channel's first number
    msgs: seq<Data>,            // the messages the sender accepted, in order
    buf: set<Msg>,              // the sender's unacknowledged messages, on all channels
    closing: bool,
    rst: bool,                  // whether an RST has been queued
    accepted: Accepted,         // the fragments the receiver accepted
    acks: set<nat>)             // the acknowledgements the receiver enqueued
  {
    ghost predicate WellFormed() {
      && IsQualifier(channel) && rstMsg.channel == CONTROL_CHANNEL
      && NonEmpty(msgs)
      && base + |Stream(msgs)| < BLOCK
      && InChannel(Chan(), accepted)
    }

    ghost function Chan(): Channel
      requires NonEmpty(msgs)
    {
      Channel(base, Stream(msgs))
    }

    // The number of the next fragment.
    ghost function Memo(): nat
      requires NonEmpty(msgs)
    {
      base + |Stream(msgs)|
    }
  }

  ghost predicate Init(s: System) {
    && s.WellFormed()
    && s.msgs == [] && !s.closing && !s.rst && s.accepted == map[] && s.acks == {}
    && forall m | m in s.buf :: m.channel != s.channel
  }

  // The application sends a message and the sender has room for it.
  ghost predicate SendStep(s: System, s': System, data: Data)
    requires s.WellFormed()
  {
    && !s.closing && data != []
    && s' == s.(msgs := s.msgs + [data],
                buf := s.buf + SB.ToSet(PartMsgs(s.channel, s.Memo(), data, NumMessages(|data|))))
  }

  // What the delivery of fragment t enqueues.
  ghost function NewAcks(s: System, s': System, t: nat): seq<nat>
    requires s.WellFormed() && s.Chan().Has(t) && InChannel(s.Chan(), s'.accepted)
  {
    var c := s.Chan();
    FirstAck(t, Expected(c, s.accepted)) + SecondAck(c, t, Expected(c, s.accepted), Expected(c, s'.accepted))
  }

  // The network delivers a copy of fragment t.
  ghost predicate ArrivesStep(s: System, s': System, t: nat, headerLength: nat)
    requires s.WellFormed()
  {
    var c := s.Chan();
    && c.Has(t) && InWindow(Expected(c, s.accepted), t)
    && s'.accepted == Accept(c, s.cap, s.accepted, t, headerLength)
    && s' == s.(accepted := s'.accepted, acks := s'.acks)
    && s'.acks == s.acks + set a | a in NewAcks(s, s', t)
  }

  // An expected fragment that finds the receive buffer full is acknowledged all
  // the same.
  ghost predicate RefusedExpected(s: System, t: nat, headerLength: nat)
    requires s.WellFormed() && s.Chan().Has(t)
  {
    t == Expected(s.Chan(), s.accepted) && Refused(s.Chan(), s.cap, s.accepted, t, headerLength)
  }

  // So this step is for the fragments that are not refused while expected.
  ghost predicate DeliverStep(s: System, s': System, t: nat, headerLength: nat)
    requires s.WellFormed()
  {
    ArrivesStep(s, s', t, headerLength) && !RefusedExpected(s, t, headerLength)
  }

  // What remains outstanding while closing: if nothing, the RST is queued,
  // unless the sender's buffer cannot hold even that.
  ghost predicate CloseIfEmpty(s: System, left: set<Msg>, s': System) {
    if s'.closing && left == {}
    then s'.buf == (if s'.rst then {s.rstMsg} else {})
    else s'.buf == left && s'.rst == s.rst
  }

  // The network delivers an acknowledgement, new, old or again.
  ghost predicate AckArrivesStep(s: System, s': System, ack: nat)
    requires s.WellFormed()
  {
    && ack in s.acks && s.Memo() > 0
    && s' == s.(buf := s'.buf, rst := s'.rst)
    && CloseIfEmpty(s, SB.AfterDeregister(s.buf, s.channel, GuessFromReference(s.Memo() - 1, Wrap(ack))), s')
  }

  ghost predicate SameOnChannel(s: System, buf: set<Msg>) {
    forall m: Msg | m.channel == s.channel :: m in buf <==> m in s.buf
  }

  // The application closes the connection, which cancels a handshake message.
  ghost predicate CloseStep(s: System, s': System) {
    && !s.closing && s'.closing
    && s' == s.(closing := true, buf := s'.buf, rst := s'.rst)
    && exists left :: SameOnChannel(s, left) && CloseIfEmpty(s, left, s')
  }

  // Sends and acknowledgements on other channels, handshake messages.
  ghost predicate OtherStep(s: System, s': System) {
    && s' == s.(buf := s'.buf, rst := s'.rst)
    && !s.rst
    && exists left :: SameOnChannel(s, left) && CloseIfEmpty(s, left, s')
  }

  ghost predicate Next(s: System, s': System) {
    && s.WellFormed() && s'.WellFormed()
    && (|| (exists data :: SendStep(s, s', data))
        || (exists t, headerLength :: DeliverStep(s, s', t, headerLength))
        || (exists ack :: AckArrivesStep(s, s', ack))
        || CloseStep(s, s')
        || OtherStep(s, s'))
  }

  // Fragment t is unacknowledged.
  ghost predicate Unacked(s: System, t: nat) {
    SB.HasKey(s.buf, s.channel, t)
  }

  // Conservation: every number assigned is with the sender or with the receiver.
  ghost predicate Conserves(s: System)
    requires s.WellFormed()
  {
    forall t | s.base <= t < s.Memo() :: Unacked(s, t) || t in s.accepted
  }

  ghost predicate Inv(s: System) {
    && s.WellFormed()
    // Everything from the number that the receiver expects is with the sender.
    && (forall t | Expected(s.Chan(), s.accepted) <= t < s.Memo() :: Unacked(s, t))
    && (forall m | m in s.buf && m.channel == s.channel :: s.base <= m.sn < s.Memo())
    // Every acknowledgement in flight is true.
    && (forall a | a in s.acks :: a < s.Memo() && AllIn(s.accepted, s.base, a + 1))
    && (s.rst ==> s.closing && s.buf == {s.rstMsg})
  }

  lemma InitOk(s: System)
    requires Init(s)
    ensures Inv(s)
  {
  }

  lemma SendOk(s: System, s': System, data: Data)
    requires Inv(s) && SendStep(s, s', data) && s'.WellFormed()
    ensures Inv(s')
  {
    var n := NumMessages(|data|);
    var parts := PartMsgs(s.channel, s.Memo(), data, n);
    assert s'.msgs[..|s'.msgs| - 1] == s.msgs;
    assert s'.Memo() == s.Memo() + n;
    forall t | Expected(s'.Chan(), s'.accepted) <= t < s'.Memo()
      ensures Unacked(s', t)
    {
      if t < s.Memo() {
        assert Unacked(s, t);
      } else {
        var m := parts[t - s.Memo()];
        assert m in parts && m in s'.buf && m.channel == s.channel && m.sn == t;
      }
    }
    forall m | m in s'.buf && m.channel == s'.channel
      ensures s'.base <= m.sn < s'.Memo()
    {
      if m !in s.buf {
        assert m in parts;
      }
    }
  }

  lemma DeliverOk(s: System, s': System, t: nat, headerLength: nat)
    requires Inv(s) && DeliverStep(s, s', t, headerLength) && s'.WellFormed()
    ensures Inv(s')
  {
    var c := s.Chan();
    var e, e' := Expected(c, s.accepted), Expected(c, s'.accepted);
    FirstAckTruth(c, s.cap, s.accepted, t, headerLength);
    forall a | a in s'.acks
      ensures a < s'.Memo() && AllIn(s'.accepted, s'.base, a + 1)
    {
      if a in s.acks {
        assert AllIn(s.accepted, s.base, a + 1);
        assert s.accepted.Keys <= s'.accepted.Keys;
        forall k | s.base <= k < a + 1
          ensures k in s'.accepted
        {
          assert k in s.accepted && k in s'.accepted.Keys;
        }
      } else {
        assert a in NewAcks(s, s', t);
        assert (t <= e && a == FirstAck(t, e)[0]) || (e' > 0 && a == e' - 1);
      }
    }
    PrefixEndGrows(s.accepted, s'.accepted, s.base);
    forall k | e' <= k < s'.Memo()
      ensures Unacked(s', k)
    {
      assert Unacked(s, k);
    }
  }

  // A true acknowledgement only removes what the receiver has.
  lemma DeregisterOk(s: System, ack: nat)
    requires Inv(s) && ack in s.acks && s.Memo() > 0
    ensures var left := SB.AfterDeregister(s.buf, s.channel, GuessFromReference(s.Memo() - 1, Wrap(ack)));
      && left <= s.buf && KeepsExpected(s, left)
  {
    AckUnwrapExact(s.Memo() - 1, ack);
    var left, e := SB.AfterDeregister(s.buf, s.channel, ack), Expected(s.Chan(), s.accepted);
    assert ack < e by {
      assert AllIn(s.accepted, s.base, ack + 1);
    }
    forall t | e <= t < s.Memo()
      ensures SB.HasKey(left, s.channel, t)
    {
      assert Unacked(s, t);
      var m :| m in s.buf && m.channel == s.channel && m.sn == t;
      assert m in left;
    }
  }

  // The messages left hold everything from the expected number on.
  ghost predicate KeepsExpected(s: System, left: set<Msg>)
    requires s.WellFormed()
  {
    forall t | Expected(s.Chan(), s.accepted) <= t < s.Memo() :: SB.HasKey(left, s.channel, t)
  }

  // Nothing is lost when what remains holds the same messages of the channel.
  lemma CloseIfEmptyOk(s: System, left: set<Msg>, s': System)
    requires Inv(s) && !s.rst
    requires KeepsExpected(s, left)
    requires forall m | m in left && m.channel == s.channel :: m in s.buf
    requires s' == s.(closing := s'.closing, buf := s'.buf, rst := s'.rst) && CloseIfEmpty(s, left, s')
    ensures Inv(s')
  {
    forall t | Expected(s'.Chan(), s'.accepted) <= t < s'.Memo()
      ensures Unacked(s', t)
    {
      assert SB.HasKey(left, s.channel, t);
    }
  }

  lemma SameOnChannelOk(s: System, left: set<Msg>)
    requires Inv(s) && SameOnChannel(s, left)
    ensures KeepsExpected(s, left)
    ensures forall m | m in left && m.channel == s.channel :: m in s.buf
  {
    forall t | Expected(s.Chan(), s.accepted) <= t < s.Memo()
      ensures SB.HasKey(left, s.channel, t)
    {
      assert Unacked(s, t);
      var m :| m in s.buf && m.channel == s.channel && m.sn == t;
      assert m in left;
    }
  }

  lemma NextOk(s: System, s': System)
    requires Inv(s) && Next(s, s')
    ensures Inv(s')
  {
    if data :| SendStep(s, s', data) {
      SendOk(s, s', data);
    } else if t, headerLength :| DeliverStep(s, s', t, headerLength) {
      DeliverOk(s, s', t, headerLength);
    } else if ack :| AckArrivesStep(s, s', ack) {
      DeregisterOk(s, ack);
      var left := SB.AfterDeregister(s.buf, s.channel, GuessFromReference(s.Memo() - 1, Wrap(ack)));
      if s.rst {
        assert left == s.buf;
      } else {
        CloseIfEmptyOk(s, left, s');
      }
    } else if CloseStep(s, s') {
      var left :| SameOnChannel(s, left) && CloseIfEmpty(s, left, s');
      SameOnChannelOk(s, left);
      CloseIfEmptyOk(s, left, s');
    } else {
      var left :| SameOnChannel(s, left) && CloseIfEmpty(s, left, s');
      SameOnChannelOk(s, left);
      CloseIfEmptyOk(s, left, s');
    }
  }

  ghost predicate IsRun(run: seq<System>) {
    && run != [] && Init(run[0])
    && forall i | 0 <= i < |run| - 1 :: Next(run[i], run[i + 1])
  }

  // Conservation in every reachable state.
  lemma {:induction false} EveryRunConserves(run: seq<System>)
    requires IsRun(run)
    ensures Inv(run[|run| - 1]) && Conserves(run[|run| - 1])
  {
    if |run| == 1 {
      InitOk(run[0]);
    } else {
      var prefix := run[..|run| - 1];
      EveryRunConserves(prefix);
      NextOk(run[|run| - 2], run[(|run| - 2) + 1]);
    }
  }

  // When an RST is queued nothing is outstanding, so the receiver has it all.
  lemma StateDelivered(s: System)
    requires Inv(s) && s.rst
    ensures Delivered(s.Chan(), s.accepted) == s.msgs
  {
    var c := s.Chan();
    assert !c.Has(Expected(c, s.accepted)) by {
      assert c.Has(Expected(c, s.accepted)) ==> Unacked(s, Expected(c, s.accepted));
    }
    StreamWellFormed(s.msgs);
    MessagesOfStream(s.msgs);
  }

  // Graceful close loses nothing: by the time an RST is queued, the receiver
  // has emitted every message the sender accepted, in order.
  lemma GracefulCloseDeliversAll(run: seq<System>)
    requires IsRun(run) && run[|run| - 1].rst
    ensures var s := run[|run| - 1]; s.WellFormed() && Delivered(s.Chan(), s.accepted) == s.msgs
  {
    EveryRunConserves(run);
    StateDelivered(run[|run| - 1]);
  }

  // The sender still has the next fragment that the receiver needs, and all
  // later ones.
  lemma MissingIsRetransmitted(run: seq<System>)
    requires IsRun(run)
    ensures var s := run[|run| - 1];
      s.WellFormed() && forall t | Expected(s.Chan(), s.accepted) <= t < s.Memo() :: Unacked(s, t)
  {
    EveryRunConserves(run);
  }

  // What the steps leave out: an expected fragment that the full receive
  // buffer refuses is acknowledged, and that acknowledgement makes the sender
  // drop it although the receiver does not have it.
  lemma RefusalLosesFragment(s: System, t: nat, headerLength: nat)
    requires Inv(s) && s.Chan().Has(t) && t == Expected(s.Chan(), s.accepted)
    requires Refused(s.Chan(), s.cap, s.accepted, t, headerLength)
    ensures FirstAck(t, Expected(s.Chan(), s.accepted)) == [t]
    ensures t !in Accept(s.Chan(), s.cap, s.accepted, t, headerLength)
    ensures Unacked(s, t)
    ensures !SB.HasKey(SB.AfterDeregister(s.buf, s.channel, GuessFromReference(s.Memo() - 1, Wrap(t))), s.channel, t)
  {
    AckUnwrapExact(s.Memo() - 1, t);
    assert Unacked(s, t);
    var m :| m in s.buf && m.channel == s.channel && m.sn == t;
    assert SB.HasAtOrAbove(s.buf, s.channel, t);
  }

  // An arrival keeps the invariant if and only if it is not an expected
  // fragment that is refused.
  lemma ArrivalKeepsInv(s: System, s': System, t: nat, headerLength: nat)
    requires Inv(s) && ArrivesStep(s, s', t, headerLength)
    ensures s'.WellFormed() && (Inv(s') <==> !RefusedExpected(s, t, headerLength))
  {
    hide Refused, Stream;
    if RefusedExpected(s, t, headerLength) {
      assert t in NewAcks(s, s', t) && t in s'.acks;
      assert t !in s'.accepted;
    } else {
      DeliverOk(s, s', t, headerLength);
    }
  }

  // The sender forgets what acknowledgement ack covers.
  ghost function Forget(s: System, ack: nat): set<Msg>
    requires s.WellFormed() && s.Memo() > 0
  {
    SB.AfterDeregister(s.buf, s.channel, GuessFromReference(s.Memo() - 1, Wrap(ack)))
  }

  // And conservation outlives every acknowledgement that can follow if and only
  // if the arrival is not one.
  lemma ConservesUnlessRefused(s: System, s': System, t: nat, headerLength: nat)
    requires Inv(s) && ArrivesStep(s, s', t, headerLength)
    ensures s'.WellFormed()
    ensures (forall ack, s'' | AckArrivesStep(s', s'', ack) && s''.WellFormed() :: Conserves(s''))
       <==> !RefusedExpected(s, t, headerLength)
  {
    hide Refused, Stream, SB.AfterDeregister, GuessFromReference;
    ArrivalKeepsInv(s, s', t, headerLength);
    if RefusedExpected(s, t, headerLength) {
      RefusalLosesFragment(s, t, headerLength);
      assert s.Memo() > 0 && t in NewAcks(s, s', t);
      var left := Forget(s, t);
      var s'' := s'.(buf := left);
      assert Unacked(s, t) && !s.rst;
      assert AckArrivesStep(s', s'', t);
      assert !Unacked(s'', t) && t !in s''.accepted;
    } else {
      forall ack, s'' | AckArrivesStep(s', s'', ack) && s''.WellFormed()
        ensures Conserves(s'')
      {
        NextOk(s', s'');
      }
    }
  }

  // The excluded arrival does happen: the first part of a two-part message, and
  // a buffer that is smaller than it.
  lemma RefusalExample(s: System, s': System, data: Data, headerLength: nat)
    requires Init(s) && SendStep(s, s', data) && s.base + 2 < BLOCK && s.cap < MAX_MESSAGE_LENGTH
    requires MAX_MESSAGE_LENGTH < |data| <= 2 * MAX_MESSAGE_LENGTH
    ensures IsRun([s, s']) && s'.Chan().Has(s.base) && RefusedExpected(s', s.base, headerLength)
  {
    hide Stream, PartMsgs, Split;
    TwoParts(data);
    assert s'.msgs == [data];
    assert Next(s, s');
    PrefixEndUnique(map[], s.base, s.base);
  }

  lemma TwoParts(data: Data)
    requires MAX_MESSAGE_LENGTH < |data| <= 2 * MAX_MESSAGE_LENGTH
    ensures NonEmpty([data]) && |Stream([data])| == 2
    ensures var f := Stream([data])[0]; f.first && !f.last && |f.data| == MAX_MESSAGE_LENGTH
  {
    assert [data][..0] == [] && Stream([data]) == Stream([data][..0]) + Split(data) == Split(data);
    assert Split(data)[0] == Part(data, 0);
  }
}
