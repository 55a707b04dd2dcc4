/** Two connection ends joined by the network of EndToEnd. Each method is a call
    that the application, the network or a timer makes of the sender's or the
    receiver's code, and is proved to be one step of that system, or to change
    nothing that the system shows.

    These calls have no method here: closing by force on either side, a close by
    the receiver's application, copies too old for the receiver's window, and
    what does not touch this state, such as NAT punchthrough and heartbeats. */
module Session {
  import opened EndToEnd
  import opened NetUtil
  import opened Options
  import opened OrderedSpec
  import opened Streams
  import C = Connection
  import MessageSets
  import R = OrderedReceiver
  import SB = SenderBuffer

  lemma OneMore(base: nat, msgs: seq<Data>, data: Data)
    requires NonEmpty(msgs) && data != []
    requires base + |Stream(msgs)| + NumMessages(|data|) < BLOCK
    ensures NonEmpty(msgs + [data]) && Stream(msgs + [data]) == Stream(msgs) + Split(data)
    ensures R.Continues(Channel(base, Stream(msgs)), Channel(base, Stream(msgs + [data])))
  {
    assert (msgs + [data])[..|msgs|] == msgs;
    StreamWellFormed(msgs);
    StreamWellFormed(msgs + [data]);
  }

  lemma SentOk(s: System, s': System, data: Data)
    requires Inv(s) && SendStep(s, s', data) && s.Memo() + NumMessages(|data|) < BLOCK
    ensures Inv(s') && s'.Memo() == s.Memo() + NumMessages(|data|)
  {
    OneMore(s.base, s.msgs, data);
    SendOk(s, s', data);
  }

  // What the receiver's code does with a fragment is an arrival in the system.
  lemma Arrived(s: System, s': System, t: nat, headerLength: nat, e: nat, e': nat, acks: seq<nat>, acks': seq<nat>)
    requires s.WellFormed() && s.Chan().Has(t) && InWindow(e, t) && InChannel(s.Chan(), s'.accepted)
    requires e == Expected(s.Chan(), s.accepted) && e' == Expected(s.Chan(), s'.accepted)
    requires s'.accepted == Accept(s.Chan(), s.cap, s.accepted, t, headerLength)
    requires AckStep(s.Chan(), acks, acks', t, e, e')
    requires s.acks == (set a | a in acks) && s' == s.(accepted := s'.accepted, acks := set a | a in acks')
    ensures ArrivesStep(s, s', t, headerLength)
  {
    assert acks' == acks + NewAcks(s, s', t);
  }

  // Leaving out messages of other channels, and putting the RST in when that
  // leaves nothing while closing, is a step that is not about the channel.
  lemma LeftElsewhere(s: System, left: set<C.Msg>, s': System)
    requires Inv(s) && s' == s.(buf := s'.buf, rst := s'.rst)
    requires SameOnChannel(s, left) && left <= s.buf
    requires s.rst ==> s' == s
    requires !s.rst ==> CloseIfEmpty(s, left, s')
    ensures (OtherStep(s, s') || s' == s) && Inv(s')
  {
    if !s.rst {
      NextOk(s, s');
    }
  }

  // In particular an acknowledgement for another channel.
  lemma AckedElsewhere(s: System, cq: int, sn: nat, room: bool, s': System)
    requires Inv(s) && C.IsQualifier(cq) && cq != s.channel
    requires s' == s.(buf := s'.buf, rst := s'.rst)
    requires var left := SB.AfterDeregister(s.buf, cq, sn);
      if s.closing && left == {} && room then s'.buf == {s.rstMsg} && s'.rst else s'.buf == left && s'.rst == s.rst
    ensures (OtherStep(s, s') || s' == s) && Inv(s')
  {
    LeftElsewhere(s, SB.AfterDeregister(s.buf, cq, sn), s');
  }

  // So is enqueueing messages of other channels before the connection closes.
  lemma GrownElsewhere(s: System, s': System)
    requires Inv(s) && !s.closing && s' == s.(buf := s'.buf) && SameOnChannel(s, s'.buf)
    ensures OtherStep(s, s') && Inv(s')
  {
    assert CloseIfEmpty(s, s'.buf, s');
    NextOk(s, s');
  }

  lemma InvParts(s: System)
    requires Inv(s)
    ensures s.WellFormed() && (s.rst ==> s.closing)
  {
  }

  // An acknowledgement on its way is for something sent, and a queued RST is
  // not what it acknowledges.
  lemma AckParts(s: System, ack: nat)
    requires Inv(s) && ack in s.acks
    ensures s.WellFormed() && 0 < s.Memo() < BLOCK && (s.rst ==> s.closing && s.buf == {s.rstMsg})
    ensures s.rst ==> forall sn: nat :: SB.AfterDeregister(s.buf, s.channel, sn) == s.buf
  {
  }

  // A queued message is the fragment of the stream with its number.
  ghost predicate Carried(m: C.Msg, c: Channel) {
    m.kind.DataPart? && c.Has(m.sn) && C.FragmentOf(m) == c.At(m.sn)
  }

  ghost predicate AllCarried(msgs: set<C.Msg>, channel: int, c: Channel) {
    forall m | m in msgs && m.channel == channel :: Carried(m, c)
  }

  // What is sent next is what the stream goes on with.
  lemma PartsCarried(base: nat, msgs: seq<Data>, data: Data, channel: int, sent: seq<C.Msg>)
    requires NonEmpty(msgs) && data != [] && base + |Stream(msgs)| + NumMessages(|data|) < BLOCK
    requires sent == C.PartMsgs(channel, base + |Stream(msgs)|, data, NumMessages(|data|))
    ensures NonEmpty(msgs + [data]) && AllCarried(SB.ToSet(sent), channel, Channel(base, Stream(msgs + [data])))
  {
    hide Stream, Part, NumMessages;
    OneMore(base, msgs, data);
    var c, next := Channel(base, Stream(msgs + [data])), |Stream(msgs)|;
    forall m | m in sent
      ensures Carried(m, c)
    {
      var i :| 0 <= i < |sent| && sent[i] == m;
      assert m == C.PartMsg(channel, base + next, data, i);
      assert c.At(m.sn) == (Stream(msgs) + Split(data))[next + i] == Part(data, i);
    }
  }

  lemma CarriedOne(queued: set<C.Msg>, channel: int, c: Channel, m: C.Msg)
    requires AllCarried(queued, channel, c) && m in queued && m.channel == channel
    ensures Carried(m, c)
  {
  }

  lemma CarriedOn(queued: set<C.Msg>, sent: set<C.Msg>, channel: int, c: Channel, c': Channel)
    requires AllCarried(queued, channel, c) && R.Continues(c, c') && AllCarried(sent, channel, c')
    ensures AllCarried(queued + sent, channel, c')
  {
  }

  class Session {
    const channel: int
    const sender: C.Connection
    const receiver: R.Receiver
    ghost var msgs: seq<Data>           // the messages the sender accepted

    ghost function State(): System
      reads this, sender, sender.senderBuffer, receiver
    {
      System(channel, sender.RstMsg(), receiver.size, receiver.initial, msgs,
             sender.Outstanding(), sender.closing, sender.RstQueued(),
             receiver.accepted, set a | a in receiver.acks)
    }

    // Whatever the sender has queued or keeps for retransmission on the channel.
    ghost predicate SenderCarries()
      reads sender, sender.senderBuffer, receiver
    {
      && AllCarried(SB.ToSet(sender.queued), channel, receiver.stream)
      && AllCarried(sender.Outstanding(), channel, receiver.stream)
    }

    // Nothing new of the channel is queued or kept.
    twostate lemma StillCarried()
      requires old(SenderCarries()) && receiver.stream == old(receiver.stream)
      requires forall m | (m in sender.queued || m in sender.Outstanding()) && m.channel == channel ::
        m in old(sender.queued) || m in old(sender.Outstanding())
      ensures SenderCarries()
    {
      hide Carried;
      forall m | (m in sender.queued || m in sender.Outstanding()) && m.channel == channel
        ensures Carried(m, receiver.stream)
      {
        assert m in SB.ToSet(old(sender.queued)) || m in old(sender.Outstanding());
      }
    }

    // The parts of one more message.
    twostate lemma SentCarried(data: Data)
      requires old(SenderCarries()) && NonEmpty(msgs) && data != []
      requires old(receiver.stream) == Channel(receiver.initial, Stream(msgs))
      requires receiver.initial + |Stream(msgs)| + NumMessages(|data|) < BLOCK
      requires receiver.stream == Channel(receiver.initial, Stream(msgs + [data]))
      requires var sent := C.PartMsgs(channel, receiver.initial + |Stream(msgs)|, data, NumMessages(|data|));
        sender.queued == old(sender.queued) + sent && sender.Outstanding() == SB.ToSet(sent) + old(sender.Outstanding())
      ensures SenderCarries()
    {
      hide Stream, C.PartMsgs, NumMessages, AllCarried;
      var sent := C.PartMsgs(channel, receiver.initial + |Stream(msgs)|, data, NumMessages(|data|));
      OneMore(receiver.initial, msgs, data);
      PartsCarried(receiver.initial, msgs, data, channel, sent);
      CarriedOn(SB.ToSet(old(sender.queued)), SB.ToSet(sent), channel, old(receiver.stream), receiver.stream);
      CarriedOn(old(sender.Outstanding()), SB.ToSet(sent), channel, old(receiver.stream), receiver.stream);
      assert SB.ToSet(sender.queued) == SB.ToSet(old(sender.queued)) + SB.ToSet(sent);
      assert sender.Outstanding() == old(sender.Outstanding()) + SB.ToSet(sent);
    }

    ghost predicate Valid()
      reads this, sender, sender.senderBuffer, receiver, receiver.sets
    {
      && SenderCarries()
      && sender.Valid() && sender.open
      && receiver.Inv() && !receiver.closed
      && sender.initialSn == receiver.initial
      && 192 <= channel < 256
      && Inv(State()) && receiver.stream == State().Chan()
      && sender.MemoFor(channel) == State().Memo()
    }

    constructor (connType: C.ConnType, sendSize: nat, receiveSize: nat, initialSn: nat, channel: int,
                 cookie: Data, now: real)
      requires initialSn < BLOCK - 1 && 192 <= channel < 256 && |cookie| <= MAX_MESSAGE_LENGTH
      requires connType != C.Server ==> SB.MAXIMAL_HEADER_SIZE + |cookie| <= sendSize
      ensures Valid() && Init(State())
    {
      hide SB.TreesAgree, R.TreeHolds, R.SetsHold, MessageSets.Represents, C.MessageOk, C.RefsOk;
      hide SB.SenderBuffer.Valid, SB.SenderBuffer.AllIndexed, C.Connection.ClosePending;
      this.channel := channel;
      sender := new C.Connection(connType, sendSize, initialSn, cookie, now);
      receiver := new R.Receiver(channel, receiveSize, initialSn, Channel(initialSn, []));
      msgs := [];
      new;
      InitOk(State());
    }

    // The application sends; the numbers stay inside the block.
    method Send(now: real, data: Data) returns (ok: bool)
      requires Valid() && State().Memo() + NumMessages(|data|) < BLOCK
      modifies this, sender, sender.senderBuffer, receiver`stream
      ensures Valid()
      ensures ok ==> SendStep(old(State()), State(), data)
      ensures !ok ==> State() == old(State())
    {
      hide Session.SenderCarries, C.Connection.Steady, C.Connection.Referenced, R.Receiver.Core, NumMessages, Inv;
      hide SB.SenderBuffer.Valid, SB.SenderBuffer.AllIndexed, Stream, Split, WellFormed, C.PartMsgs, InChannel;
      hide C.Carry, NonEmpty;
      ghost var s := State();
      assert Inv(s);
      ok := sender.Send(now, channel, data);
      if ok {
        InvParts(s);
        OneMore(receiver.initial, msgs, data);
        receiver.StreamGrows(Channel(receiver.initial, Stream(msgs + [data])));
        SentCarried(data);
        msgs := msgs + [data];
        assert SendStep(s, State(), data);
        SentOk(s, State(), data);
      } else {
        StillCarried();
        assert State() == s;
      }
    }

    // What is in flight and not older than what the receiver expects fits into
    // the sender's buffer.
    lemma InFlightFits()
      requires Valid()
      ensures receiver.ExpectedSequenceNumber() <= State().Memo()
      ensures (State().Memo() - receiver.ExpectedSequenceNumber()) * SB.MAXIMAL_HEADER_SIZE
           <= sender.senderBuffer.sendBufferSize <= sender.senderBuffer.size
    {
      hide R.Receiver.Core, C.MessageOk, Stream, SB.Bytes, SB.Newest;
      var e := receiver.ExpectedSequenceNumber();
      PrefixEndUnique(receiver.accepted, receiver.initial, e);
      forall t | e <= t < State().Memo()
        ensures SB.HasKey(sender.Outstanding(), channel, t)
      {
        assert Unacked(State(), t);
      }
      SB.OutstandingBytes(sender.senderBuffer.sendBuffer, channel, e, State().Memo());
    }

    // So with a sender's buffer of at most 10 * (2^23 - 1) bytes it lies in the
    // receiver's window, and only copies that are too old do not.
    lemma InFlightInWindow(t: nat)
      requires Valid() && receiver.stream.Has(t) && receiver.ExpectedSequenceNumber() <= t
      requires sender.senderBuffer.size <= HALF * SB.MAXIMAL_HEADER_SIZE
      ensures InWindow(receiver.ExpectedSequenceNumber(), t)
    {
      hide C.Connection.Valid, R.Receiver.Core, Stream;
      InFlightFits();
    }

    // The network delivers a copy of a message that the sender has queued. The
    // session stays valid unless the receive buffer refuses it although it is
    // expected.
    method Deliver(m: C.Msg, headerLength: nat)
      requires Valid() && m in sender.queued && m.channel == channel
      requires InWindow(receiver.ExpectedSequenceNumber(), m.sn)
        || (receiver.ExpectedSequenceNumber() <= m.sn && sender.senderBuffer.size <= HALF * SB.MAXIMAL_HEADER_SIZE)
      modifies receiver, receiver.sets
      ensures m.kind.DataPart? && old(State()).Chan().Has(m.sn)
      ensures ArrivesStep(old(State()), State(), m.sn, headerLength)
      ensures Valid() <==> !old(RefusedExpected(State(), m.sn, headerLength))
    {
      hide AllCarried, C.Connection.Valid, C.Connection.RstQueued, R.Receiver.Core, Inv, Refused, Stream, Accept;
      hide ArrivesStep, AckStep, InWindow, Wrap;
      ghost var s, e, t := State(), receiver.ExpectedSequenceNumber(), m.sn;
      InvParts(s);
      CarriedOne(SB.ToSet(sender.queued), channel, receiver.stream, m);
      PrefixEndUnique(receiver.accepted, receiver.initial, e);
      if e <= t && sender.senderBuffer.size <= HALF * SB.MAXIMAL_HEADER_SIZE {
        InFlightInWindow(t);
      }
      receiver.GotMessage(Wrap(m.sn), m.kind.first, m.kind.last, headerLength, m.data, false, t);
      PrefixEndUnique(receiver.accepted, receiver.initial, receiver.ExpectedSequenceNumber());
      ghost var s', e' := State(), receiver.ExpectedSequenceNumber();
      Arrived(s, s', t, headerLength, e, e', old(receiver.acks), receiver.acks);
      ArrivalKeepsInv(s, s', t, headerLength);
    }

    // The network delivers one of the receiver's acknowledgements.
    method DeliverAck(now: real, i: nat)
      requires Valid() && i < |receiver.acks|
      modifies sender, sender.senderBuffer
      ensures Valid()
      ensures AckArrivesStep(old(State()), State(), receiver.acks[i])
    {
      hide Session.SenderCarries;
      hide C.Connection.Loose, R.Receiver.Core, C.MessageOk, Inv, SB.AfterDeregister, GuessFromReference;
      ghost var s := State();
      var ack := receiver.acks[i];
      assert ack in s.acks;
      AckParts(s, ack);
      sender.GotOrderedAck(now, channel, Wrap(ack));
      StillCarried();
      assert AckArrivesStep(s, State(), ack);
      NextOk(s, State());
    }

    method Close(now: real)
      requires Valid() && !sender.closing
      modifies sender, sender.senderBuffer
      ensures Valid()
      ensures CloseStep(old(State()), State())
    {
      hide Session.SenderCarries, C.Connection.Loose, R.Receiver.Core, MessageSets.Represents, C.MessageOk;
      ghost var left := C.WithoutHandshake(sender.Outstanding(), sender.reliableHandshakeMsgSn, sender.initialSn);
      assert SameOnChannel(State(), left);
      var ok := sender.Close(now);
      StillCarried();
      assert CloseIfEmpty(old(State()), left, State());
      NextOk(old(State()), State());
    }

    // What a step that is not about the channel does to the system.
    twostate predicate Elsewhere()
      reads this, sender, sender.senderBuffer, receiver
    {
      OtherStep(old(State()), State()) || State() == old(State())
    }

    // The application sends on another channel.
    method SendElsewhere(now: real, cq: int, data: Data) returns (ok: bool)
      requires Valid() && C.IsQualifier(cq) && cq != channel
      requires sender.MemoFor(cq) + NumMessages(|data|) < TWO_64
      modifies sender, sender.senderBuffer
      ensures Valid()
      ensures if ok then OtherStep(old(State()), State()) else State() == old(State())
    {
      hide C.Carry, Session.SenderCarries, C.Connection.Loose, R.Receiver.Core, MessageSets.Represents, C.MessageOk;
      hide NumMessages;
      hide SB.SenderBuffer.Valid, SB.SenderBuffer.AllIndexed, Stream, WellFormed, InChannel;
      hide Inv, OtherStep;
      ghost var s := State();
      ok := sender.Send(now, cq, data);
      StillCarried();
      if ok {
        GrownElsewhere(s, State());
      }
    }

    // An acknowledgement for another RELIABLE_ORDERED channel.
    method DeliverAckElsewhere(now: real, cq: int, ack: Seq24)
      requires Valid() && C.IsQualifier(cq) && cq != channel && sender.MemoFor(cq) <= TWO_64
      modifies sender, sender.senderBuffer
      ensures Valid() && Elsewhere()
    {
      hide Session.SenderCarries;
      hide C.Connection.Loose, R.Receiver.Core, C.MessageOk, GuessFromReference, Inv, OtherStep, SB.AfterDeregister;
      hide C.Memo, Stream, WellFormed;
      ghost var s, memo := State(), sender.MemoFor(cq);
      ghost var sn := GuessFromReference(if memo == 0 then TWO_64 - 1 else memo - 1, ack);
      sender.GotOrderedAck(now, cq, ack);
      StillCarried();
      AckedElsewhere(s, cq, sn, sender.senderBuffer.size >= SB.MAXIMAL_HEADER_SIZE, State());
    }

    // An acknowledgement for a RELIABLE_SEQUENCED channel.
    method DeliverSequencedAck(now: real, cq: int, ack: Seq24)
      requires Valid() && C.IsQualifier(cq) && cq != channel
      requires cq in sender.reliableSequencedBuffer ==> sender.reliableSequencedBuffer[cq] < TWO_64
      modifies sender, sender.senderBuffer
      ensures Valid() && Elsewhere()
    {
      hide Session.SenderCarries;
      hide C.Connection.Loose, R.Receiver.Core, C.MessageOk, GuessFromReference, Inv, OtherStep, SB.AfterDeregister;
      ghost var s, sent := State(), sender.reliableSequencedBuffer;
      ghost var sn := GuessFromReference(if cq in sent then sent[cq] else 0, ack);
      sender.GotReliableSequencedAck(now, cq, ack);
      StillCarried();
      AckedElsewhere(s, cq, sn, sender.senderBuffer.size >= SB.MAXIMAL_HEADER_SIZE, State());
    }

    // The other host answers the SYN. Where the code's assertion fails, it aborts
    // after this step.
    method GotSynRst(now: real, endpoint: Data) returns (ok: bool, asserted: bool)
      requires Valid() && |endpoint| <= MAX_MESSAGE_LENGTH
      modifies sender, sender.senderBuffer
      ensures Valid()
      ensures if ok then OtherStep(old(State()), State()) else State() == old(State())
      ensures asserted <==> ok && sender.connType == C.P2P ==> old(sender.RoomForPrxAck(endpoint))
    {
      hide Session.SenderCarries;
      hide C.Connection.Loose, C.Connection.RoomForPrxAck, R.Receiver.Core, MessageSets.Represents, C.MessageOk;
      hide SB.SenderBuffer.Valid, SB.SenderBuffer.AllIndexed, Stream, WellFormed, InChannel;
      hide Inv, OtherStep;
      ghost var s := State();
      ok, asserted := sender.GotSynRst(now, endpoint);
      StillCarried();
      assert !ok ==> State() == s;
      if ok {
        GrownElsewhere(s, State());
      }
    }

    // The other host's SYN arrives again.
    method GotSynAgain(now: real)
      requires Valid() && sender.connType == C.Server
      modifies sender, sender.senderBuffer
      ensures Valid() && State() == old(State())
      ensures sender.queued == old(sender.queued) + [SB.Msg(C.CONTROL_CHANNEL, sender.initialSn, SB.SynRst, [])]
    {
      hide Session.SenderCarries, C.Connection.Loose, R.Receiver.Core, MessageSets.Represents, C.MessageOk, Inv;
      ghost var s := State();
      sender.GotSynAgain(now);
      StillCarried();
      assert State() == s;
    }

    // The mediator answers.
    method GotPrx(now: real)
      requires Valid()
      modifies sender, sender.senderBuffer
      ensures Valid() && Elsewhere()
    {
      hide Session.SenderCarries, C.Connection.Loose, R.Receiver.Core, MessageSets.Represents, C.MessageOk;
      hide SB.SenderBuffer.Valid, SB.SenderBuffer.AllIndexed, Stream, WellFormed, InChannel;
      ghost var handshake := if sender.connType == C.P2P then sender.reliableHandshakeMsgSn else None;
      ghost var left := C.WithoutHandshake(sender.Outstanding(), handshake, sender.initialSn);
      sender.GotPrx(now);
      StillCarried();
      LeftElsewhere(old(State()), left, State());
    }

    method GotPrxRstSynAck(now: real, lengthOk: bool)
      requires Valid()
      modifies sender, sender.senderBuffer
      ensures Valid() && Elsewhere()
    {
      hide Session.SenderCarries, C.Connection.Loose, R.Receiver.Core, MessageSets.Represents, C.MessageOk;
      hide SB.SenderBuffer.Valid, SB.SenderBuffer.AllIndexed, Stream, WellFormed, InChannel;
      ghost var handshake := if lengthOk then sender.reliableHandshakeMsgSn else None;
      ghost var left := C.WithoutHandshake(sender.Outstanding(), handshake, sender.initialSn);
      sender.GotPrxRstSynAck(now, lengthOk);
      StillCarried();
      LeftElsewhere(old(State()), left, State());
    }

    // The message is fragment t of the stream.
    ghost predicate Carries(m: C.Msg, t: nat)
      reads receiver`stream
    {
      m.channel == channel && m.sn == t && Carried(m, receiver.stream)
    }

    // Whatever the receiver lacks from the expected number on is with the sender.
    lemma MissingMessage(t: nat) returns (m: C.Msg)
      requires Valid() && receiver.ExpectedSequenceNumber() <= t < State().Memo()
      ensures m in sender.Outstanding() && Carries(m, t)
    {
      hide Carried, C.Connection.Valid, R.Receiver.Core, Stream;
      PrefixEndUnique(receiver.accepted, receiver.initial, receiver.ExpectedSequenceNumber());
      assert Unacked(State(), t);
      m :| m in sender.Outstanding() && m.channel == channel && m.sn == t;
      CarriedOne(sender.Outstanding(), channel, receiver.stream, m);
    }

    // Fragment t is with the sender, and has gone out again exactly if it was an
    // RTO old.
    twostate predicate Resent(t: nat, now: real, rto: real)
      requires old(sender.queued) <= sender.queued
      reads receiver`stream, sender`queued
    {
      exists m :: Carries(m, t) && m in old(sender.Outstanding())
        && (m in sender.queued[|old(sender.queued)|..]
            <==> now - old(SB.TimeOf(sender.senderBuffer.registrationTime, m)) >= rto)
    }

    // After a retransmission timeout nothing that the system state shows has
    // changed, and every fragment that the receiver lacks from the expected number
    // on has gone out again, as it was sent, once it is an RTO old.
    method RtoTimeout(now: real, rto: real)
      requires Valid()
      modifies sender, sender.senderBuffer
      ensures Valid() && State() == old(State())
      ensures old(sender.queued) <= sender.queued
      ensures forall t: nat | receiver.ExpectedSequenceNumber() <= t < State().Memo() :: Resent(t, now, rto)
    {
      hide Session.SenderCarries, SB.TreesAgree, R.TreeHolds, R.SetsHold, MessageSets.Represents, C.MessageOk;
      hide Carried;
      sender.RtoTimeout(now, rto);
      StillCarried();
      forall t: nat | receiver.ExpectedSequenceNumber() <= t < State().Memo()
        ensures Resent(t, now, rto)
      {
        var m := MissingMessage(t);
        assert Carries(m, t) && m in old(sender.Outstanding());
      }
    }

    // When the sender closes gracefully and its RST goes out, the receiver's
    // application has been handed every message, in order.
    lemma RstMeansDelivered()
      requires Valid() && sender.RstQueued()
      ensures receiver.emitted == msgs
    {
      StateDelivered(State());
      PrefixEndUnique(receiver.accepted, receiver.initial, receiver.ExpectedSequenceNumber());
    }
  }
}
