/** The sending side of a connection (EmiConn.h together with its
    EmiLogicalConnection.h): opening, splitting and numbering messages,
    acknowledgements, retransmission and closing. */
module Connection {
  import opened NetUtil
  import opened Options
  import opened Streams
  import SB = SenderBuffer

  type Msg = SB.Msg
  type Key = SB.Key

  const CONTROL_CHANNEL: int := -1

  datatype ConnType = Server | Client | P2P

  datatype Reason = ThisHostClosed | OtherHostClosed | TimedOut

  // EMI_CHANNEL_QUALIFIER_TYPE: the two highest bits of the qualifier.
  predicate IsQualifier(cq: int) { 0 <= cq < 256 }

  predicate IsReliable(cq: int) { cq / 64 == 2 || cq / 64 == 3 }

  predicate IsReliableSequenced(cq: int) { cq / 64 == 2 }

  datatype ChannelType = Unreliable | UnreliableSequenced | ReliableSequenced | ReliableOrdered

  // EMI_CHANNEL_QUALIFIER, for one of the 32 channels of each type.
  function Qualifier(t: ChannelType, number: nat): int
    requires number < 32
  {
    match t
    case Unreliable => number
    case UnreliableSequenced => 0x40 + number
    case ReliableSequenced => 0x80 + number
    case ReliableOrdered => 0xC0 + number
  }

  lemma QualifierTypes(t: ChannelType, number: nat)
    requires number < 32
    ensures IsQualifier(Qualifier(t, number))
    ensures IsReliable(Qualifier(t, number)) <==> t.ReliableSequenced? || t.ReliableOrdered?
    ensures IsReliableSequenced(Qualifier(t, number)) <==> t.ReliableSequenced?
  {
  }

  // ----- the messages that one call of enqueueMessage makes

  function PartMsg(channel: int, sn: nat, data: Data, i: nat): Msg
    requires data != [] && i < NumMessages(|data|)
  {
    var f := Part(data, i);
    SB.Msg(channel, sn + i, SB.DataPart(f.first, f.last), f.data)
  }

  function PartMsgs(channel: int, sn: nat, data: Data, n: nat): (s: seq<Msg>)
    requires data != [] && n <= NumMessages(|data|)
    ensures |s| == n
    ensures forall i | 0 <= i < n :: s[i] == PartMsg(channel, sn, data, i)
  {
    seq(n, i requires 0 <= i < n => PartMsg(channel, sn, data, i))
  }

  // What the other host takes a data message for.
  function FragmentOf(m: Msg): Fragment
    requires m.kind.DataPart?
  {
    Fragment(m.kind.first, m.kind.last, m.data)
  }

  predicate AllParts(sent: seq<Msg>) {
    forall i | 0 <= i < |sent| :: sent[i].kind.DataPart?
  }

  function FragmentsOf(sent: seq<Msg>): seq<Fragment>
    requires AllParts(sent)
  {
    seq(|sent|, i requires 0 <= i < |sent| => FragmentOf(sent[i]))
  }

  // The messages sent are numbered from sn on, and the other host puts them
  // together to data and nothing else.
  ghost predicate Carry(sent: seq<Msg>, channel: int, sn: nat, data: Data) {
    && AllParts(sent) && (forall i | 0 <= i < |sent| :: sent[i].channel == channel && sent[i].sn == sn + i)
    && WellFormed(FragmentsOf(sent)) && Messages(FragmentsOf(sent), |sent|) == [data]
  }

  lemma PartsCarry(channel: int, sn: nat, data: Data)
    requires data != []
    ensures var parts := PartMsgs(channel, sn, data, NumMessages(|data|));
      AllParts(parts) && FragmentsOf(parts) == Split(data) && Carry(parts, channel, sn, data)
  {
    hide Messages, WellFormed;
    var parts := PartMsgs(channel, sn, data, NumMessages(|data|));
    assert FragmentsOf(parts) == Split(data);
    SplitWellFormed(data);
    var none: seq<Data> := [];
    assert [data][..0] == none && Stream([data]) == Stream([data][..0]) + Split(data) == Split(data);
    MessagesOfStream([data]);
  }

  // The room that the first i parts take.
  function PartBytes(data: Data, i: nat): nat
    requires data != [] && i <= NumMessages(|data|)
  {
    (if i == NumMessages(|data|) then |data| else i * MAX_MESSAGE_LENGTH) + i * SB.MAXIMAL_HEADER_SIZE
  }

  lemma PartBytesStep(channel: int, sn: nat, data: Data, i: nat)
    requires data != [] && i < NumMessages(|data|)
    ensures PartBytes(data, i + 1) == PartBytes(data, i) + SB.MsgSize(PartMsg(channel, sn, data, i))
    ensures PartBytes(data, i + 1) <= |data| + NumMessages(|data|) * SB.MAXIMAL_HEADER_SIZE
  {
  }

  lemma PartNumbers(channel: int, sn: nat, data: Data)
    requires data != []
    ensures var n := NumMessages(|data|); var parts := SB.ToSet(PartMsgs(channel, sn, data, n));
      && (forall m | m in parts :: m.channel == channel && sn <= m.sn < sn + n)
      && SB.HasKey(parts, channel, sn + n - 1)
  {
    var n := NumMessages(|data|);
    assert PartMsgs(channel, sn, data, n)[n - 1] in SB.ToSet(PartMsgs(channel, sn, data, n));
  }

  function Memo(memo: map<int, nat>, initialSn: nat, cq: int): nat {
    if cq in memo then memo[cq] else initialSn
  }

  // Where unacknowledged messages can come from.
  ghost predicate MessageOk(m: Msg, initialSn: nat, handshake: Option<nat>, memo: map<int, nat>) {
    if m.channel == CONTROL_CHANNEL
    then m.sn == initialSn && !m.kind.DataPart?
         && if m.kind.Rst? then m.data == [] else handshake == Some(initialSn)
    else IsQualifier(m.channel) && m.sn < Memo(memo, initialSn, m.channel) && m.kind.DataPart?
  }

  // What a new message on the channel leaves outstanding.
  ghost function Kept(buf: set<Msg>, cq: int): set<Msg> {
    if IsReliableSequenced(cq) then set m | m in buf && m.channel != cq else buf
  }

  // What cancelling the handshake leaves outstanding.
  ghost function WithoutHandshake(buf: set<Msg>, handshake: Option<nat>, initialSn: nat): set<Msg> {
    if handshake.Some? then SB.AfterDeregister(buf, CONTROL_CHANNEL, initialSn) else buf
  }

  // Of a channel whose next number is next, the newest message is outstanding if
  // anything is.
  ghost predicate NewestKept(buf: set<Msg>, cq: int, next: nat) {
    forall m | m in buf && m.channel == cq :: m.sn < next && SB.HasKey(buf, cq, next - 1)
  }

  // What the acks of RELIABLE_SEQUENCED channels are unwrapped against: for a
  // channel that has sent, the number of its next message.
  ghost predicate RefOk(buf: set<Msg>, memo: map<int, nat>, refs: map<int, nat>, cq: int) {
    if IsReliableSequenced(cq) && cq in memo
    then cq in refs && refs[cq] == memo[cq] && NewestKept(buf, cq, memo[cq])
    else (cq in refs ==> refs[cq] == 0) && (IsReliableSequenced(cq) ==> forall m | m in buf :: m.channel != cq)
  }

  ghost predicate RefsOk(buf: set<Msg>, memo: map<int, nat>, refs: map<int, nat>) {
    forall cq: int :: RefOk(buf, memo, refs, cq)
  }

  lemma RefsDeregistered(buf: set<Msg>, memo: map<int, nat>, refs: map<int, nat>, channel: int, sn: nat)
    requires RefsOk(buf, memo, refs)
    ensures RefsOk(SB.AfterDeregister(buf, channel, sn), memo, refs)
  {
    var left := SB.AfterDeregister(buf, channel, sn);
    forall cq: int
      ensures RefOk(left, memo, refs, cq)
    {
      assert RefOk(buf, memo, refs, cq);
      if IsReliableSequenced(cq) && cq in memo && exists m :: m in left && m.channel == cq {
        assert SB.HasKey(buf, cq, memo[cq] - 1);
        var newest :| newest in buf && newest.channel == cq && newest.sn == memo[cq] - 1;
        assert newest in left;
      }
    }
  }

  // What happens on other channels makes no difference.
  lemma RefElsewhere(buf: set<Msg>, buf': set<Msg>, memo: map<int, nat>, memo': map<int, nat>,
                     refs: map<int, nat>, refs': map<int, nat>, cq: int)
    requires RefOk(buf, memo, refs, cq)
    requires forall m: Msg | m.channel == cq :: m in buf' <==> m in buf
    requires (cq in memo' <==> cq in memo) && (cq in memo ==> memo'[cq] == memo[cq])
    requires (cq in refs' <==> cq in refs) && (cq in refs ==> refs'[cq] == refs[cq])
    ensures RefOk(buf', memo', refs', cq)
  {
    if IsReliableSequenced(cq) && cq in memo && exists m :: m in buf' && m.channel == cq {
      assert SB.HasKey(buf, cq, memo[cq] - 1);
      var newest :| newest in buf && newest.channel == cq && newest.sn == memo[cq] - 1;
      assert newest in buf';
    }
  }

  // Control messages are on no such channel.
  lemma RefsControl(buf: set<Msg>, buf': set<Msg>, memo: map<int, nat>, refs: map<int, nat>)
    requires RefsOk(buf, memo, refs)
    requires forall m: Msg | m.channel != CONTROL_CHANNEL :: m in buf' <==> m in buf
    ensures RefsOk(buf', memo, refs)
  {
    forall cq: int
      ensures RefOk(buf', memo, refs, cq)
    {
      assert RefOk(buf, memo, refs, cq);
      if cq != CONTROL_CHANNEL {
        RefElsewhere(buf, buf', memo, memo, refs, refs, cq);
      }
    }
  }

  // Sending on such a channel moves its reference on, and leaves the new message,
  // whose last part has the newest number.
  lemma RefsSent(buf: set<Msg>, memo: map<int, nat>, refs: map<int, nat>, cq: int, parts: set<Msg>, next: nat)
    requires RefsOk(buf, memo, refs) && IsReliableSequenced(cq) && next > 0
    requires (forall m | m in parts :: m.channel == cq && m.sn < next) && SB.HasKey(parts, cq, next - 1)
    ensures RefsOk(parts + Kept(buf, cq), memo[cq := next], refs[cq := next])
  {
    var buf', memo', refs' := parts + Kept(buf, cq), memo[cq := next], refs[cq := next];
    forall k: int
      ensures RefOk(buf', memo', refs', k)
    {
      assert RefOk(buf, memo, refs, k);
      if k == cq {
        var newest :| newest in parts && newest.channel == cq && newest.sn == next - 1;
        assert newest in buf';
      } else {
        RefElsewhere(buf, buf', memo, memo', refs, refs', k);
      }
    }
  }

  lemma RefsSentElsewhere(buf: set<Msg>, memo: map<int, nat>, refs: map<int, nat>, cq: int, parts: set<Msg>, next: nat)
    requires RefsOk(buf, memo, refs) && !IsReliableSequenced(cq)
    requires forall m | m in parts :: m.channel == cq
    ensures RefsOk(buf + parts, memo[cq := next], refs)
  {
    var buf', memo' := buf + parts, memo[cq := next];
    forall k: int
      ensures RefOk(buf', memo', refs, k)
    {
      assert RefOk(buf, memo, refs, k);
      if k != cq {
        RefElsewhere(buf, buf', memo, memo', refs, refs, k);
      }
    }
  }

  lemma RefsAfterSend(buf: set<Msg>, memo: map<int, nat>, refs: map<int, nat>, cq: int, sn: nat, data: Data)
    requires RefsOk(buf, memo, refs) && data != []
    ensures var n := NumMessages(|data|); var parts := SB.ToSet(PartMsgs(cq, sn, data, n));
      if IsReliableSequenced(cq) then RefsOk(parts + Kept(buf, cq), memo[cq := sn + n], refs[cq := sn + n])
      else RefsOk(buf + if IsReliable(cq) then parts else {}, memo[cq := sn + n], refs)
  {
    var n := NumMessages(|data|);
    var parts := SB.ToSet(PartMsgs(cq, sn, data, n));
    PartNumbers(cq, sn, data);
    if IsReliableSequenced(cq) {
      RefsSent(buf, memo, refs, cq, parts, sn + n);
    } else {
      RefsSentElsewhere(buf, memo, refs, cq, if IsReliable(cq) then parts else {}, sn + n);
    }
  }

  // An ack on a channel without an entry makes one.
  lemma RefsLookedUp(buf: set<Msg>, memo: map<int, nat>, refs: map<int, nat>, cq: int)
    requires RefsOk(buf, memo, refs) && cq !in refs
    ensures RefsOk(buf, memo, refs[cq := 0])
  {
    var refs' := refs[cq := 0];
    forall k: int
      ensures RefOk(buf, memo, refs', k)
    {
      assert RefOk(buf, memo, refs, k);
    }
  }

  // The ack of the newest number sent forgets the whole channel, unless that is
  // the last number of its block. Then the number is not recovered, and nothing
  // is forgotten.
  lemma NewestAck(buf: set<Msg>, memo: map<int, nat>, refs: map<int, nat>, cq: int)
    requires RefsOk(buf, memo, refs) && IsReliableSequenced(cq) && cq in memo && 0 < memo[cq]
    requires cq in refs ==> refs[cq] < TWO_64
    ensures cq in refs && refs[cq] < TWO_64
    ensures var left := SB.AfterDeregister(buf, cq, GuessFromReference(refs[cq], Wrap(memo[cq] - 1)));
      if memo[cq] % BLOCK != 0 then left == set m | m in buf && m.channel != cq else left == buf
  {
    assert RefOk(buf, memo, refs, cq);
    var t := memo[cq] - 1;
    AckUnwrapExact(memo[cq], t);
    SameBlock(memo[cq]);
    assert GuessFromReference(refs[cq], Wrap(t)) == if memo[cq] % BLOCK != 0 then t else t + 1;
    if memo[cq] % BLOCK != 0 && !SB.HasAtOrAbove(buf, cq, t) {
      forall m | m in buf
        ensures m.channel != cq
      {
        assert m.channel == cq ==> SB.HasKey(buf, cq, t);
      }
    }
  }

  lemma SameBlock(n: nat)
    requires n > 0
    ensures n / BLOCK == (n - 1) / BLOCK <==> n % BLOCK != 0
    ensures n % BLOCK == 0 ==> Wrap(n - 1) == MASK
  {
  }

  // Releasing the handshake message frees its bytes, if it is still outstanding.
  lemma BytesReleased(s: seq<Msg>, t: seq<Msg>, handshake: Option<nat>, initialSn: nat)
    requires SB.Ordered(s, SB.LessKey) && SB.Ordered(t, SB.LessKey)
    requires SB.ToSet(t) == WithoutHandshake(SB.ToSet(s), handshake, initialSn)
    requires forall m | m in s && m.channel == CONTROL_CHANNEL :: m.sn == initialSn
    ensures handshake.None? || (forall m | m in s :: m.channel != CONTROL_CHANNEL) ==> SB.Bytes(t) == SB.Bytes(s)
    ensures handshake.Some? ==>
      forall m | m in s && m.channel == CONTROL_CHANNEL :: SB.Bytes(t) == SB.Bytes(s) - SB.MsgSize(m)
  {
    if handshake.None? || forall m | m in s :: m.channel != CONTROL_CHANNEL {
      SB.OneOrder(s, t);
    } else {
      forall m | m in s && m.channel == CONTROL_CHANNEL
        ensures SB.Bytes(t) == SB.Bytes(s) - SB.MsgSize(m)
      {
        forall x | x in s && x != m
          ensures x.channel != CONTROL_CHANNEL
        {
          SB.DistinctKeys(s, x, m);
        }
        assert SB.HasAtOrAbove(SB.ToSet(s), CONTROL_CHANNEL, initialSn);
        SB.BytesOfOneLess(s, t, m);
      }
    }
  }

  // ----- the class

  class Connection {
    const connType: ConnType
    const initialSn: nat
    const senderBuffer: SB.SenderBuffer
    var open: bool                          // _conn is not NULL
    var closing: bool
    var sendingSyn: bool
    var reliableHandshakeMsgSn: Option<nat>
    var sequenceMemo: map<int, nat>
    var reliableSequencedBuffer: map<int, nat>
    var forceCloseScheduled: bool
    var queued: seq<Msg>                    // what was handed to the send queue
    var openedEvents: seq<bool>             // connectionOpened callbacks, by error flag
    var disconnectEvents: seq<Reason>

    function MemoFor(cq: int): nat
      reads this
    {
      Memo(sequenceMemo, initialSn, cq)
    }

    function RstMsg(): Msg
    {
      SB.Msg(CONTROL_CHANNEL, initialSn, SB.Rst, [])
    }

    ghost function Outstanding(): set<Msg>
      reads this, senderBuffer
    {
      senderBuffer.Contents()
    }

    ghost predicate RstQueued()
      reads this
    {
      exists m :: m in queued && m.kind.Rst?
    }

    // What holds at every point inside a step as well.
    ghost predicate Loose()
      reads this, senderBuffer
    {
      && initialSn < BLOCK
      && senderBuffer.Valid() && senderBuffer.AllIndexed()
      && (forall m | m in Outstanding() :: MessageOk(m, initialSn, reliableHandshakeMsgSn, sequenceMemo))
      && (forall cq | cq in sequenceMemo :: sequenceMemo[cq] >= initialSn)
      && (reliableHandshakeMsgSn.Some? ==> reliableHandshakeMsgSn.value == initialSn && connType != Server)
      && (closing ==> open)
      && (sendingSyn ==> open && connType != Server)
      // The callback of an initiator fires once, the disconnect event once.
      && |openedEvents| == (if connType != Server && !sendingSyn then 1 else 0)
      && |disconnectEvents| == (if open then 0 else 1)
      // An RST is queued only when it is the one message outstanding.
      && (RstQueued() && open ==> closing && Outstanding() == {RstMsg()})
      && (RstMsg() in Outstanding() && open ==> RstQueued())
    }

    // Between close and closed something is always outstanding (if the buffer
    // has room for the RST at all).
    ghost predicate ClosePending()
      reads this, senderBuffer
    {
      closing && senderBuffer.size >= SB.MAXIMAL_HEADER_SIZE ==> Outstanding() != {}
    }

    // What acks on RELIABLE_SEQUENCED channels need.
    ghost predicate Referenced()
      reads this`sequenceMemo, this`reliableSequencedBuffer, senderBuffer
    {
      RefsOk(senderBuffer.Contents(), sequenceMemo, reliableSequencedBuffer)
    }

    ghost predicate Valid()
      reads this, senderBuffer
    {
      Steady() && Referenced()
    }

    ghost predicate Steady()
      reads this, senderBuffer
    {
      && Loose()
      && ClosePending()
      && (reliableHandshakeMsgSn.Some? ==> !closing)
      && (closing ==> !sendingSyn)
    }

    // A server answers a SYN; the others send one, which is a reliable message.
    constructor (connType: ConnType, size: nat, initialSn: nat, cookie: Data, now: real)
      requires initialSn < BLOCK
      requires connType != Server ==> SB.MAXIMAL_HEADER_SIZE + |cookie| <= size
      requires |cookie| <= MAX_MESSAGE_LENGTH
      ensures Valid() && open && !closing && fresh(senderBuffer)
      ensures this.connType == connType && this.initialSn == initialSn && senderBuffer.size == size
      ensures sendingSyn == (connType != Server) && sequenceMemo == map[]
      ensures reliableHandshakeMsgSn == if connType == Server then None else Some(initialSn)
      ensures !forceCloseScheduled && reliableSequencedBuffer == map[] && openedEvents == [] && disconnectEvents == []
      ensures queued == [SB.Msg(CONTROL_CHANNEL, initialSn, if connType == Server then SB.SynRst else SB.Syn,
                                if connType == Server then [] else cookie)]
      ensures Outstanding() == if connType == Server then {} else {queued[0]}
    {
      this.connType, this.initialSn := connType, initialSn;
      open, closing, sendingSyn := true, false, connType != Server;
      reliableHandshakeMsgSn := None;
      sequenceMemo, reliableSequencedBuffer := map[], map[];
      forceCloseScheduled, queued, openedEvents, disconnectEvents := false, [], [], [];
      senderBuffer := new SB.SenderBuffer(size);
      new;
      SendInitMessage(now, cookie);
    }

    // ----- helpers

    lemma AboveMemo(cq: int)
      requires Steady() && IsQualifier(cq)
      ensures forall sn: nat | sn >= MemoFor(cq) :: !SB.HasAtOrAbove(Outstanding(), cq, sn)
      ensures forall m | m in Outstanding() && m.channel == cq :: m.sn < MemoFor(cq)
    {
    }

    // Splits the data, registers the parts if they are reliable, and hands
    // them to the send queue. Returns 0 if there was no room for them.
    method EnqueueData(now: real, cq: int, sn: nat, data: Data, reliable: bool) returns (numMessages: nat)
      requires data != [] && IsQualifier(cq)
      requires senderBuffer.Valid() && senderBuffer.AllIndexed()
      requires forall k: nat | k >= sn :: !SB.HasAtOrAbove(Outstanding(), cq, k)
      modifies this`queued, senderBuffer
      ensures senderBuffer.Valid() && senderBuffer.AllIndexed()
      ensures numMessages == 0 <==> reliable && !old(senderBuffer.FitsIntoBuffer(|data|, NumMessages(|data|)))
      ensures numMessages == 0 ==> queued == old(queued) && Outstanding() == old(Outstanding())
      ensures numMessages > 0 ==>
        && numMessages == NumMessages(|data|)
        && queued == old(queued) + PartMsgs(cq, sn, data, numMessages)
        && Outstanding() == old(Outstanding())
             + if reliable then SB.ToSet(PartMsgs(cq, sn, data, numMessages)) else {}
    {
      hide SB.SenderBuffer.Valid, SB.SenderBuffer.AllIndexed, NumMessages;
      numMessages := NumMessages(|data|);
      if reliable && !senderBuffer.FitsIntoBuffer(|data|, numMessages) {
        return 0;
      }
      ghost var buf := Outstanding();
      for i := 0 to numMessages
        invariant senderBuffer.Valid() && senderBuffer.AllIndexed()
        invariant queued == old(queued) + PartMsgs(cq, sn, data, i)
        invariant Outstanding() == buf + if reliable then SB.ToSet(PartMsgs(cq, sn, data, i)) else {}
        invariant reliable ==> senderBuffer.sendBufferSize == old(senderBuffer.sendBufferSize) + PartBytes(data, i)
      {
        var msg := PartMsg(cq, sn, data, i);
        assert PartMsgs(cq, sn, data, i + 1) == PartMsgs(cq, sn, data, i) + [msg];
        if reliable {
          PartBytesStep(cq, sn, data, i);
          NoneAtOrAbove(buf, cq, sn, data, i);
          var ok := senderBuffer.RegisterReliableMessage(msg, now);
          assert ok;
        }
        queued := queued + [msg];
      }
    }

    lemma NoneAtOrAbove(buf: set<Msg>, cq: int, sn: nat, data: Data, i: nat)
      requires data != [] && i < NumMessages(|data|)
      requires forall k: nat | k >= sn :: !SB.HasAtOrAbove(buf, cq, k)
      ensures !SB.HasAtOrAbove(buf + SB.ToSet(PartMsgs(cq, sn, data, i)), cq, sn + i)
      ensures !SB.HasKey(buf + SB.ToSet(PartMsgs(cq, sn, data, i)), cq, sn + i)
    {
      assert !SB.HasAtOrAbove(buf, cq, sn + i);
      forall m | m in buf && m.channel == cq
        ensures m.sn < sn + i
      {
      }
    }

    // Control messages are not split.
    method EnqueueControl(now: real, msg: Msg, reliable: bool) returns (ok: bool)
      requires senderBuffer.Valid() && senderBuffer.AllIndexed()
      requires msg.channel == CONTROL_CHANNEL && |msg.data| <= MAX_MESSAGE_LENGTH
      requires reliable ==> forall m | m in Outstanding() :: m.channel != CONTROL_CHANNEL
      modifies this`queued, senderBuffer
      ensures senderBuffer.Valid() && senderBuffer.AllIndexed()
      ensures ok <==> !reliable || old(senderBuffer.sendBufferSize) + SB.MsgSize(msg) <= senderBuffer.size
      ensures queued == if ok then old(queued) + [msg] else old(queued)
      ensures Outstanding() == old(Outstanding()) + if ok && reliable then {msg} else {}
      ensures old(Referenced()) ==> Referenced()
    {
      hide RefsOk, SB.SenderBuffer.AllIndexed;
      if old(Referenced()) {
        RefsControl(Outstanding(), Outstanding() + {msg}, sequenceMemo, reliableSequencedBuffer);
      }
      if reliable {
        if !senderBuffer.FitsIntoBuffer(|msg.data|, 1) {
          return false;
        }
        var registered := senderBuffer.RegisterReliableMessage(msg, now);
        assert registered;
      }
      queued := queued + [msg];
      ok := true;
    }

    // Sends SYN, or for a server SYN-RST, which is not a reliable message. It
    // is only called while no handshake message is outstanding.
    method SendInitMessage(now: real, cookie: Data)
      requires Valid() && open && |cookie| <= MAX_MESSAGE_LENGTH
      requires reliableHandshakeMsgSn.None? && (sendingSyn ==> Outstanding() == {})
      requires sendingSyn ==> senderBuffer.sendBufferSize + SB.MAXIMAL_HEADER_SIZE + |cookie| <= senderBuffer.size
      modifies this`queued, this`reliableHandshakeMsgSn, senderBuffer
      ensures Valid()
      ensures var syn := SB.Msg(CONTROL_CHANNEL, initialSn, SB.Syn, cookie);
        if sendingSyn
        then queued == old(queued) + [syn] && Outstanding() == {syn} && reliableHandshakeMsgSn == Some(initialSn)
        else queued == old(queued) + [SB.Msg(CONTROL_CHANNEL, initialSn, SB.SynRst, [])]
             && Outstanding() == old(Outstanding()) && reliableHandshakeMsgSn.None?
    {
      hide Connection.Referenced;
      if sendingSyn {
        reliableHandshakeMsgSn := Some(initialSn);
      }
      var msg := SB.Msg(CONTROL_CHANNEL, initialSn,
                        if sendingSyn then SB.Syn else SB.SynRst, if sendingSyn then cookie else []);
      var ok := EnqueueControl(now, msg, sendingSyn);
      assert ok;
    }

    method EnqueueCloseMessageIfEmptySenderBuffer(now: real) returns (ok: bool)
      requires Loose() && closing
      modifies this`queued, senderBuffer
      ensures Loose() && ClosePending()
      ensures ok <==> old(Outstanding()) != {} || senderBuffer.size >= SB.MAXIMAL_HEADER_SIZE
      ensures Outstanding() == if old(Outstanding()) == {} && ok then {RstMsg()} else old(Outstanding())
      ensures queued == if old(Outstanding()) == {} && ok then old(queued) + [RstMsg()] else old(queued)
      ensures old(Referenced()) ==> Referenced()
    {
      hide Connection.Referenced;
      var empty := senderBuffer.Empty();
      if !empty {
        return true;
      }
      ok := EnqueueControl(now, RstMsg(), true);
      if ok {
        assert queued[|queued| - 1] == RstMsg();
      }
    }

    // Forgets acknowledged messages; the last one to go while closing makes
    // room for the RST.
    method DeregisterReliableMessages(now: real, channel: int, sn: nat)
      requires Loose() && open && (channel == CONTROL_CHANNEL ==> !RstQueued())
      modifies this`queued, this`forceCloseScheduled, senderBuffer
      ensures Loose() && ClosePending()
      ensures var left := SB.AfterDeregister(old(Outstanding()), channel, sn);
        if closing && left == {} && senderBuffer.size >= SB.MAXIMAL_HEADER_SIZE
        then Outstanding() == {RstMsg()} && queued == old(queued) + [RstMsg()]
        else Outstanding() == left && queued == old(queued)
      ensures forceCloseScheduled ==
        (old(forceCloseScheduled)
         || (closing && SB.AfterDeregister(old(Outstanding()), channel, sn) == {}
             && senderBuffer.size < SB.MAXIMAL_HEADER_SIZE))
      ensures !closing ==>
        && senderBuffer.sendBufferSize <= old(senderBuffer.sendBufferSize)
        && forall m | m in old(Outstanding()) && m !in Outstanding() ::
             senderBuffer.sendBufferSize <= old(senderBuffer.sendBufferSize) - SB.MsgSize(m)
      ensures old(Referenced()) ==> Referenced()
    {
      hide RefsOk, SB.TreesAgree, SB.Bytes;
      if old(Referenced()) {
        RefsDeregistered(Outstanding(), sequenceMemo, reliableSequencedBuffer, channel, sn);
      }
      senderBuffer.DeregisterReliableMessages(channel, sn);
      if closing {
        var ok := EnqueueCloseMessageIfEmptySenderBuffer(now);
        if !ok {
          forceCloseScheduled := true;
        }
      }
    }

    method ReleaseReliableHandshakeMsg(now: real)
      requires Loose() && open && (reliableHandshakeMsgSn.Some? ==> !RstQueued())
      modifies this`queued, this`forceCloseScheduled, this`reliableHandshakeMsgSn, senderBuffer
      ensures Loose() && reliableHandshakeMsgSn.None?
      ensures !closing || old(reliableHandshakeMsgSn).Some? ==> ClosePending()
      ensures var left := WithoutHandshake(old(Outstanding()), old(reliableHandshakeMsgSn), initialSn);
        if closing && left == {} && senderBuffer.size >= SB.MAXIMAL_HEADER_SIZE && old(reliableHandshakeMsgSn).Some?
        then Outstanding() == {RstMsg()} && queued == old(queued) + [RstMsg()]
        else Outstanding() == left && queued == old(queued)
      ensures !closing ==>
        && senderBuffer.sendBufferSize <= old(senderBuffer.sendBufferSize)
        && forall m | m in old(Outstanding()) && m !in Outstanding() ::
             senderBuffer.sendBufferSize <= old(senderBuffer.sendBufferSize) - SB.MsgSize(m)
      ensures old(Referenced()) ==> Referenced()
    {
      hide Connection.Referenced;
      if reliableHandshakeMsgSn.Some? {
        ghost var left := SB.AfterDeregister(Outstanding(), CONTROL_CHANNEL, initialSn);
        forall m | m in left
          ensures m.channel != CONTROL_CHANNEL
        {
          assert MessageOk(m, initialSn, reliableHandshakeMsgSn, sequenceMemo);
          if m.channel == CONTROL_CHANNEL {
            assert false;
          }
        }
        DeregisterReliableMessages(now, CONTROL_CHANNEL, reliableHandshakeMsgSn.value);
        reliableHandshakeMsgSn := None;
      }
    }

    // ----- what the application calls

    // The logical connection's send: numbers the message and enqueues its parts.
    method SendNumbered(now: real, cq: int, data: Data) returns (ok: bool)
      requires Valid() && IsQualifier(cq) && open && !closing
      requires MemoFor(cq) + NumMessages(|data|) < TWO_64
      modifies this`queued, this`sequenceMemo, this`reliableSequencedBuffer, this`forceCloseScheduled, senderBuffer
      ensures Valid()
      ensures ok <==> data != []
                      && (IsReliable(cq) ==> old(senderBuffer.FitsIntoBuffer(|data|, NumMessages(|data|))))
      ensures !ok ==> queued == old(queued) && sequenceMemo == old(sequenceMemo) && Outstanding() == old(Outstanding())
      ensures ok ==>
        && queued == old(queued) + PartMsgs(cq, old(MemoFor(cq)), data, NumMessages(|data|))
        && sequenceMemo == old(sequenceMemo)[cq := old(MemoFor(cq)) + NumMessages(|data|)]
      // A message on a RELIABLE_SEQUENCED channel replaces the earlier ones.
      ensures ok && IsReliable(cq) ==>
        Outstanding() == SB.ToSet(PartMsgs(cq, old(MemoFor(cq)), data, NumMessages(|data|)))
          + Kept(old(Outstanding()), cq)
      ensures ok && !IsReliable(cq) ==> Outstanding() == old(Outstanding())
    {
      hide RefsOk, SB.TreesAgree, SB.AfterDeregister, NumMessages, Part, PartMsg, PartMsgs, MessageOk;
      if data == [] {
        return false;
      }
      ghost var buf := Outstanding();
      var prevSeqMemo := MemoFor(cq);
      AboveMemo(cq);
      var enqueuedMessages := EnqueueParts(now, cq, data);
      if enqueuedMessages == 0 {
        return false;
      }
      RefsAfterSend(buf, old(sequenceMemo), reliableSequencedBuffer, cq, prevSeqMemo, data);
      if IsReliableSequenced(cq) {
        ForgetOlder(now, cq, prevSeqMemo, data, buf);
        reliableSequencedBuffer := reliableSequencedBuffer[cq := prevSeqMemo + enqueuedMessages];
      }
      ok := true;
    }

    // Enqueues the parts under the channel's next numbers.
    method EnqueueParts(now: real, cq: int, data: Data) returns (numMessages: nat)
      requires Steady() && IsQualifier(cq) && open && !closing && data != []
      modifies this`queued, this`sequenceMemo, senderBuffer
      ensures Steady()
      ensures numMessages == 0 <==>
        IsReliable(cq) && !old(senderBuffer.FitsIntoBuffer(|data|, NumMessages(|data|)))
      ensures numMessages == 0 ==>
        queued == old(queued) && sequenceMemo == old(sequenceMemo) && Outstanding() == old(Outstanding())
      ensures numMessages > 0 ==>
        && numMessages == NumMessages(|data|)
        && queued == old(queued) + PartMsgs(cq, old(MemoFor(cq)), data, numMessages)
        && sequenceMemo == old(sequenceMemo)[cq := old(MemoFor(cq)) + numMessages]
        && Outstanding() == old(Outstanding())
             + if IsReliable(cq) then SB.ToSet(PartMsgs(cq, old(MemoFor(cq)), data, numMessages)) else {}
    {
      hide SB.TreesAgree, NumMessages, Part, PartMsg, PartMsgs, MessageOk;
      ghost var buf := Outstanding();
      var prevSeqMemo := MemoFor(cq);
      AboveMemo(cq);
      numMessages := EnqueueData(now, cq, prevSeqMemo, data, IsReliable(cq));
      if numMessages > 0 {
        ghost var parts := PartMsgs(cq, prevSeqMemo, data, numMessages);
        sequenceMemo := sequenceMemo[cq := prevSeqMemo + numMessages];
        StillOk(buf, parts, cq, data, old(sequenceMemo));
        assert !RstQueued();
        assert RstMsg() !in Outstanding();
      }
    }

    // Returns whether the message was accepted.
    method Send(now: real, cq: int, data: Data) returns (ok: bool)
      requires Valid() && IsQualifier(cq)
      requires MemoFor(cq) + NumMessages(|data|) < TWO_64
      modifies this`queued, this`sequenceMemo, this`reliableSequencedBuffer, this`forceCloseScheduled, senderBuffer
      ensures Valid()
      ensures ok <==> open && !closing && data != []
                      && (IsReliable(cq) ==> old(senderBuffer.FitsIntoBuffer(|data|, NumMessages(|data|))))
      ensures !ok ==> queued == old(queued) && sequenceMemo == old(sequenceMemo) && Outstanding() == old(Outstanding())
      ensures ok ==>
        && queued == old(queued) + PartMsgs(cq, old(MemoFor(cq)), data, NumMessages(|data|))
        && sequenceMemo == old(sequenceMemo)[cq := old(MemoFor(cq)) + NumMessages(|data|)]
      ensures ok ==> Carry(queued[|old(queued)|..], cq, old(MemoFor(cq)), data)
      // A message on a RELIABLE_SEQUENCED channel replaces the earlier ones.
      ensures ok && IsReliable(cq) ==>
        Outstanding() == SB.ToSet(PartMsgs(cq, old(MemoFor(cq)), data, NumMessages(|data|)))
          + Kept(old(Outstanding()), cq)
      ensures ok && !IsReliable(cq) ==> Outstanding() == old(Outstanding())
    {
      hide Connection.Steady, Connection.Referenced, PartMsgs, NumMessages, Carry, Split;
      if !open || closing {
        return false;
      }
      ghost var sn := MemoFor(cq);
      ok := SendNumbered(now, cq, data);
      if ok {
        PartsCarry(cq, sn, data);
        assert queued[|old(queued)|..] == PartMsgs(cq, sn, data, NumMessages(|data|));
      }
    }

    // On a RELIABLE_SEQUENCED channel a new message makes the earlier ones moot.
    method ForgetOlder(now: real, cq: int, prevSeqMemo: nat, data: Data, ghost buf: set<Msg>)
      requires Steady() && open && !closing && IsReliableSequenced(cq)
      requires data != [] && prevSeqMemo + NumMessages(|data|) < TWO_64
      requires forall m | m in buf && m.channel == cq :: m.sn < prevSeqMemo
      requires Outstanding() == buf + SB.ToSet(PartMsgs(cq, prevSeqMemo, data, NumMessages(|data|)))
      modifies this`queued, this`forceCloseScheduled, senderBuffer
      ensures Steady() && queued == old(queued)
      ensures Outstanding() == SB.ToSet(PartMsgs(cq, prevSeqMemo, data, NumMessages(|data|))) + Kept(buf, cq)
    {
      // prevSeqMemo - 1, in 64 bit unsigned arithmetic
      var older := if prevSeqMemo == 0 then TWO_64 - 1 else prevSeqMemo - 1;
      Replaced(buf, cq, prevSeqMemo, data, older);
      DeregisterReliableMessages(now, cq, older);
    }

    // Raising a channel's memo past the parts keeps every message in order.
    lemma StillOk(buf: set<Msg>, parts: seq<Msg>, cq: int, data: Data, memo: map<int, nat>)
      requires IsQualifier(cq) && data != []
      requires forall m | m in buf :: MessageOk(m, initialSn, reliableHandshakeMsgSn, memo)
      requires parts == PartMsgs(cq, Memo(memo, initialSn, cq), data, NumMessages(|data|))
      ensures var memo' := memo[cq := Memo(memo, initialSn, cq) + NumMessages(|data|)];
        && (forall m | m in buf :: MessageOk(m, initialSn, reliableHandshakeMsgSn, memo'))
        && (forall m | m in buf + SB.ToSet(parts) :: MessageOk(m, initialSn, reliableHandshakeMsgSn, memo'))
      ensures forall m | m in parts :: !m.kind.Rst?
    {
    }

    lemma Replaced(buf: set<Msg>, cq: int, prev: nat, data: Data, older: nat)
      requires data != [] && prev + NumMessages(|data|) < TWO_64 && IsReliableSequenced(cq)
      requires older == if prev == 0 then TWO_64 - 1 else prev - 1
      requires forall m | m in buf && m.channel == cq :: m.sn < prev
      ensures var parts := PartMsgs(cq, prev, data, NumMessages(|data|));
        SB.AfterDeregister(buf + SB.ToSet(parts), cq, older) == SB.ToSet(parts) + Kept(buf, cq)
    {
      var parts := PartMsgs(cq, prev, data, NumMessages(|data|));
      var both := buf + SB.ToSet(parts);
      forall m | m in parts
        ensures m.channel == cq && prev <= m.sn < prev + NumMessages(|data|)
      {
      }
      if prev == 0 {
        assert !SB.HasAtOrAbove(both, cq, older);
      } else {
        assert parts[0] in both && parts[0].sn >= older;
      }
    }

    // Starts closing; the RST follows when nothing is outstanding any more.
    method Close(now: real) returns (ok: bool)
      requires Valid()
      modifies this`closing, this`sendingSyn, this`openedEvents, this`queued, this`forceCloseScheduled,
               this`reliableHandshakeMsgSn, senderBuffer
      ensures Valid()
      ensures old(open) && !old(closing) ==> closing && (ok || senderBuffer.size < SB.MAXIMAL_HEADER_SIZE)
      ensures !(old(open) && !old(closing)) ==>
        !ok && closing == old(closing) && queued == old(queued) && Outstanding() == old(Outstanding())
      ensures openedEvents == old(openedEvents) + if old(sendingSyn) then [true] else []
      ensures !sendingSyn
      ensures old(open) && !old(closing) ==>
        var left := WithoutHandshake(old(Outstanding()), old(reliableHandshakeMsgSn), initialSn);
        if left == {} && senderBuffer.size >= SB.MAXIMAL_HEADER_SIZE
        then Outstanding() == {RstMsg()} && queued == old(queued) + [RstMsg()]
        else Outstanding() == left && queued == old(queued)
    {
      hide Connection.Referenced;
      if !open || closing {
        return false;
      }
      closing := true;
      ReleaseReliableHandshakeMsg(now);
      if sendingSyn {
        sendingSyn := false;
        openedEvents := openedEvents + [true];
      }
      ok := EnqueueCloseMessageIfEmptySenderBuffer(now);
    }

    // Closes without telling the other host.
    method ForceClose(reason: Reason)
      requires Valid()
      modifies this`open, this`closing, this`sendingSyn, this`openedEvents, this`disconnectEvents,
               this`reliableHandshakeMsgSn
      ensures Valid() && !open && !closing && !sendingSyn
      ensures openedEvents == old(openedEvents) + if old(sendingSyn) then [true] else []
      ensures disconnectEvents == old(disconnectEvents) + if old(open) then [reason] else []
    {
      hide Connection.Referenced;
      if open {
        open := false;
        if sendingSyn {
          sendingSyn := false;
          openedEvents := openedEvents + [true];
        }
        disconnectEvents := disconnectEvents + [reason];
        closing := false;
      }
    }

    // ----- what arrives

    // An acknowledgement on a RELIABLE_ORDERED channel.
    method GotOrderedAck(now: real, cq: int, ack: Seq24)
      requires Valid() && open && IsQualifier(cq) && MemoFor(cq) <= TWO_64
      modifies this`queued, this`forceCloseScheduled, senderBuffer
      ensures Valid()
      ensures var sn := GuessFromReference(if MemoFor(cq) == 0 then TWO_64 - 1 else MemoFor(cq) - 1, ack);
        var left := SB.AfterDeregister(old(Outstanding()), cq, sn);
        if closing && left == {} && senderBuffer.size >= SB.MAXIMAL_HEADER_SIZE
        then Outstanding() == {RstMsg()} && queued == old(queued) + [RstMsg()]
        else Outstanding() == left && queued == old(queued)
    {
      hide Connection.Referenced, GuessFromReference, SB.TreesAgree, SB.AfterDeregister, MessageOk;
      var reference := if MemoFor(cq) == 0 then TWO_64 - 1 else MemoFor(cq) - 1;
      DeregisterReliableMessages(now, cq, GuessFromReference(reference, ack));
    }

    // An acknowledgement on a RELIABLE_SEQUENCED channel.
    method GotReliableSequencedAck(now: real, cq: int, ack: Seq24)
      requires Valid() && open && IsQualifier(cq)
      requires cq in reliableSequencedBuffer ==> reliableSequencedBuffer[cq] < TWO_64
      modifies this`queued, this`forceCloseScheduled, this`reliableSequencedBuffer, senderBuffer
      ensures Valid()
      ensures var reference := if cq in old(reliableSequencedBuffer) then old(reliableSequencedBuffer)[cq] else 0;
        var left := SB.AfterDeregister(old(Outstanding()), cq, GuessFromReference(reference, ack));
        && reliableSequencedBuffer == old(reliableSequencedBuffer)[cq := reference]
        && if closing && left == {} && senderBuffer.size >= SB.MAXIMAL_HEADER_SIZE
           then Outstanding() == {RstMsg()} && queued == old(queued) + [RstMsg()]
           else Outstanding() == left && queued == old(queued)
      // The newest number sent, unless it is the last of its block: nothing of
      // the channel is outstanding any more.
      ensures IsReliableSequenced(cq) && cq in sequenceMemo && 0 < MemoFor(cq) && ack == Wrap(MemoFor(cq) - 1) ==>
        if MemoFor(cq) % BLOCK != 0
        then forall m | m in Outstanding() :: m.channel != cq
        else Outstanding() == old(Outstanding())
    {
      hide GuessFromReference, SB.TreesAgree, SB.AfterDeregister, MessageOk, RefsOk;
      if cq !in reliableSequencedBuffer {
        RefsLookedUp(Outstanding(), sequenceMemo, reliableSequencedBuffer, cq);
        reliableSequencedBuffer := reliableSequencedBuffer[cq := 0];
      }
      if IsReliableSequenced(cq) && cq in sequenceMemo && 0 < sequenceMemo[cq] {
        NewestAck(Outstanding(), sequenceMemo, reliableSequencedBuffer, cq);
      }
      DeregisterReliableMessages(now, cq, GuessFromReference(reliableSequencedBuffer[cq], ack));
    }

    // There is room for a PRX-ACK once the SYN is released.
    ghost predicate RoomForPrxAck(endpoint: Data)
      reads this, senderBuffer
    {
      var needed := SB.MAXIMAL_HEADER_SIZE + |endpoint|;
      || senderBuffer.sendBufferSize + needed <= senderBuffer.size
      || (reliableHandshakeMsgSn.Some?
          && exists m | m in Outstanding() && m.channel == CONTROL_CHANNEL ::
               senderBuffer.sendBufferSize - SB.MsgSize(m) + needed <= senderBuffer.size)
    }

    // SYN-RST: the connection is open. A P2P connection answers with a
    // reliable PRX-ACK that holds its inner endpoint. The code asserts that
    // there is room for it, and aborts if there is not.
    method GotSynRst(now: real, endpoint: Data) returns (ok: bool, asserted: bool)
      requires Valid() && |endpoint| <= MAX_MESSAGE_LENGTH
      modifies this`sendingSyn, this`openedEvents, this`queued, this`forceCloseScheduled,
               this`reliableHandshakeMsgSn, senderBuffer
      ensures Valid()
      ensures ok == old(sendingSyn) && !sendingSyn
      ensures asserted <==> ok && connType == P2P ==> old(RoomForPrxAck(endpoint))
      ensures openedEvents == old(openedEvents) + if ok then [false] else []
      ensures var prxAck := SB.Msg(CONTROL_CHANNEL, initialSn, SB.PrxAck, endpoint);
        var reply := if ok && connType == P2P && asserted then [prxAck] else [];
        && queued == old(queued) + reply
        && Outstanding() == SB.ToSet(reply)
             + if ok then WithoutHandshake(old(Outstanding()), old(reliableHandshakeMsgSn), initialSn)
               else old(Outstanding())
    {
      hide Connection.Referenced, SB.TreesAgree, SB.AfterDeregister, MessageOk;
      asserted := true;
      if !sendingSyn {
        return false, asserted;
      }
      ReleaseReliableHandshakeMsg(now);
      RoomAfterRelease(endpoint);
      sendingSyn := false;
      openedEvents := openedEvents + [false];
      if connType == P2P {
        asserted := EnqueuePrxAck(now, endpoint);
      }
      ok := true;
    }

    method EnqueuePrxAck(now: real, endpoint: Data) returns (ok: bool)
      requires Valid() && open && !closing && !sendingSyn && connType == P2P && |endpoint| <= MAX_MESSAGE_LENGTH
      requires reliableHandshakeMsgSn.None?
      modifies this`queued, this`reliableHandshakeMsgSn, senderBuffer
      ensures Valid()
      ensures ok <==> old(senderBuffer.sendBufferSize) + SB.MAXIMAL_HEADER_SIZE + |endpoint| <= senderBuffer.size
      ensures var msg := SB.Msg(CONTROL_CHANNEL, initialSn, SB.PrxAck, endpoint);
        if ok
        then queued == old(queued) + [msg] && Outstanding() == old(Outstanding()) + {msg}
        else queued == old(queued) && Outstanding() == old(Outstanding())
    {
      hide Connection.Referenced, SB.TreesAgree;
      NoControlOutstanding();
      var msg := SB.Msg(CONTROL_CHANNEL, initialSn, SB.PrxAck, endpoint);
      ok := EnqueueControl(now, msg, true);
      if ok {
        reliableHandshakeMsgSn := Some(initialSn);
      }
    }

    twostate lemma RoomAfterRelease(endpoint: Data)
      requires old(Loose()) && old(open) && !old(RstQueued()) && senderBuffer.Valid()
      requires Outstanding() == WithoutHandshake(old(Outstanding()), old(reliableHandshakeMsgSn), initialSn)
      ensures old(RoomForPrxAck(endpoint)) <==>
        senderBuffer.sendBufferSize + SB.MAXIMAL_HEADER_SIZE + |endpoint| <= senderBuffer.size
    {
      hide SB.AfterDeregister, SB.Newest, SB.Bytes;
      forall m | m in old(Outstanding()) && m.channel == CONTROL_CHANNEL
        ensures m.sn == initialSn
      {
        assert MessageOk(m, initialSn, old(reliableHandshakeMsgSn), old(sequenceMemo));
      }
      BytesReleased(old(senderBuffer.sendBuffer), senderBuffer.sendBuffer, old(reliableHandshakeMsgSn), initialSn);
    }

    lemma NoControlOutstanding()
      requires Loose() && open && !RstQueued() && reliableHandshakeMsgSn.None?
      ensures forall m | m in Outstanding() :: m.channel != CONTROL_CHANNEL
    {
    }

    // A SYN that arrives again at a server: the SYN-RST goes out once more.
    method GotSynAgain(now: real)
      requires Valid() && open && connType == Server
      modifies this`queued, this`reliableHandshakeMsgSn, senderBuffer
      ensures Valid() && Outstanding() == old(Outstanding())
      ensures queued == old(queued) + [SB.Msg(CONTROL_CHANNEL, initialSn, SB.SynRst, [])]
    {
      hide Connection.Referenced;
      SendInitMessage(now, []);
    }

    // PRX: the mediator has our SYN. Other connections ignore it.
    method GotPrx(now: real)
      requires Valid() && open
      modifies this`queued, this`forceCloseScheduled, this`reliableHandshakeMsgSn, senderBuffer
      ensures Valid() && queued == old(queued)
      ensures reliableHandshakeMsgSn == if connType == P2P then None else old(reliableHandshakeMsgSn)
      ensures Outstanding() == if connType == P2P
        then WithoutHandshake(old(Outstanding()), old(reliableHandshakeMsgSn), initialSn)
        else old(Outstanding())
    {
      hide Connection.Referenced;
      if connType != P2P {
        return;
      }
      ReleaseReliableHandshakeMsg(now);
    }

    // PRX-RST-SYN-ACK: the mediator has our PRX-ACK. A message of the wrong
    // length is ignored.
    method GotPrxRstSynAck(now: real, lengthOk: bool)
      requires Valid() && open
      modifies this`queued, this`forceCloseScheduled, this`reliableHandshakeMsgSn, senderBuffer
      ensures Valid() && queued == old(queued)
      ensures reliableHandshakeMsgSn == if lengthOk then None else old(reliableHandshakeMsgSn)
      ensures Outstanding() == if lengthOk
        then WithoutHandshake(old(Outstanding()), old(reliableHandshakeMsgSn), initialSn)
        else old(Outstanding())
    {
      hide Connection.Referenced;
      if lengthOk {
        ReleaseReliableHandshakeMsg(now);
      }
    }

    // A retransmission timeout queues the old enough messages again.
    method RtoTimeout(now: real, rto: real)
      requires Valid()
      modifies this`queued, senderBuffer
      ensures Valid() && Outstanding() == old(Outstanding())
      ensures old(queued) <= queued
      ensures forall m :: m in queued[|old(queued)|..] <==>
        m in old(Outstanding()) && now - old(SB.TimeOf(senderBuffer.registrationTime, m)) >= rto
      ensures forall i, j | |old(queued)| <= i < j < |queued| :: queued[i] != queued[j]
    {
      hide RefsOk;
      var visited := senderBuffer.EachCurrentMessage(now, rto);
      forall m | m in visited
        ensures m in old(Outstanding()) && (m.kind.Rst? ==> m == RstMsg())
      {
        assert m in old(senderBuffer.sendBuffer);
        assert MessageOk(m, initialSn, reliableHandshakeMsgSn, sequenceMemo);
      }
      queued := queued + visited;
    }
  }

  // A P2P connection whose SYN the mediator has answered with PRX: nothing is
  // outstanding while it waits for its SYN-RST.
  method WaitingExample(now: real, size: nat, initialSn: nat, cookie: Data) returns (c: Connection)
    requires initialSn < BLOCK && SB.MAXIMAL_HEADER_SIZE + |cookie| <= size && |cookie| <= MAX_MESSAGE_LENGTH
    ensures fresh(c) && fresh(c.senderBuffer) && c.Valid() && c.connType == P2P && c.initialSn == initialSn
    ensures c.open && !c.closing && c.sendingSyn && c.reliableHandshakeMsgSn.None? && c.sequenceMemo == map[]
    ensures c.Outstanding() == {} && c.senderBuffer.size == size && c.senderBuffer.sendBufferSize == 0
  {
    hide Connection.Valid;
    c := new Connection(P2P, size, initialSn, cookie, now);
    assert SB.HasAtOrAbove(c.Outstanding(), CONTROL_CHANNEL, initialSn);
    c.GotPrx(now);
    BufferValid(c);
    EmptyHasNoBytes(c.senderBuffer);
  }

  // The assertion of GotSynRst can fail: PRX releases the SYN, and the
  // application, which may send while it waits, fills the buffer of 100 bytes.
  method NoRoomExample(now: real, initialSn: nat, cq: int, cookie: Data, data: Data, endpoint: Data)
    returns (c: Connection, ok: bool, asserted: bool)
    requires initialSn < BLOCK && |cookie| == 40 && |data| == 90 && |endpoint| <= MAX_MESSAGE_LENGTH
    requires 192 <= cq < 256
    ensures ok && !asserted
  {
    hide Connection.Valid, Carry, NumMessages, PartMsg, PartMsgs, Part;
    c := WaitingExample(now, 100, initialSn, cookie);
    OnePart(cq, initialSn, data);
    var sent := c.Send(now, cq, data);
    BufferValid(c);
    assert c.Outstanding() == {PartMsg(cq, initialSn, data, 0)};
    FullOf(c.senderBuffer, PartMsg(cq, initialSn, data, 0));
    ok, asserted := c.GotSynRst(now, endpoint);
  }

  lemma OnePart(cq: int, sn: nat, data: Data)
    requires 0 < |data| <= MAX_MESSAGE_LENGTH
    ensures NumMessages(|data|) == 1 && SB.ToSet(PartMsgs(cq, sn, data, 1)) == {PartMsg(cq, sn, data, 0)}
    ensures SB.MsgSize(PartMsg(cq, sn, data, 0)) == |data| + SB.MAXIMAL_HEADER_SIZE
  {
    assert PartMsgs(cq, sn, data, 1) == [PartMsg(cq, sn, data, 0)];
  }

  lemma BufferValid(c: Connection)
    requires c.Valid()
    ensures c.senderBuffer.Valid()
  {
  }

  lemma EmptyHasNoBytes(b: SB.SenderBuffer)
    requires b.Valid() && b.Contents() == {}
    ensures b.sendBufferSize == 0
  {
    SB.OneOrder(b.sendBuffer, []);
  }

  lemma FullOf(b: SB.SenderBuffer, m: Msg)
    requires b.Valid() && b.Contents() == {m}
    ensures b.sendBufferSize == SB.MsgSize(m)
  {
    SB.OneOrder(b.sendBuffer, [m]);
    assert SB.Bytes([m]) == SB.MsgSize([m][0]) + SB.Bytes([m][1..]);
  }
}
