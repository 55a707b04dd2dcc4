/** How the messages that a connection queues travel: the flags they are printed
    with, what the other host makes of them, and the size of a datagram. */
module Transport {
  import opened Bytes
  import opened NetUtil
  import opened Streams
  import C = Connection
  import M = MessageWire
  import P = PacketHeader
  import SB = SenderBuffer

  const SPLIT_NOT_FIRST_FLAG := 0x40
  const SPLIT_NOT_LAST_FLAG := 0x20

  function FlagsOf(kind: SB.Kind): Byte {
    match kind
    case DataPart(first, last) =>
      (if first then 0 else SPLIT_NOT_FIRST_FLAG) + (if last then 0 else SPLIT_NOT_LAST_FLAG)
    case Syn => M.SYN_FLAG
    case SynRst => M.SYN_FLAG + M.RST_FLAG
    case PrxAck => M.PRX_FLAG + M.ACK_FLAG
    case Rst => M.RST_FLAG
  }

  // The message as it is printed, with an ack of the same channel if there is one.
  function OnWire(m: C.Msg, hasAck: bool, ack: Seq24): M.Message {
    M.Message(FlagsOf(m.kind), m.channel, Wrap(m.sn), hasAck, ack, m.data)
  }

  // What the receive buffer is handed.
  function Arriving(r: M.Received): Fragment {
    Fragment(!Has(r.header.flags, SPLIT_NOT_FIRST_FLAG), !Has(r.header.flags, SPLIT_NOT_LAST_FLAG), r.data)
  }

  // A data message that is sent, with an ack or without, wherever it stands in a
  // datagram, arrives on its channel as the fragment that was sent, with the
  // wrapped number.
  lemma DataTravels(p: Data, m: C.Msg, hasAck: bool, ack: Seq24, q: Data)
    requires m.kind.DataPart? && 0 < |m.data| <= MAX_MESSAGE_LENGTH && C.IsQualifier(m.channel)
    ensures var w := OnWire(m, hasAck, ack);
      var b, r, next := p + M.Encode(w) + q, M.AsReceived(w), |p| + |M.Encode(w)|;
      && M.NextMessage(b, |p|) == M.Parsed(r.header, next - |m.data|, next) && b[next - |m.data|..next] == m.data
      && r.header.channel == m.channel && r.header.sn == Wrap(m.sn)
      && r.header.ack == (if hasAck then ack else -1)
      && Arriving(r) == C.FragmentOf(m)
  {
    hide M.Encode, M.NextMessage;
    var w := OnWire(m, hasAck, ack);
    M.SentFormsAreSendable(w);
    M.MessageRoundTrip(p, w, q);
    M.ReadsFields(p, w, q);
  }

  // The call of a connection that a message leads to (EmiMessageHandler.h:107-259);
  // one with SACK has been refused before.
  datatype HostCall =
    | GotMessage | Opened | GotSynRst | GotRst | GotSynRstAck
    | GotPrx | GotPrxRstSynAck | GotPrxRstAck | GotPrxSyn | GotPrxSynAck
    | Refused

  function AtHost(h: M.Header): HostCall {
    var prx, syn, rst, ack :=
      Has(h.flags, M.PRX_FLAG), Has(h.flags, M.SYN_FLAG), Has(h.flags, M.RST_FLAG), Has(h.flags, M.ACK_FLAG);
    if prx then
      if !syn && !rst && !ack then GotPrx
      else if syn && rst && ack then GotPrxRstSynAck
      else if !syn && rst && ack then GotPrxRstAck
      else if syn && !rst && !ack then GotPrxSyn
      else if syn && !rst && ack then GotPrxSynAck
      else Refused
    else if syn && !rst then if h.length == 0 && !ack then Opened else Refused
    else if syn && rst then if ack then GotSynRstAck else GotSynRst
    else if rst then if ack then Refused else GotRst
    else GotMessage
  }

  // What the mediator does with it (EmiP2PSock.h:401-521), if a control message is
  // alone in its datagram.
  datatype MediatorCall =
    | Forward | ConnectionOpen | ConnectionOpenAck | ForwardRst | ForwardSynRstAck | PrxRst | Invalid

  const RELEVANT: nat := 32           // PRX, RST, SYN, ACK and SACK are the lowest five flags

  function AtMediator(h: M.Header): MediatorCall {
    var relevant := h.flags % RELEVANT;
    if !Has(h.flags, M.PRX_FLAG) && !Has(h.flags, M.RST_FLAG) && !Has(h.flags, M.SYN_FLAG) then Forward
    else if relevant == M.SYN_FLAG then ConnectionOpen
    else if relevant == M.PRX_FLAG + M.ACK_FLAG then ConnectionOpenAck
    else if relevant == M.RST_FLAG then ForwardRst
    else if relevant == M.RST_FLAG + M.SYN_FLAG + M.ACK_FLAG then ForwardSynRstAck
    else if relevant == M.PRX_FLAG + M.RST_FLAG then PrxRst
    else Invalid
  }

  // Every message that a connection queues survives, and leads to what it is for:
  // at the other host, or at the mediator for a SYN with a cookie and a PRX-ACK.
  lemma QueuedTravels(p: Data, m: C.Msg, q: Data)
    requires |m.data| <= MAX_MESSAGE_LENGTH && (m.kind.DataPart? ==> m.data != [])
    ensures var w := OnWire(m, false, 0);
      var h, next := M.AsReceived(w).header, |p| + |M.Encode(w)|;
      && M.NextMessage(p + M.Encode(w) + q, |p|) == M.Parsed(h, next - |m.data|, next)
      && match m.kind
         case DataPart(_, _) => AtHost(h) == GotMessage && AtMediator(h) == Forward
         case Syn => AtHost(h) == (if m.data == [] then Opened else Refused) && AtMediator(h) == ConnectionOpen
         case SynRst => AtHost(h) == GotSynRst && AtMediator(h) == Invalid
         case PrxAck => AtHost(h) == Refused && AtMediator(h) == ConnectionOpenAck
         case Rst => AtHost(h) == GotRst && AtMediator(h) == ForwardRst
  {
    hide M.Encode, M.NextMessage;
    M.SentFormsAreSendable(OnWire(m, false, 0));
    M.MessageRoundTrip(p, OnWire(m, false, 0), q);
  }

  const MINIMAL_MTU: nat := 576
  const UDP_HEADER_SIZE: nat := 8

  // The room that the sender buffer counts for a message header is enough for
  // every message, and some messages take it all.
  lemma MessageHeaderSize(m: M.Message)
    ensures |M.Encode(m)| <= |m.data| + SB.MAXIMAL_HEADER_SIZE
    ensures |M.Encode(m)| == |m.data| + SB.MAXIMAL_HEADER_SIZE
       <==> m.hasAck && M.CarriesNumber(M.WireFlags(m), |m.data|)
  {
    M.EncodeLength(m);
  }

  ghost predicate AllFields(flags: Byte) {
    forall k | 0 <= k < P.FIELDS :: P.HasField(flags, k)
  }

  // A packet header takes at most the 21 bytes that are allowed for it unless it
  // has all six optional fields. Then it takes 22.
  lemma PacketHeaderSize(h: P.Header)
    requires !Has(h.flags, P.EXTRA_FLAG)
    ensures |P.Encode(h)| == 22 <==> AllFields(h.flags)
    ensures !AllFields(h.flags) ==> |P.Encode(h)| <= 19
  {
    assert forall k: nat | k < P.FIELDS :: P.Offset(h.flags, k + 1) == P.Offset(h.flags, k) + P.Width(h.flags, k);
    assert P.Offset(h.flags, 1) == P.Width(h.flags, 0);
    assert P.Offset(h.flags, 3) == P.Offset(h.flags, 1) + P.Width(h.flags, 1) + P.Width(h.flags, 2);
    assert P.Offset(h.flags, 5) == P.Offset(h.flags, 3) + P.Width(h.flags, 3) + P.Width(h.flags, 4);
    assert P.Offset(h.flags, 6) == P.Offset(h.flags, 5) + P.Width(h.flags, 5);
    assert AllFields(h.flags) <==>
      && P.HasField(h.flags, 0) && P.HasField(h.flags, 1) && P.HasField(h.flags, 2) && P.HasField(h.flags, 3)
      && P.HasField(h.flags, 4) && P.HasField(h.flags, 5);
  }

  // So a part of a split message always fits into a datagram of the minimal MTU
  // if and only if its header does not have them all.
  lemma PartFitsMtu(h: P.Header)
    requires !Has(h.flags, P.EXTRA_FLAG)
    ensures (forall m: M.Message | |m.data| <= MAX_MESSAGE_LENGTH ::
               UDP_HEADER_SIZE + |P.Encode(h)| + |M.Encode(m)| <= MINIMAL_MTU)
       <==> !AllFields(h.flags)
  {
    hide M.Encode, P.Encode;
    PacketHeaderSize(h);
    forall m: M.Message
      ensures |M.Encode(m)| <= |m.data| + SB.MAXIMAL_HEADER_SIZE
    {
      MessageHeaderSize(m);
    }
    if AllFields(h.flags) {
      var largest := M.Message(0, 0, 0, true, 0, seq(MAX_MESSAGE_LENGTH, _ => 0));
      MessageHeaderSize(largest);
      assert UDP_HEADER_SIZE + |P.Encode(h)| + |M.Encode(largest)| > MINIMAL_MTU;
    }
  }
}
