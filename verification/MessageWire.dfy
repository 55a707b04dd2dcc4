/** Messages on the wire: the printer (EmiMessage.h), the parser
    (EmiMessageHeader.cc) and the loop that takes a datagram apart
    (EmiMessageHandler.h). */
module MessageWire {
  import opened Bytes
  import opened NetUtil
  import opened Options
  import opened Streams

  const SACK_FLAG := 0x01
  const ACK_FLAG := 0x02
  const SYN_FLAG := 0x04
  const RST_FLAG := 0x08
  const PRX_FLAG := 0x10
  const MIN_LENGTH := 4

  // The arguments of writeMsg. Channel -1 stands for handshake messages.
  datatype Message = Message(flags: Byte, channel: int, sn: Seq24, hasAck: bool, ack: Seq24, data: Data)

  // A parsed header; a number or an ack of -1 means that there was none.
  datatype Header = Header(flags: Byte, channel: Byte, sn: int, headerLength: nat, length: nat, ack: int)

  datatype Received = Received(header: Header, data: Data)

  function WireFlags(m: Message): Byte {
    if m.hasAck && !Has(m.flags, ACK_FLAG) then m.flags + ACK_FLAG else m.flags
  }

  lemma WireFlagsSetsAck(m: Message)
    ensures Has(WireFlags(m), ACK_FLAG) <==> m.hasAck || Has(m.flags, ACK_FLAG)
    ensures Has(WireFlags(m), SACK_FLAG) <==> Has(m.flags, SACK_FLAG)
    ensures Has(WireFlags(m), SYN_FLAG) <==> Has(m.flags, SYN_FLAG)
    ensures Has(WireFlags(m), RST_FLAG) <==> Has(m.flags, RST_FLAG)
    ensures Has(WireFlags(m), PRX_FLAG) <==> Has(m.flags, PRX_FLAG)
  {
    var f := m.flags;
    if m.hasAck && !Has(f, ACK_FLAG) {
      assert f == 4 * (f / 4) + f % 2;
      assert (f + 2) / 4 == f / 4;
      assert (f + 2) / 8 == (f + 2) / 4 / 2 && f / 8 == f / 4 / 2;
      assert (f + 2) / 16 == (f + 2) / 8 / 2 && f / 16 == f / 8 / 2;
    }
  }

  function WireChannel(m: Message): Byte {
    (if m.channel < 0 then 0 else m.channel) % 256
  }

  // Both sides agree on when a message carries its number ...
  predicate CarriesNumber(flags: Byte, length: nat) {
    length != 0 || (Has(flags, SYN_FLAG) && !Has(flags, PRX_FLAG))
  }

  // ... but the parser decides from the flags whether there is an ack.
  predicate CarriesAck(flags: Byte) {
    Has(flags, ACK_FLAG) && !(Has(flags, RST_FLAG) && Has(flags, SYN_FLAG)) && !Has(flags, PRX_FLAG)
  }

  function Front(m: Message): (b: Data)
    ensures |b| == MIN_LENGTH
  {
    [WireFlags(m), WireChannel(m)] + Bytes16(|m.data|)
  }

  function NumberField(m: Message): Data {
    if CarriesNumber(WireFlags(m), |m.data|) then Bytes24(m.sn) else []
  }

  function AckField(m: Message): Data {
    if m.hasAck then Bytes24(m.ack) else []
  }

  function Encode(m: Message): Data {
    Front(m) + NumberField(m) + AckField(m) + m.data
  }

  // What the parser finds at offset o.
  function ParseHeader(b: Data, o: nat): Option<Header>
    requires o <= |b|
  {
    if |b| - o < MIN_LENGTH then None
    else
      var flags := b[o];
      var length := Read16(b, o + 2);
      var lengthOffset := if length != 0 || Has(flags, SYN_FLAG) then 3 else 0;
      var headerLength := MIN_LENGTH + lengthOffset + (if CarriesAck(flags) then 3 else 0);
      if headerLength > |b| - o then None
      else Some(Header(
        flags,
        b[o + 1],
        if CarriesNumber(flags, length) then Read24(b, o + MIN_LENGTH) else -1,
        headerLength,
        length,
        if CarriesAck(flags) then Read24(b, o + MIN_LENGTH + lengthOffset) else -1))
  }

  datatype Next = Failed | Parsed(header: Header, dataOffset: nat, next: nat)

  // The message at offset o, which the loop keeps below the end of the buffer.
  function NextMessage(b: Data, o: nat): (r: Next)
    requires o <= |b|
    ensures r.Parsed? ==>
      o + MIN_LENGTH <= r.dataOffset <= r.next <= |b| && r.next - r.dataOffset == r.header.length
  {
    match ParseHeader(b, o)
    case None => Failed
    case Some(h) =>
      if o + h.headerLength + h.length > |b| || Has(h.flags, SACK_FLAG) then Failed
      else Parsed(h, o + h.headerLength, o + h.headerLength + h.length)
  }

  // The messages handed to the connection from offset o on, message k being
  // the first; the loop stops after a message that is not accepted.
  function Handed(b: Data, o: nat, accepted: nat -> bool, k: nat): seq<Received>
    requires o <= |b|
    decreases |b| - o
  {
    if o == |b| then []
    else
      match NextMessage(b, o)
      case Failed => []
      case Parsed(h, dataOffset, next) =>
        [Received(h, b[dataOffset..next])]
          + (if accepted(k) then Handed(b, next, accepted, k + 1) else [])
  }

  // ----- round trip

  function AsReceived(m: Message): Received {
    Received(
      Header(
        WireFlags(m),
        WireChannel(m),
        if CarriesNumber(WireFlags(m), |m.data|) then m.sn else -1,
        |Encode(m)| - |m.data|,
        |m.data|,
        if m.hasAck then m.ack else -1),
      m.data)
  }

  // The messages that survive the wire: the length fits its field, there is no
  // SACK, there is an ack exactly when the flags will say so, and it is not a
  // PRX-SYN without data.
  predicate Sendable(m: Message) {
    && |m.data| < 65536
    && !Has(m.flags, SACK_FLAG)
    && (m.hasAck <==> CarriesAck(WireFlags(m)))
    && !(m.data == [] && Has(m.flags, SYN_FLAG) && Has(m.flags, PRX_FLAG))
  }

  // What the parser reads of the fixed part of a printed message.
  lemma ReadsFront(p: Data, m: Message, q: Data)
    ensures var b := p + Encode(m) + q;
      && b[|p|] == WireFlags(m) && b[|p| + 1] == WireChannel(m)
      && Read16(b, |p| + 2) == |m.data| % 65536
  {
    hide Encode, Has, WireFlags, WireChannel, Read16, Bytes16, NumberField, AckField;
    var b := p + Encode(m) + q;
    var tail := NumberField(m) + AckField(m) + m.data + q;
    var two := [WireFlags(m), WireChannel(m)];
    EncodeIs(m);
    Regroup(p, two, Bytes16(|m.data|), [], tail[..|tail| - |q|], q);
    assert Encode(m) == [] + two + Bytes16(|m.data|) + [] + tail[..|tail| - |q|];
    assert b == (p + two) + Bytes16(|m.data|) + tail;
    Middle(p + two, Bytes16(|m.data|), tail);
    Read16Inverts(b, |p| + 2, |m.data|);
  }

  lemma ReadsFields(p: Data, m: Message, q: Data)
    ensures var b := p + Encode(m) + q;
      var o := |p| + MIN_LENGTH;
      && (NumberField(m) != [] ==> Read24(b, o) == m.sn)
      && (m.hasAck ==> Read24(b, o + |NumberField(m)|) == m.ack)
      && b[|p| + |Encode(m)| - |m.data|..|p| + |Encode(m)|] == m.data
  {
    hide Encode, Front, Bytes24, Read24;
    var f, n, a := Front(m), NumberField(m), AckField(m);
    EncodeIs(m);
    Regroup(p, f, n, a, m.data, q);
    if n != [] {
      Read24After(p + f, m.sn, a + m.data + q);
    }
    if m.hasAck {
      Read24After(p + f + n, m.ack, m.data + q);
    }
    Middle(p + f + n + a, m.data, q);
  }

  lemma Regroup(p: Data, f: Data, n: Data, a: Data, d: Data, q: Data)
    ensures var b := p + ([] + f + n + a + d) + q;
      b == (p + f) + n + (a + d + q) == (p + f + n) + a + (d + q) == (p + f + n + a) + d + q
  {
  }

  // A printed message, wherever it stands and whatever follows it, is read
  // back as it was if and only if it is sendable.
  lemma MessageRoundTrip(p: Data, m: Message, q: Data)
    ensures var b := p + Encode(m) + q;
      var next := |p| + |Encode(m)|;
      NextMessage(b, |p|) == Parsed(AsReceived(m).header, next - |m.data|, next) <==> Sendable(m)
  {
    hide Has, Read16, Read24, Encode;
    ReadsFront(p, m, q);
    ReadsFields(p, m, q);
    WireFlagsSetsAck(m);
    EncodeLength(m);
  }

  lemma EncodeLength(m: Message)
    ensures |Encode(m)| == MIN_LENGTH + |NumberField(m)| + |AckField(m)| + |m.data|
  {
  }

  function EncodeAll(ms: seq<Message>): Data {
    if ms == [] then [] else Encode(ms[0]) + EncodeAll(ms[1..])
  }

  // The messages of a list up to the first that is not accepted.
  function HandedOf(ms: seq<Message>, accepted: nat -> bool, k: nat): seq<Received> {
    if ms == [] then []
    else [AsReceived(ms[0])] + (if accepted(k) then HandedOf(ms[1..], accepted, k + 1) else [])
  }

  predicate AllSendable(ms: seq<Message>) {
    forall i | 0 <= i < |ms| :: Sendable(ms[i])
  }

  // Printing a list of sendable messages behind one another and taking the
  // result apart gives the same list back.
  lemma {:induction false} LoopRoundTrip(p: Data, ms: seq<Message>, accepted: nat -> bool, k: nat)
    requires AllSendable(ms)
    ensures Handed(p + EncodeAll(ms), |p|, accepted, k) == HandedOf(ms, accepted, k)
    decreases |ms|
  {
    hide Sendable, NextMessage, AsReceived, Encode;
    var b := p + EncodeAll(ms);
    if ms == [] {
    } else {
      var m, q := ms[0], EncodeAll(ms[1..]);
      assert b == p + Encode(m) + q;
      MessageRoundTrip(p, m, q);
      ReadsFields(p, m, q);
      ReceivedData(m);
      LoopRoundTrip(p + Encode(m), ms[1..], accepted, k + 1);
      assert b == (p + Encode(m)) + q;
    }
  }

  lemma ReceivedData(m: Message)
    ensures AsReceived(m).data == m.data && |Encode(m)| >= MIN_LENGTH + |m.data|
    ensures AsReceived(m).header.length == |m.data|
    ensures AsReceived(m).header.headerLength == |Encode(m)| - |m.data|
  {
  }

  // With every message accepted, the list comes back if and only if each of
  // its messages is sendable.
  lemma {:induction false} LoopRoundTripExact(p: Data, ms: seq<Message>, accepted: nat -> bool, k: nat)
    requires forall i :: accepted(i)
    ensures Handed(p + EncodeAll(ms), |p|, accepted, k) == HandedOf(ms, accepted, k) <==> AllSendable(ms)
    decreases |ms|
  {
    hide Sendable, NextMessage, AsReceived, Encode, Read24;
    var b := p + EncodeAll(ms);
    if ms == [] {
    } else {
      var m, q := ms[0], EncodeAll(ms[1..]);
      assert b == p + Encode(m) + q;
      MessageRoundTrip(p, m, q);
      ReadsFields(p, m, q);
      ReceivedData(m);
      LoopRoundTripExact(p + Encode(m), ms[1..], accepted, k + 1);
      assert b == (p + Encode(m)) + q;
      ParsedOffsets(b, |p|);
      assert AllSendable(ms) <==> Sendable(m) && AllSendable(ms[1..]);
      var rest, wanted := Handed(b, |p + Encode(m)|, accepted, k + 1), HandedOf(ms[1..], accepted, k + 1);
      assert HandedOf(ms, accepted, k) == [AsReceived(m)] + wanted;
      if Sendable(m) {
        assert Handed(b, |p|, accepted, k) == [AsReceived(m)] + rest;
        SameHead(AsReceived(m), rest, wanted);
      } else {
        var got := Handed(b, |p|, accepted, k);
        assert got != [] ==> got[0].header == NextMessage(b, |p|).header;
      }
    }
  }

  lemma SameHead(r: Received, s: seq<Received>, t: seq<Received>)
    ensures [r] + s == [r] + t <==> s == t
  {
    assert ([r] + s)[1..] == s && ([r] + t)[1..] == t;
  }

  lemma ParsedOffsets(b: Data, o: nat)
    requires o <= |b|
    ensures var r := NextMessage(b, o); r.Parsed? ==>
      r.dataOffset == o + r.header.headerLength && r.next == r.dataOffset + r.header.length
  {
  }

  function FromReceived(r: Received): Message
    requires r.header.sn < BLOCK && r.header.ack < BLOCK
  {
    var h := r.header;
    Message(h.flags, h.channel, if h.sn < 0 then 0 else h.sn, h.ack >= 0, if h.ack < 0 then 0 else h.ack, r.data)
  }

  lemma Bytes16Inverts(b: Data, at: nat)
    requires at + 2 <= |b|
    ensures Bytes16(Read16(b, at)) == b[at..at + 2]
  {
  }

  // The other direction, for arbitrary bytes: printing a parsed message gives
  // the bytes it was parsed from, unless it is a PRX-SYN without data.
  lemma ReprintExact(b: Data, o: nat)
    requires o <= |b| && NextMessage(b, o).Parsed?
    ensures var r := NextMessage(b, o);
      var h := r.header;
      && h.sn < BLOCK && h.ack < BLOCK
      && (Encode(FromReceived(Received(h, b[r.dataOffset..r.next]))) == b[o..r.next]
          <==> !(h.length == 0 && Has(h.flags, SYN_FLAG) && Has(h.flags, PRX_FLAG)))
  {
    hide Has, Read16, Read24, Bytes16, Bytes24, Encode;
    var r := NextMessage(b, o);
    var h := r.header;
    var m := FromReceived(Received(h, b[r.dataOffset..r.next]));
    EncodeIs(m);
    EncodeLength(m);
    Bytes16Inverts(b, o + 2);
    assert Front(m) == b[o..o + 4];
    var n := |NumberField(m)|;
    if n != 0 {
      Bytes24Inverts(b, o + 4);
    }
    assert NumberField(m) == b[o + 4..o + 4 + n];
    if m.hasAck {
      Bytes24Inverts(b, r.dataOffset - 3);
    }
    assert AckField(m) == b[r.dataOffset - |AckField(m)|..r.dataOffset];
    var gap := h.length == 0 && Has(h.flags, SYN_FLAG) && Has(h.flags, PRX_FLAG);
    assert r.dataOffset - |AckField(m)| == o + 4 + n + if gap then 3 else 0;
    if gap {
      assert |Encode(m)| == r.next - o - 3;
    } else {
      Adjacent(b, o, o + 4, o + 4 + n);
      Adjacent(b, o, o + 4 + n, r.dataOffset);
      Adjacent(b, o, r.dataOffset, r.next);
    }
  }

  lemma Adjacent(b: Data, i: nat, j: nat, k: nat)
    requires i <= j <= k <= |b|
    ensures b[i..j] + b[j..k] == b[i..k]
  {
  }

  // The last part of a split message with an ack, byte by byte.
  lemma MessageExample()
    ensures Encode(Message(0x40, 0xC1, 0x010203, true, 0x040506, [7, 8])) == [0x42, 0xC1, 0, 2, 3, 2, 1, 6, 5, 4, 7, 8]
  {
  }

  // Control messages: the channel is printed as 0, an empty one has a number only
  // with SYN and without PRX.
  lemma ControlExample()
    ensures Encode(Message(0x04, -1, 0x010203, false, 0, [7, 8])) == [0x04, 0, 0, 2, 3, 2, 1, 7, 8]
    ensures Encode(Message(0x0C, -1, 0x010203, false, 0, [])) == [0x0C, 0, 0, 0, 3, 2, 1]
    ensures Encode(Message(0x08, -1, 0x010203, false, 0, [])) == [0x08, 0, 0, 0]
    ensures Encode(Message(0x12, -1, 0x010203, false, 0, [])) == [0x12, 0, 0, 0]
  {
  }

  // Which flags announce a number and an ack: alone, with SYN or with RST, ACK does;
  // with both, or with PRX, it does not.
  lemma ParseExample()
    ensures var b := [0, 5, 0, 0, 3, 2, 1, 6, 5, 4];
      && ParseHeader(b[0 := 0x02], 0) == Some(Header(0x02, 5, -1, 7, 0, 0x010203))
      && ParseHeader(b[0 := 0x06], 0) == Some(Header(0x06, 5, 0x010203, 10, 0, 0x040506))
      && ParseHeader(b[0 := 0x0A], 0) == Some(Header(0x0A, 5, -1, 7, 0, 0x010203))
      && ParseHeader(b[0 := 0x0E], 0) == Some(Header(0x0E, 5, 0x010203, 7, 0, -1))
      && ParseHeader(b[0 := 0x12], 0) == Some(Header(0x12, 5, -1, 4, 0, -1))
      && ParseHeader(b[0 := 0x14], 0) == Some(Header(0x14, 5, -1, 7, 0, -1))
  {
  }

  // The forms the library sends: data and pure acks, and control messages.
  predicate SentForm(m: Message) {
    && |m.data| < 65536
    && (|| (m.flags in {0, 0x20, 0x40, 0x60} && (m.data != [] || m.hasAck))
        || (!m.hasAck && m.flags in {SYN_FLAG, SYN_FLAG + RST_FLAG, SYN_FLAG + RST_FLAG + ACK_FLAG, RST_FLAG})
        || (&& !m.hasAck
            && m.flags in {PRX_FLAG, PRX_FLAG + ACK_FLAG, PRX_FLAG + RST_FLAG, PRX_FLAG + RST_FLAG + ACK_FLAG})
        || (!m.hasAck && m.data != []
            && m.flags in {PRX_FLAG + SYN_FLAG, PRX_FLAG + SYN_FLAG + ACK_FLAG,
                           PRX_FLAG + RST_FLAG + SYN_FLAG + ACK_FLAG}))
  }

  lemma SentFormsAreSendable(m: Message)
    requires SentForm(m)
    ensures Sendable(m)
  {
  }

  // ----- the code

  // Writes m at offset and returns its length, or 0 when it does not fit; the
  // code asks for one byte more than it needs. When it returns 0 the buffer is
  // unchanged, and what follows the message is never touched.
  method WriteMsg(buf: array<Byte>, offset: nat, m: Message) returns (size: nat)
    requires offset <= buf.Length
    requires WireFlags(m) != 0 || m.data != []
    modifies buf
    ensures size == (if buf.Length - offset <= |Encode(m)| then 0 else |Encode(m)|)
    ensures buf[..] == old(buf[..offset]) + (if size == 0 then [] else Encode(m)) + old(buf[offset + size..])
  {
    hide Has, Bytes16, Bytes24, Front, Encode, WireFlags;
    EncodeLength(m);
    var flags := WireFlags(m);
    var numberSize := if CarriesNumber(flags, |m.data|) then 3 else 0;
    var ackSize := if m.hasAck then 3 else 0;
    if buf.Length - offset <= MIN_LENGTH + numberSize + ackSize + |m.data| {
      assert buf[..] == buf[..offset] + [] + buf[offset..];
      return 0;
    }
    ghost var was := buf[..];
    var pos := offset;
    assert buf[..] == was[..offset] + [] + was[pos..];
    pos := Append(buf, pos, Front(m), was, offset, []);
    if numberSize != 0 {
      pos := Append24(buf, pos, m.sn, was, offset, [] + Front(m));
    }
    assert numberSize == 0 ==> [] + Front(m) == [] + Front(m) + NumberField(m);
    if m.hasAck {
      pos := Append24(buf, pos, m.ack, was, offset, [] + Front(m) + NumberField(m));
    }
    pos := Append(buf, pos, m.data, was, offset, [] + Front(m) + NumberField(m) + AckField(m));
    EncodeIs(m);
    return pos - offset;
  }

  lemma EncodeIs(m: Message)
    ensures Encode(m) == [] + Front(m) + NumberField(m) + AckField(m) + m.data
  {
  }

  // Moves the offset past the next message. At the end of the buffer it
  // succeeds without a message. A SACK message is refused, but skipped.
  method ParseNextMessage(b: Data, offset: nat)
    returns (ok: bool, offset': nat, dataOffset: nat, header: Option<Header>)
    requires offset <= |b|
    ensures offset <= offset' <= |b|
    ensures offset + MIN_LENGTH > |b| ==> ok == (offset == |b|) && offset' == offset && header == None
    ensures offset + MIN_LENGTH <= |b| ==>
      (match NextMessage(b, offset)
       case Failed => !ok
       case Parsed(h, d, next) => ok && header == Some(h) && dataOffset == d && offset' == next)
  {
    ok, offset', dataOffset, header := false, offset, offset, None;
    if offset + MIN_LENGTH <= |b| {
      header := ParseHeader(b, offset);
      if header == None {
        return;
      }
      dataOffset := offset + header.value.headerLength;
      if dataOffset + header.value.length > |b| {
        return;
      }
      offset' := dataOffset + header.value.length;
      ok := !Has(header.value.flags, SACK_FLAG);
    } else {
      ok := offset == |b|;
    }
  }

  lemma HandedStep(b: Data, o: nat, accepted: nat -> bool, k: nat, done: seq<Received>)
    requires o < |b|
    ensures var all := done + Handed(b, o, accepted, k);
      match NextMessage(b, o)
      case Failed => all == done
      case Parsed(h, d, next) =>
        all == done + [Received(h, b[d..next])] + (if accepted(k) then Handed(b, next, accepted, k + 1) else [])
  {
  }

  // The loop of onMessage over the messages of a datagram. It ends on every
  // input, with the offset inside the buffer.
  method MessageLoop(b: Data, accepted: nat -> bool) returns (handed: seq<Received>, offset: nat)
    ensures handed == Handed(b, 0, accepted, 0)
    ensures offset <= |b|
  {
    hide NextMessage, Handed;
    handed, offset := [], 0;
    while offset < |b|
      invariant offset <= |b|
      invariant Handed(b, 0, accepted, 0) == handed + Handed(b, offset, accepted, |handed|)
      decreases |b| - offset
    {
      HandedStep(b, offset, accepted, |handed|, handed);
      var ok, next, dataOffset, header := ParseNextMessage(b, offset);
      if !ok {
        return;
      }
      var k := |handed|;
      handed := handed + [Received(header.value, b[dataOffset..next])];
      offset := next;
      if !accepted(k) {
        return;
      }
    }
    HandedAtEnd(b, accepted, |handed|);
  }

  lemma HandedAtEnd(b: Data, accepted: nat -> bool, k: nat)
    ensures Handed(b, |b|, accepted, k) == []
  {
  }
}
