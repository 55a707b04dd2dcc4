/** Packet headers (EmiPacketHeader.cc) and whole datagrams
    (EmiMessageHandler.h). The two rates are kept as their 32 bit patterns. */
module PacketHeader {
  import opened Bytes
  import opened NetUtil
  import opened Streams
  import M = MessageWire

  const EXTRA_FLAG := 0x80

  datatype Header = Header(
    flags: Byte, sn: Seq24, ack: Seq24, nak: Seq24,
    linkCapacity: Word32, arrivalRate: Word32, rttResponse: Seq24, rttResponseDelay: Byte)

  // The optional fields in their order on the wire. An RTT request is a flag
  // without a field.
  const FIELDS: nat := 6

  predicate HasField(flags: Byte, k: nat) {
    match k
    case 0 => Has(flags, 0x01)
    case 1 => Has(flags, 0x02)
    case 2 => Has(flags, 0x04)
    case 3 => Has(flags, 0x08)
    case 4 => Has(flags, 0x10)
    case _ => Has(flags, 0x40)
  }

  function Width(flags: Byte, k: nat): nat {
    if !HasField(flags, k) then 0 else if k < 3 then 3 else 4
  }

  // Where field k starts behind the flags.
  function Offset(flags: Byte, k: nat): nat {
    if k == 0 then 0 else Offset(flags, k - 1) + Width(flags, k - 1)
  }

  lemma {:induction false} OffsetGrows(flags: Byte, j: nat, k: nat)
    requires j <= k
    ensures Offset(flags, j) <= Offset(flags, k)
    decreases k
  {
    if j < k {
      OffsetGrows(flags, j, k - 1);
    }
  }

  // The code looks for the filler size in the flags byte, where those two bits
  // announce a sequence number and an ack.
  function FillerSize(flags: Byte): nat {
    if !Has(flags, EXTRA_FLAG) then 0
    else if Has(flags, 0x01) then 1
    else if Has(flags, 0x02) then 2
    else 0
  }

  function ExpectedSize(flags: Byte): nat {
    1 + (if Has(flags, EXTRA_FLAG) then 1 + FillerSize(flags) else 0) + Offset(flags, FIELDS)
  }

  function FieldBytes(h: Header, k: nat): (b: Data)
    ensures |b| == Width(h.flags, k)
  {
    if !HasField(h.flags, k) then []
    else match k
      case 0 => Bytes24(h.sn)
      case 1 => Bytes24(h.ack)
      case 2 => Bytes24(h.nak)
      case 3 => Bytes32(h.linkCapacity)
      case 4 => Bytes32(h.arrivalRate)
      case _ => Bytes24(h.rttResponse) + [h.rttResponseDelay]
  }

  function FieldsUpTo(h: Header, k: nat): (b: Data)
    ensures |b| == Offset(h.flags, k)
  {
    if k == 0 then [] else FieldsUpTo(h, k - 1) + FieldBytes(h, k - 1)
  }

  function Zeros(n: nat): Data {
    seq(n, _ => 0)
  }

  // What write leaves in the buffer: it clears the expected size first, and
  // does not step over the extra flags byte or the filler.
  function Encode(h: Header): (b: Data)
    ensures |b| == ExpectedSize(h.flags)
  {
    [h.flags] + FieldsUpTo(h, FIELDS) + Zeros(ExpectedSize(h.flags) - 1 - Offset(h.flags, FIELDS))
  }

  // Field k, read with the fields starting at position at; an absent field
  // reads as zero.
  function Field24(b: Data, flags: Byte, k: nat, at: nat): Seq24
    requires k < FIELDS && at + Offset(flags, FIELDS) <= |b|
  {
    OffsetGrows(flags, k + 1, FIELDS);
    if HasField(flags, k) then Read24(b, at + Offset(flags, k)) else 0
  }

  function Field32(b: Data, flags: Byte, k: nat, at: nat): Word32
    requires 3 <= k < FIELDS && at + Offset(flags, FIELDS) <= |b|
  {
    OffsetGrows(flags, k + 1, FIELDS);
    if HasField(flags, k) then Read32(b, at + Offset(flags, k)) else 0
  }

  function FieldDelay(b: Data, flags: Byte, at: nat): Byte
    requires at + Offset(flags, FIELDS) <= |b|
  {
    if HasField(flags, 5) then b[at + Offset(flags, 5) + 3] else 0
  }

  function ReadFields(b: Data, flags: Byte, at: nat): Header
    requires at + Offset(flags, FIELDS) <= |b|
  {
    Header(
      flags,
      Field24(b, flags, 0, at),
      Field24(b, flags, 1, at),
      Field24(b, flags, 2, at),
      Field32(b, flags, 3, at),
      Field32(b, flags, 4, at),
      Field24(b, flags, 5, at),
      FieldDelay(b, flags, at))
  }

  function Normal(h: Header): Header {
    Header(
      h.flags,
      if HasField(h.flags, 0) then h.sn else 0,
      if HasField(h.flags, 1) then h.ack else 0,
      if HasField(h.flags, 2) then h.nak else 0,
      if HasField(h.flags, 3) then h.linkCapacity else 0,
      if HasField(h.flags, 4) then h.arrivalRate else 0,
      if HasField(h.flags, 5) then h.rttResponse else 0,
      if HasField(h.flags, 5) then h.rttResponseDelay else 0)
  }

  datatype Result = Bad | Ok(header: Header, length: nat)

  function Parse(b: Data): (r: Result)
    ensures r.Ok? ==> 1 <= r.length <= |b|
  {
    if b == [] then Bad
    else
      var flags := b[0];
      if FillerSize(flags) == 2 && |b| < 4 then Bad
      else
        var filler := if FillerSize(flags) == 2 then Read16(b, 2) else 0;
        var expected := ExpectedSize(flags) + filler;
        if |b| < expected then Bad
        else Ok(ReadFields(b, flags, expected - Offset(flags, FIELDS)), expected)
  }

  lemma {:induction false} FieldAt(p: Data, h: Header, k: nat, n: nat, q: Data)
    requires k < n
    ensures Offset(h.flags, k) + Width(h.flags, k) <= Offset(h.flags, n)
    ensures var at := |p| + Offset(h.flags, k);
      (p + FieldsUpTo(h, n) + q)[at..at + Width(h.flags, k)] == FieldBytes(h, k)
    decreases n
  {
    var f, x := FieldsUpTo(h, n - 1), FieldBytes(h, n - 1);
    if k == n - 1 {
      assert p + FieldsUpTo(h, n) + q == (p + f) + x + q;
      Middle(p + f, x, q);
    } else {
      assert p + FieldsUpTo(h, n) + q == p + f + (x + q);
      FieldAt(p, h, k, n - 1, x + q);
    }
  }

  lemma Field24RoundTrip(p: Data, h: Header, k: nat, n: Seq24, q: Data)
    requires k < FIELDS
    requires HasField(h.flags, k) ==> FieldBytes(h, k)[..3] == Bytes24(n)
    ensures Field24(p + FieldsUpTo(h, FIELDS) + q, h.flags, k, |p|) == if HasField(h.flags, k) then n else 0
  {
    hide HasField, Offset, FieldsUpTo, FieldBytes, Bytes24, Read24;
    var b := p + FieldsUpTo(h, FIELDS) + q;
    var at := |p| + Offset(h.flags, k);
    FieldAt(p, h, k, FIELDS, q);
    if HasField(h.flags, k) {
      assert b[at..at + Width(h.flags, k)][..3] == b[at..at + 3];
      Read24Inverts(b, at, n);
    }
  }

  lemma Field32RoundTrip(p: Data, h: Header, k: nat, n: Word32, q: Data)
    requires 3 <= k < FIELDS
    requires HasField(h.flags, k) ==> FieldBytes(h, k) == Bytes32(n)
    ensures Field32(p + FieldsUpTo(h, FIELDS) + q, h.flags, k, |p|) == if HasField(h.flags, k) then n else 0
  {
    hide HasField, Offset, FieldsUpTo, FieldBytes, Bytes32, Read32;
    FieldAt(p, h, k, FIELDS, q);
    if HasField(h.flags, k) {
      Read32Inverts(p + FieldsUpTo(h, FIELDS) + q, |p| + Offset(h.flags, k), n);
    }
  }

  lemma DelayRoundTrip(p: Data, h: Header, q: Data)
    ensures FieldDelay(p + FieldsUpTo(h, FIELDS) + q, h.flags, |p|)
         == if HasField(h.flags, 5) then h.rttResponseDelay else 0
  {
  }

  // Reading the fields where they were written gives them back.
  lemma FieldsRoundTrip(p: Data, h: Header, q: Data)
    ensures ReadFields(p + FieldsUpTo(h, FIELDS) + q, h.flags, |p|) == Normal(h)
  {
    hide HasField, Offset, FieldsUpTo, Bytes24, Bytes32, Field24, Field32, FieldDelay;
    Field24RoundTrip(p, h, 0, h.sn, q);
    Field24RoundTrip(p, h, 1, h.ack, q);
    Field24RoundTrip(p, h, 2, h.nak, q);
    Field32RoundTrip(p, h, 3, h.linkCapacity, q);
    Field32RoundTrip(p, h, 4, h.arrivalRate, q);
    Field24RoundTrip(p, h, 5, h.rttResponse, q);
    DelayRoundTrip(p, h, q);
  }

  // Without the extra flags bit every header survives, whatever follows it.
  lemma HeaderRoundTrip(h: Header, rest: Data)
    requires !Has(h.flags, EXTRA_FLAG)
    ensures Parse(Encode(h) + rest) == Ok(Normal(h), |Encode(h)|)
  {
    hide ReadFields, FieldsUpTo, Offset, Normal;
    var b := Encode(h) + rest;
    assert b == [h.flags] + FieldsUpTo(h, FIELDS) + rest;
    FieldsRoundTrip([h.flags], h, rest);
  }

  // ----- the extra flags bit

  // A header whose first field starts with a one, everything else being zero.
  function First(flags: Byte, k: nat): (f: nat)
    requires k <= FIELDS
    ensures k <= f <= FIELDS && (f < FIELDS ==> HasField(flags, f))
    ensures forall i | k <= i < f :: !HasField(flags, i)
    decreases FIELDS - k
  {
    if k == FIELDS || HasField(flags, k) then k else First(flags, k + 1)
  }

  function Witness(flags: Byte): (h: Header)
    ensures h.flags == flags
  {
    var f := First(flags, 0);
    Header(
      flags,
      if f == 0 then 1 else 0,
      if f == 1 then 1 else 0,
      if f == 2 then 1 else 0,
      if f == 3 then 0x100_0000 else 0,
      if f == 4 then 0x100_0000 else 0,
      if f == 5 then 1 else 0,
      0)
  }

  lemma WitnessField(flags: Byte, k: nat)
    requires k < FIELDS
    ensures var b := FieldBytes(Witness(flags), k);
      && (k < First(flags, 0) ==> b == [])
      && (forall i | 1 <= i < |b| :: b[i] == 0)
      && (k > First(flags, 0) && b != [] ==> b[0] == 0)
  {
  }

  ghost predicate ZeroAfterFirst(b: Data) {
    forall i | 1 <= i < |b| :: b[i] == 0
  }

  lemma {:induction false} WitnessBytes(flags: Byte, n: nat)
    requires n <= FIELDS
    ensures var b := FieldsUpTo(Witness(flags), n);
      && (n <= First(flags, 0) ==> b == [])
      && ZeroAfterFirst(b)
  {
    hide FieldBytes, Witness, HasField;
    if n > 0 {
      WitnessBytes(flags, n - 1);
      WitnessField(flags, n - 1);
      var f, x := FieldsUpTo(Witness(flags), n - 1), FieldBytes(Witness(flags), n - 1);
      assert forall i | |f| <= i < |f + x| :: (f + x)[i] == x[i - |f|];
    }
  }

  lemma ZeroField(b: Data, flags: Byte, k: nat, at: nat)
    requires k < FIELDS && 2 <= at && at + Offset(flags, FIELDS) <= |b|
    requires forall i | 2 <= i < |b| :: b[i] == 0
    ensures Field24(b, flags, k, at) == 0 && (k >= 3 ==> Field32(b, flags, k, at) == 0)
  {
    OffsetGrows(flags, k + 1, FIELDS);
  }

  lemma ZeroTail(first: Byte, y: Data, n: nat)
    requires ZeroAfterFirst(y)
    ensures forall i | 2 <= i < 1 + |y| + n :: ([first] + y + Zeros(n))[i] == 0
  {
  }

  lemma WitnessParsesAsZero(flags: Byte)
    requires Has(flags, EXTRA_FLAG) && Offset(flags, FIELDS) > 0
    ensures var r := Parse(Encode(Witness(flags)));
      r.Ok? ==>
        && r.header.sn == r.header.ack == r.header.nak == r.header.rttResponse == 0
        && r.header.linkCapacity == r.header.arrivalRate == 0
  {
    hide Has, Offset, FieldsUpTo, Witness, Field24, Field32;
    var b := Encode(Witness(flags));
    WitnessBytes(flags, FIELDS);
    assert b[0] == flags;
    ZeroTail(flags, FieldsUpTo(Witness(flags), FIELDS), |b| - 1 - Offset(flags, FIELDS));
    var r := Parse(b);
    if r.Ok? {
      var at := r.length - Offset(flags, FIELDS);
      forall k | 0 <= k < FIELDS
        ensures Field24(b, flags, k, at) == 0 && (k >= 3 ==> Field32(b, flags, k, at) == 0)
      {
        ZeroField(b, flags, k, at);
      }
    }
  }

  lemma {:induction false} NoFields(flags: Byte, n: nat)
    requires Offset(flags, n) == 0
    ensures forall k | 0 <= k < n :: !HasField(flags, k)
  {
    if n > 0 {
      NoFields(flags, n - 1);
    }
  }

  lemma ExtraFlagsAlone(h: Header, rest: Data)
    requires Has(h.flags, EXTRA_FLAG) && Offset(h.flags, FIELDS) == 0
    ensures Parse(Encode(h) + rest) == Ok(Normal(h), |Encode(h)|)
  {
    hide Has, Offset, FieldsUpTo;
    NoFields(h.flags, FIELDS);
    assert (Encode(h) + rest)[0] == h.flags;
    assert FillerSize(h.flags) == 0 by {
      assert !HasField(h.flags, 0) && !HasField(h.flags, 1);
    }
  }

  // For given flags, every header with those flags survives the wire if and
  // only if the extra flags bit is clear or there is no field at all.
  lemma HeaderRoundTripExact(flags: Byte)
    ensures (forall h: Header, rest | h.flags == flags :: Parse(Encode(h) + rest) == Ok(Normal(h), |Encode(h)|))
      <==> !Has(flags, EXTRA_FLAG) || Offset(flags, FIELDS) == 0
  {
    hide Has, Offset, Parse, Encode, Normal;
    if Has(flags, EXTRA_FLAG) && Offset(flags, FIELDS) > 0 {
      var w := Witness(flags);
      assert Encode(w) + [] == Encode(w);
      WitnessParsesAsZero(flags);
      WitnessIsNotZero(flags);
      assert w.flags == flags && Parse(Encode(w) + []) != Ok(Normal(w), |Encode(w)|);
    } else {
      forall h: Header, rest | h.flags == flags
        ensures Parse(Encode(h) + rest) == Ok(Normal(h), |Encode(h)|)
      {
        if Has(flags, EXTRA_FLAG) {
          ExtraFlagsAlone(h, rest);
        } else {
          HeaderRoundTrip(h, rest);
        }
      }
    }
  }

  lemma WitnessIsNotZero(flags: Byte)
    requires Offset(flags, FIELDS) > 0
    ensures var n := Normal(Witness(flags));
      n.sn != 0 || n.ack != 0 || n.nak != 0 || n.linkCapacity != 0 || n.arrivalRate != 0 || n.rttResponse != 0
  {
    hide Offset;
    WitnessBytes(flags, FIELDS);
    assert First(flags, 0) < FIELDS;
  }

  // ----- the code

  // The buffer once the fields below k are written over the bytes was.
  ghost predicate Written(now: Data, was: Data, h: Header, k: nat) {
    var pos := 1 + Offset(h.flags, k);
    && ExpectedSize(h.flags) <= |now| == |was|
    && pos <= |was|
    && now == [h.flags] + FieldsUpTo(h, k) + was[pos..]
  }

  // Writes one optional field at the cursor and moves it along.
  method WriteField(buf: array<Byte>, pos: nat, h: Header, k: nat, ghost was: Data) returns (pos': nat)
    requires k < FIELDS && pos == 1 + Offset(h.flags, k)
    requires Written(buf[..], was, h, k)
    modifies buf
    ensures pos' == 1 + Offset(h.flags, k + 1)
    ensures Written(buf[..], was, h, k + 1)
  {
    hide Has, HasField, Bytes24, Bytes32, FieldBytes;
    FieldsStart(h);
    pos' := pos;
    ghost var x := [h.flags] + FieldsUpTo(h, k);
    assert was[..0] + x + was[pos..] == x + was[pos..];
    if HasField(h.flags, k) {
      pos' := Append(buf, pos, FieldBytes(h, k), was, 0, x);
    }
    assert [h.flags] + FieldsUpTo(h, k + 1) == x + FieldBytes(h, k);
    assert was[..0] + (x + FieldBytes(h, k)) + was[pos'..] == (x + FieldBytes(h, k)) + was[pos'..];
  }

  method Write(buf: array<Byte>, h: Header) returns (ok: bool, length: nat)
    modifies buf
    ensures ok <==> ExpectedSize(h.flags) <= buf.Length
    ensures ok ==> length == ExpectedSize(h.flags) && buf[..] == Encode(h) + old(buf[length..])
    ensures !ok ==> buf[..] == old(buf[..])
  {
    hide Encode, Offset, ExpectedSize, FieldsUpTo, Written;
    length := ExpectedSize(h.flags);
    ok := length <= buf.Length;
    if !ok {
      return;
    }
    ghost var start := buf[..];
    FieldsStart(h);
    Store(buf, 0, Zeros(length));
    ghost var was := buf[..];
    assert was == Zeros(length) + start[length..];
    buf[0] := h.flags;
    assert buf[..] == was[0 := h.flags];
    WrittenFirst(was, h);
    var pos := 1;
    pos := WriteField(buf, pos, h, 0, was);
    pos := WriteField(buf, pos, h, 1, was);
    pos := WriteField(buf, pos, h, 2, was);
    pos := WriteField(buf, pos, h, 3, was);
    pos := WriteField(buf, pos, h, 4, was);
    pos := WriteField(buf, pos, h, 5, was);
    WrittenAll(buf[..], start, h);
  }

  lemma WrittenFirst(was: Data, h: Header)
    requires ExpectedSize(h.flags) <= |was|
    ensures 1 <= |was| && Written(was[0 := h.flags], was, h, 0)
  {
  }

  lemma WrittenAll(now: Data, start: Data, h: Header)
    requires ExpectedSize(h.flags) <= |start|
    requires Written(now, Zeros(ExpectedSize(h.flags)) + start[ExpectedSize(h.flags)..], h, FIELDS)
    ensures now == Encode(h) + start[ExpectedSize(h.flags)..]
  {
  }

  lemma FieldsStart(h: Header)
    ensures FieldsUpTo(h, 0) == [] && Offset(h.flags, 0) == 0
    ensures forall k | 0 <= k < FIELDS :: 1 + Offset(h.flags, k) + Width(h.flags, k) <= ExpectedSize(h.flags)
  {
    forall k | 0 <= k < FIELDS
      ensures Offset(h.flags, k) + Width(h.flags, k) <= Offset(h.flags, FIELDS)
    {
      OffsetGrows(h.flags, k + 1, FIELDS);
    }
  }

  // Reads one optional field at the cursor and moves it along.
  method ReadField24(b: Data, flags: Byte, k: nat, cur: nat, ghost at: nat) returns (n: Seq24, cur': nat)
    requires k < 3 && cur == at + Offset(flags, k) && at + Offset(flags, FIELDS) <= |b|
    ensures n == Field24(b, flags, k, at) && cur' == at + Offset(flags, k + 1)
  {
    hide HasField, Read24;
    OffsetGrows(flags, k + 1, FIELDS);
    n, cur' := 0, cur;
    if HasField(flags, k) {
      n, cur' := Read24(b, cur), cur + 3;
    }
  }

  method ReadField32(b: Data, flags: Byte, k: nat, cur: nat, ghost at: nat) returns (n: Word32, cur': nat)
    requires 3 <= k < FIELDS && cur == at + Offset(flags, k) && at + Offset(flags, FIELDS) <= |b|
    ensures n == Field32(b, flags, k, at) && cur' == at + Offset(flags, k + 1)
  {
    hide HasField, Read32;
    OffsetGrows(flags, k + 1, FIELDS);
    n, cur' := 0, cur;
    if HasField(flags, k) {
      n, cur' := Read32(b, cur), cur + 4;
    }
  }

  method ReadRttResponse(b: Data, flags: Byte, cur: nat, ghost at: nat) returns (n: Seq24, delay: Byte)
    requires cur == at + Offset(flags, 5) && at + Offset(flags, FIELDS) <= |b|
    ensures n == Field24(b, flags, 5, at) && delay == FieldDelay(b, flags, at)
  {
    hide HasField, Read24;
    OffsetGrows(flags, 6, FIELDS);
    n, delay := 0, 0;
    if HasField(flags, 5) {
      n, delay := Read24(b, cur), b[cur + 3];
    }
  }

  method Read(b: Data) returns (r: Result)
    ensures r == Parse(b)
  {
    hide Has, Offset, HasField, Read16, Field24, Field32, FieldDelay;
    if |b| == 0 {
      return Bad;
    }
    var flags := b[0];
    var filler, expected := FillerSize(flags), ExpectedSize(flags);
    if filler == 2 {
      if |b| < 4 {
        return Bad;
      }
      var twoBytes := Read16(b, 2);
      filler, expected := filler + twoBytes, expected + twoBytes;
    }
    if |b| < expected {
      return Bad;
    }
    var cur := 1;
    if Has(flags, EXTRA_FLAG) {
      cur := cur + 1 + filler;
    }
    ghost var at := cur;
    assert at == expected - Offset(flags, FIELDS);
    OffsetZero(flags);
    var sn, ack, nak, linkCapacity, arrivalRate;
    sn, cur := ReadField24(b, flags, 0, cur, at);
    ack, cur := ReadField24(b, flags, 1, cur, at);
    nak, cur := ReadField24(b, flags, 2, cur, at);
    linkCapacity, cur := ReadField32(b, flags, 3, cur, at);
    arrivalRate, cur := ReadField32(b, flags, 4, cur, at);
    var rttResponse, rttResponseDelay := ReadRttResponse(b, flags, cur, at);
    r := Ok(Header(flags, sn, ack, nak, linkCapacity, arrivalRate, rttResponse, rttResponseDelay), expected);
  }

  lemma OffsetZero(flags: Byte)
    ensures Offset(flags, 0) == 0
  {
  }

  // ----- datagrams

  // What becomes of a datagram. In the last three cases a known connection has
  // been given the header.
  datatype Datagram =
    | BadHeader
    | InvalidAddress
    | Heartbeat(header: Header)
    | TooShort(header: Header)
    | Messages(header: Header, messages: seq<M.Received>)

  // known: the datagram is from the remote host of an existing connection.
  // addressOk: that connection takes the address it came in on.
  function Taken(raw: Data, known: bool, addressOk: bool, accepted: nat -> bool): Datagram {
    match Parse(raw)
    case Bad => BadHeader
    case Ok(h, n) =>
      if known && !addressOk then InvalidAddress
      else if |raw| == n then Heartbeat(h)
      else if |raw| < n + M.MIN_LENGTH then TooShort(h)
      else Messages(h, M.Handed(raw[n..], 0, accepted, 0))
  }

  method OnMessage(raw: Data, known: bool, addressOk: bool, accepted: nat -> bool) returns (d: Datagram)
    ensures d == Taken(raw, known, addressOk, accepted)
  {
    var header := Read(raw);
    match header {
      case Bad =>
        d := BadHeader;
      case Ok(h, n) =>
        if known && !addressOk {
          return InvalidAddress;
        }
        if n == |raw| {
          d := Heartbeat(h);
        } else if |raw| < n + M.MIN_LENGTH {
          d := TooShort(h);
        } else {
          var messages, _ := M.MessageLoop(raw[n..], accepted);
          d := Messages(h, messages);
        }
    }
  }

  // A header and a list of messages, printed behind one another, are received
  // as that header and that list, and the header alone as a heartbeat, unless a
  // known connection does not take the address.
  lemma DatagramRoundTrip(h: Header, ms: seq<M.Message>, known: bool, addressOk: bool, accepted: nat -> bool)
    requires !Has(h.flags, EXTRA_FLAG) && M.AllSendable(ms)
    ensures Taken(Encode(h) + M.EncodeAll(ms), known, addressOk, accepted)
         == if known && !addressOk then InvalidAddress
            else if ms == [] then Heartbeat(Normal(h)) else Messages(Normal(h), M.HandedOf(ms, accepted, 0))
  {
    hide Parse, Encode, M.Handed, M.HandedOf, M.AllSendable, M.Encode;
    HeaderRoundTrip(h, M.EncodeAll(ms));
    M.LoopRoundTrip([], ms, accepted, 0);
    assert (Encode(h) + M.EncodeAll(ms))[|Encode(h)|..] == [] + M.EncodeAll(ms);
    if ms != [] {
      M.EncodeLength(ms[0]);
    }
  }

  // A header followed by less than a message header is not taken for messages.
  lemma ShortDatagram(h: Header, rest: Data, known: bool, accepted: nat -> bool)
    requires !Has(h.flags, EXTRA_FLAG) && 0 < |rest| < 4
    ensures Taken(Encode(h) + rest, known, true, accepted) == TooShort(Normal(h))
  {
    hide Parse, Encode;
    HeaderRoundTrip(h, rest);
  }

  // The order of the fields, byte by byte.
  lemma HeaderExample()
    ensures Parse([0x0F, 3, 2, 1, 6, 5, 4, 9, 8, 7, 10, 11, 12, 13])
         == Ok(Header(0x0F, 0x010203, 0x040506, 0x070809, 0x0A0B0C0D, 0, 0, 0), 14)
  {
    hide Offset;
    Widths(0x0F);
  }

  lemma RatesExample()
    ensures Parse([0x58, 10, 11, 12, 13, 14, 15, 16, 17, 20, 19, 18, 21])
         == Ok(Header(0x58, 0, 0, 0, 0x0A0B0C0D, 0x0E0F1011, 0x121314, 21), 13)
  {
    hide Offset;
    Widths(0x58);
  }

  // Headers with one field each, byte by byte; an RTT request has none.
  lemma OneNumberExample()
    ensures Parse([0x01, 3, 2, 1]) == Ok(Header(0x01, 0x010203, 0, 0, 0, 0, 0, 0), 4)
    ensures Parse([0x02, 3, 2, 1]) == Ok(Header(0x02, 0, 0x010203, 0, 0, 0, 0, 0), 4)
    ensures Parse([0x04, 3, 2, 1]) == Ok(Header(0x04, 0, 0, 0x010203, 0, 0, 0, 0), 4)
  {
    hide Offset;
    Widths(0x01);
    Widths(0x02);
    Widths(0x04);
  }

  lemma OneRateExample()
    ensures Parse([0x08, 1, 2, 3, 4]) == Ok(Header(0x08, 0, 0, 0, 0x01020304, 0, 0, 0), 5)
    ensures Parse([0x10, 1, 2, 3, 4]) == Ok(Header(0x10, 0, 0, 0, 0, 0x01020304, 0, 0), 5)
  {
    hide Offset;
    Widths(0x08);
    Widths(0x10);
  }

  lemma OneRttExample()
    ensures Parse([0x20]) == Ok(Header(0x20, 0, 0, 0, 0, 0, 0, 0), 1)
    ensures Parse([0x40, 3, 2, 1, 4]) == Ok(Header(0x40, 0, 0, 0, 0, 0, 0x010203, 4), 5)
  {
    hide Offset;
    Widths(0x20);
    Widths(0x40);
  }

  lemma Widths(flags: Byte)
    ensures Offset(flags, 0) == 0
    ensures Offset(flags, 1) == Width(flags, 0)
    ensures Offset(flags, 2) == Offset(flags, 1) + Width(flags, 1)
    ensures Offset(flags, 3) == Offset(flags, 2) + Width(flags, 2)
    ensures Offset(flags, 4) == Offset(flags, 3) + Width(flags, 3)
    ensures Offset(flags, 5) == Offset(flags, 4) + Width(flags, 4)
    ensures Offset(flags, FIELDS) == Offset(flags, 5) + Width(flags, 5)
  {
  }

  // With the extra flags bit: a one byte filler goes with the sequence number,
  // and a filler with a length of its own with the ack.
  lemma FillerExample()
    ensures Parse([0x81, 0, 0xFF, 3, 2, 1]) == Ok(Header(0x81, 0x010203, 0, 0, 0, 0, 0, 0), 6)
    ensures Parse([0x84, 0, 3, 2, 1]) == Ok(Header(0x84, 0, 0, 0x010203, 0, 0, 0, 0), 5)
  {
    hide Offset;
    Widths(0x81);
    Widths(0x84);
  }

  lemma LongFillerExample()
    ensures Parse([0x82, 0, 0, 1, 0xFF, 3, 2, 1]) == Ok(Header(0x82, 0, 0x010203, 0, 0, 0, 0, 0), 8)
    ensures Parse([0x82, 0, 1]) == Bad && |Encode(Header(0x82, 0, 0x010203, 0, 0, 0, 0, 0))| == 7
  {
    hide Offset;
    Widths(0x82);
  }
}
