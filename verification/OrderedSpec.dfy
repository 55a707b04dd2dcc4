/** The simple description of a RELIABLE_ORDERED receiver: everything it does
    is a function of which fragments it has accepted so far. */
module OrderedSpec {
  import opened NetUtil
  import opened Streams

  // The stream of one channel: its fragments, numbered from base upwards.
  datatype Channel = Channel(base: nat, s: seq<Fragment>) {
    // Numbers stay inside the first block of 2^24, where unwrapping is exact.
    predicate Valid() {
      WellFormed(s) && base + |s| < BLOCK
    }

    function End(): nat { base + |s| }

    predicate Has(t: nat) { base <= t < End() }

    function At(t: nat): Fragment
      requires Has(t)
    {
      s[t - base]
    }

    predicate IsSplit(t: nat)
      requires Has(t)
    {
      !(At(t).first && At(t).last)
    }

    // The number that starts the message of number t.
    function StartOf(t: nat): (g: nat)
      requires base <= t <= End()
      ensures base <= g <= t
    {
      base + GroupStart(s, t - base)
    }

    // The messages that lie wholly below number t, which starts a message.
    function Before(t: nat): seq<Data>
      requires base <= t <= End()
    {
      Messages(s, t - base)
    }
  }

  // A fragment on its own carries its own data.
  lemma SinglePayload(c: Channel, x: nat)
    requires c.Has(x)
    ensures Payload(c.s, x - c.base, x + 1 - c.base) == c.At(x).data
  {
  }

  // The number that was sent is the number the receiver guesses.
  lemma Guessed(c: Channel, expected: nat, t: nat)
    requires c.Valid() && c.Has(t) && c.base <= expected <= c.End() && InWindow(expected, t)
    ensures Unwrap(expected, Wrap(t)) == t && Wrap(t) == t
    ensures expected > 0 ==> Wrap(expected - 1) == expected - 1
  {
    UnwrapExact(expected, t);
  }

  // The accepted numbers, each with the header length of the copy accepted.
  type Accepted = map<nat, nat>

  ghost predicate AllIn(a: Accepted, lo: nat, hi: nat) {
    forall k | lo <= k < hi :: k in a
  }

  // The first number at or above e that has not been accepted.
  ghost function PrefixEnd(a: Accepted, e: nat): (x: nat)
    ensures e <= x && x !in a
    ensures AllIn(a, e, x)
    decreases set k | k in a && k >= e
  {
    if e in a then
      var here, next := set k | k in a && k >= e, set k | k in a && k >= e + 1;
      assert e in here && e !in next && next <= here;
      PrefixEnd(a, e + 1)
    else e
  }

  lemma PrefixEndUnique(a: Accepted, e: nat, x: nat)
    requires e <= x && x !in a && AllIn(a, e, x)
    ensures PrefixEnd(a, e) == x
  {
    assert PrefixEnd(a, e) !in a;
  }

  lemma PrefixEndGrows(a: Accepted, a': Accepted, e: nat)
    requires a.Keys <= a'.Keys
    ensures PrefixEnd(a, e) <= PrefixEnd(a', e)
  {
  }

  ghost predicate InChannel(c: Channel, a: Accepted) {
    forall t {:trigger t in a} | t in a :: c.Has(t)
  }

  lemma PrefixInChannel(c: Channel, a: Accepted)
    requires InChannel(c, a)
    ensures c.base <= PrefixEnd(a, c.base) <= c.End()
  {
    assert c.End() !in a;
  }

  // The end of the longest contiguous accepted prefix.
  ghost function Expected(c: Channel, a: Accepted): (e: nat)
    requires InChannel(c, a)
    ensures c.base <= e <= c.End() && e !in a && AllIn(a, c.base, e)
  {
    PrefixInChannel(c, a);
    PrefixEnd(a, c.base)
  }

  // The messages lying wholly inside the longest contiguous accepted prefix.
  ghost function Delivered(c: Channel, a: Accepted): seq<Data>
    requires InChannel(c, a)
  {
    c.Before(c.StartOf(Expected(c, a)))
  }

  // Bytes that the accepted fragments numbered lo..hi take in the buffer.
  ghost function Used(c: Channel, a: Accepted, lo: nat, hi: nat): nat
    requires InChannel(c, a)
    decreases hi - lo
  {
    if lo >= hi then 0
    else (if lo in a then a[lo] + |c.At(lo).data| else 0) + Used(c, a, lo + 1, hi)
  }

  // Bytes held: accepted fragments of messages that are not delivered yet.
  ghost function Held(c: Channel, a: Accepted): nat
    requires InChannel(c, a)
  {
    Used(c, a, c.StartOf(Expected(c, a)), c.End())
  }

  // A new fragment is refused when it needs the buffer and does not fit in it.
  ghost predicate Refused(c: Channel, cap: nat, a: Accepted, t: nat, headerLength: nat)
    requires InChannel(c, a) && c.Has(t)
  {
    && t !in a
    && (t != Expected(c, a) || c.IsSplit(t))
    && Held(c, a) + headerLength + |c.At(t).data| > cap
  }

  // One arrival.
  ghost function Accept(c: Channel, cap: nat, a: Accepted, t: nat, headerLength: nat): (a': Accepted)
    requires InChannel(c, a) && c.Has(t)
    ensures InChannel(c, a') && a.Keys <= a'.Keys
  {
    if t in a || Refused(c, cap, a, t, headerLength) then a else a[t := headerLength]
  }

  // ----- acknowledgements

  // The acknowledgement for an arriving number t itself, when e is expected:
  // for t if it is the expected one, for everything before e if t is older.
  function FirstAck(t: nat, e: nat): seq<nat>
    requires t < e ==> e > 0
  {
    if t > e then [] else if t == e then [e] else [e - 1]
  }

  // When the arrival makes the buffer be processed, and a fragment is held
  // where that starts, everything below the number e' that is expected then is
  // acknowledged. A whole message that was expected is past by that time.
  function SecondAck(c: Channel, t: nat, e: nat, e': nat): seq<nat>
    requires c.Has(t) && c.base <= e <= c.End()
  {
    var x := if t == e && !c.IsSplit(t) then e + 1 else e;
    if t >= e && c.StartOf(x) < e' then [e' - 1] else []
  }

  // What one arrival enqueues.
  predicate AckStep(c: Channel, acks: seq<nat>, acks': seq<nat>, t: nat, e: nat, e': nat)
    requires c.Has(t) && c.base <= e <= c.End()
  {
    acks' == acks + FirstAck(t, e) + SecondAck(c, t, e, e')
  }

  // The newest acknowledgement that an arrival enqueues is for everything below
  // the number expected then, and an arrival that is not too new enqueues one.
  lemma NewestAckReaches(c: Channel, acks: seq<nat>, acks': seq<nat>, t: nat, e: nat, e': nat)
    requires c.Has(t) && c.base <= e <= c.End() && AckStep(c, acks, acks', t, e, e')
    requires e <= e' && (t == e ==> e < e')
    ensures acks <= acks' && (t <= e ==> |acks'| > |acks|)
    ensures |acks'| > |acks| ==> acks'[|acks'| - 1] == e' - 1 || (t < e && acks'[|acks'| - 1] == e - 1)
  {
  }

  ghost predicate AcksOk(acks: seq<nat>, e: nat) {
    && (forall i, j | 0 <= i < j < |acks| :: acks[i] <= acks[j])
    && (forall i | 0 <= i < |acks| :: acks[i] < e)
  }

  // Acknowledgements never decrease, unless an expected fragment was refused.
  lemma AcksStayOk(c: Channel, acks: seq<nat>, acks': seq<nat>, t: nat, e: nat, e': nat)
    requires c.Has(t) && c.base <= e <= c.End()
    requires AcksOk(acks, e) && AckStep(c, acks, acks', t, e, e')
    requires e <= e' && (t == e ==> e < e')
    ensures AcksOk(acks', e')
  {
  }

  // An acknowledgement covers only accepted fragments, unless it is the one
  // for an expected fragment that the buffer refuses; then it is untrue.
  lemma FirstAckTruth(c: Channel, cap: nat, a: Accepted, t: nat, headerLength: nat)
    requires InChannel(c, a) && c.Has(t)
    ensures var e := Expected(c, a);
      t <= e ==>
        (AllIn(Accept(c, cap, a, t, headerLength), c.base, FirstAck(t, e)[0] + 1) <==>
         !(t == e && Refused(c, cap, a, t, headerLength)))
  {
    var e, a' := Expected(c, a), Accept(c, cap, a, t, headerLength);
    assert AllIn(a', c.base, e) by {
      forall k | c.base <= k < e
        ensures k in a'
      {
        assert k in a;
        assert k in a'.Keys;
      }
    }
    if t == e {
      assert AllIn(a', c.base, e + 1) <==> e in a';
    }
  }
}
