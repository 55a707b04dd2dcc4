/** Whole runs of the ordered receiver: any arrivals of fragments of one
    stream, lost, duplicated and reordered at will. */
module OrderedRuns {
  import opened NetUtil
  import opened OrderedSpec
  import MessageSets
  import OrderedReceiver
  import S = Streams

  // A copy of fragment t arriving with a header of the given length.
  datatype Arrival = Arrival(t: nat, headerLength: nat)

  ghost predicate Sent(c: Channel, arrivals: seq<Arrival>) {
    forall i | 0 <= i < |arrivals| :: c.Has(arrivals[i].t)
  }

  ghost function Run(c: Channel, cap: nat, a: Accepted, arrivals: seq<Arrival>): (a': Accepted)
    requires InChannel(c, a) && Sent(c, arrivals)
    ensures InChannel(c, a')
    decreases |arrivals|
  {
    if arrivals == [] then a
    else Run(c, cap, Accept(c, cap, a, arrivals[0].t, arrivals[0].headerLength), arrivals[1..])
  }

  // Every arrival is unwrapped to the number that was sent.
  ghost predicate Recognised(c: Channel, cap: nat, a: Accepted, arrivals: seq<Arrival>)
    requires InChannel(c, a) && Sent(c, arrivals)
    decreases |arrivals|
  {
    arrivals == [] ||
    (InWindow(Expected(c, a), arrivals[0].t)
     && Recognised(c, cap, Accept(c, cap, a, arrivals[0].t, arrivals[0].headerLength), arrivals[1..]))
  }

  ghost predicate NoneRefused(c: Channel, cap: nat, a: Accepted, arrivals: seq<Arrival>)
    requires InChannel(c, a) && Sent(c, arrivals)
    decreases |arrivals|
  {
    arrivals == [] ||
    (!Refused(c, cap, a, arrivals[0].t, arrivals[0].headerLength)
     && NoneRefused(c, cap, Accept(c, cap, a, arrivals[0].t, arrivals[0].headerLength), arrivals[1..]))
  }

  ghost predicate Arrived(arrivals: seq<Arrival>, t: nat) {
    exists i :: 0 <= i < |arrivals| && arrivals[i].t == t
  }

  lemma {:induction false} RunAppend(c: Channel, cap: nat, a: Accepted, arrivals: seq<Arrival>, x: Arrival)
    requires InChannel(c, a) && Sent(c, arrivals + [x])
    ensures Sent(c, arrivals) && c.Has(x.t)
    ensures Run(c, cap, a, arrivals + [x]) == Accept(c, cap, Run(c, cap, a, arrivals), x.t, x.headerLength)
    ensures Recognised(c, cap, a, arrivals + [x]) <==>
            Recognised(c, cap, a, arrivals) && InWindow(Expected(c, Run(c, cap, a, arrivals)), x.t)
    decreases |arrivals|
  {
    assert (arrivals + [x])[|arrivals|] == x;
    assert forall i | 0 <= i < |arrivals| :: (arrivals + [x])[i] == arrivals[i];
    if arrivals != [] {
      assert (arrivals + [x])[1..] == arrivals[1..] + [x];
      assert Sent(c, (arrivals + [x])[1..]);
      RunAppend(c, cap, Accept(c, cap, a, arrivals[0].t, arrivals[0].headerLength), arrivals[1..], x);
    } else {
      assert arrivals + [x] == [x] && [x][1..] == [];
    }
  }

  // What has been accepted has arrived; without refusals, what has arrived has been accepted.
  lemma {:induction false} AcceptedIsArrived(c: Channel, cap: nat, a: Accepted, arrivals: seq<Arrival>)
    requires InChannel(c, a) && Sent(c, arrivals)
    ensures a.Keys <= Run(c, cap, a, arrivals).Keys
    ensures forall t | t in Run(c, cap, a, arrivals) :: t in a || Arrived(arrivals, t)
    ensures NoneRefused(c, cap, a, arrivals) ==>
              forall t | Arrived(arrivals, t) :: t in Run(c, cap, a, arrivals)
    decreases |arrivals|
  {
    if arrivals != [] {
      var x, rest := arrivals[0], arrivals[1..];
      var a1 := Accept(c, cap, a, x.t, x.headerLength);
      AcceptedIsArrived(c, cap, a1, rest);
      var r := Run(c, cap, a, arrivals);
      forall t | t in r
        ensures t in a || Arrived(arrivals, t)
      {
        if t !in a1 {
          assert Arrived(rest, t);
          var i :| 0 <= i < |rest| && rest[i].t == t;
          assert arrivals[i + 1].t == t;
        } else if t !in a {
          assert arrivals[0].t == t;
        }
      }
      if NoneRefused(c, cap, a, arrivals) {
        forall t | Arrived(arrivals, t)
          ensures t in r
        {
          if t == x.t {
            assert t in a1.Keys;
          } else {
            var i :| 0 <= i < |arrivals| && arrivals[i].t == t;
            assert rest[i - 1].t == t;
            assert Arrived(rest, t);
          }
        }
      }
    }
  }

  // The channel on which the messages msgs are sent.
  ghost predicate Carries(c: Channel, msgs: seq<S.Data>) {
    c.Valid() && S.NonEmpty(msgs) && c.s == S.Stream(msgs)
  }

  // What has been emitted is the messages lying wholly inside the longest
  // contiguous accepted prefix, in the order they were sent.
  lemma DeliveredInOrder(c: Channel, a: Accepted, msgs: seq<S.Data>)
    requires Carries(c, msgs) && InChannel(c, a)
    ensures Delivered(c, a) == msgs[..S.WholeMessages(msgs, Expected(c, a) - c.base)]
  {
    hide S.Messages, S.GroupStart, S.WholeMessages, S.Stream, S.WellFormed, PrefixEnd;
    S.MessagesBefore(msgs, Expected(c, a) - c.base);
  }

  // In-order safety of every run, refusals or not: the emitted list only
  // grows, and it is always a prefix of the list that was sent.
  lemma EveryRunIsInOrder(c: Channel, cap: nat, a: Accepted, arrivals: seq<Arrival>, msgs: seq<S.Data>)
    requires Carries(c, msgs) && InChannel(c, a) && Sent(c, arrivals)
    ensures Delivered(c, a) <= Delivered(c, Run(c, cap, a, arrivals)) <= msgs
  {
    hide Run, S.WholeMessages, S.Messages, S.Stream, S.GroupStart, S.WellFormed, PrefixEnd;
    var a' := Run(c, cap, a, arrivals);
    AcceptedIsArrived(c, cap, a, arrivals);
    PrefixEndGrows(a, a', c.base);
    DeliveredInOrder(c, a, msgs);
    DeliveredInOrder(c, a', msgs);
    var p, q := Expected(c, a) - c.base, Expected(c, a') - c.base;
    WholeMessagesGrows(msgs, p, q);
    PrefixesGrow(msgs, S.WholeMessages(msgs, p), S.WholeMessages(msgs, q));
  }

  lemma PrefixesGrow<T>(s: seq<T>, i: nat, j: nat)
    requires i <= j <= |s|
    ensures s[..i] <= s[..j] <= s
  {
  }

  lemma {:induction false} StreamLengthGrows(msgs: seq<S.Data>, i: nat, j: nat)
    requires S.NonEmpty(msgs) && i <= j <= |msgs|
    ensures |S.Stream(msgs[..i])| <= |S.Stream(msgs[..j])|
    decreases j
  {
    if i < j {
      StreamLengthGrows(msgs, i, j - 1);
      assert msgs[..j][..j - 1] == msgs[..j - 1];
    }
  }

  lemma WholeMessagesGrows(msgs: seq<S.Data>, p: nat, q: nat)
    requires S.NonEmpty(msgs) && p <= q
    ensures S.WholeMessages(msgs, p) <= S.WholeMessages(msgs, q)
  {
  }

  lemma AllWhole(msgs: seq<S.Data>)
    requires S.NonEmpty(msgs)
    ensures S.WholeMessages(msgs, |S.Stream(msgs)|) == |msgs|
    ensures msgs[..|msgs|] == msgs
  {
    assert msgs[..|msgs|] == msgs;
  }

  // Without refusals the contiguous prefix is that of the numbers that arrived,
  // so once every number has arrived every message has been emitted.
  lemma NoRefusalDeliversPrefix(c: Channel, cap: nat, arrivals: seq<Arrival>, msgs: seq<S.Data>)
    requires Carries(c, msgs) && Sent(c, arrivals) && NoneRefused(c, cap, map[], arrivals)
    ensures var e := Expected(c, Run(c, cap, map[], arrivals));
      && (forall t | c.base <= t < e :: Arrived(arrivals, t))
      && !Arrived(arrivals, e)
      && Delivered(c, Run(c, cap, map[], arrivals)) == msgs[..S.WholeMessages(msgs, e - c.base)]
    ensures (forall t | c.Has(t) :: Arrived(arrivals, t)) ==> Delivered(c, Run(c, cap, map[], arrivals)) == msgs
  {
    hide Run, S.WholeMessages, S.Messages, S.Stream, S.GroupStart, S.WellFormed, PrefixEnd, NoneRefused, Delivered;
    var a := Run(c, cap, map[], arrivals);
    AcceptedIsArrived(c, cap, map[], arrivals);
    var e := Expected(c, a);
    assert forall t | c.base <= t < e :: t in a;
    DeliveredInOrder(c, a, msgs);
    if forall t | c.Has(t) :: Arrived(arrivals, t) {
      assert !c.Has(e) by {
        assert !Arrived(arrivals, e);
      }
      AllWhole(msgs);
    }
  }

  lemma RunNothing(c: Channel, cap: nat, a: Accepted)
    requires InChannel(c, a)
    ensures Run(c, cap, a, []) == a
  {
  }

  lemma ReceiverIs(r: OrderedReceiver.Receiver)
    requires r.Inv() && !r.closed
    ensures r.stream.base <= r.stream.End() && InChannel(r.stream, r.accepted)
    ensures r.emitted == Delivered(r.stream, r.accepted)
    ensures r.ExpectedSequenceNumber() == Expected(r.stream, r.accepted)
  {
    PrefixEndUnique(r.accepted, r.stream.base, r.ExpectedSequenceNumber());
  }

  // The receiver buffer carries out these runs.
  method Deliver(r: OrderedReceiver.Receiver, c: Channel, arrivals: seq<Arrival>)
    requires r.Inv() && !r.closed && c == r.stream && Sent(c, arrivals)
    requires Recognised(r.stream, r.size, r.accepted, arrivals)
    modifies r, r.sets
    ensures r.Inv() && !r.closed && r.stream == old(r.stream)
    ensures r.accepted == Run(r.stream, r.size, old(r.accepted), arrivals)
    ensures r.emitted == Delivered(r.stream, r.accepted)
    ensures r.ExpectedSequenceNumber() == Expected(r.stream, r.accepted)
  {
    hide OrderedReceiver.Receiver.Inv, AcksOk, Accept, Refused, Run, Recognised, PrefixEnd, Delivered;
    ReceiverIs(r);
    ghost var a0 := r.accepted;
    RunNothing(c, r.size, a0);
    assert arrivals[..|arrivals|] == arrivals;
    for i := 0 to |arrivals|
      invariant r.Inv() && !r.closed && r.stream == c
      invariant Sent(c, arrivals[..i]) && Recognised(c, r.size, a0, arrivals)
      invariant r.accepted == Run(c, r.size, a0, arrivals[..i])
    {
      var x := arrivals[i];
      assert arrivals[..i + 1] == arrivals[..i] + [x];
      RunAppend(c, r.size, a0, arrivals[..i], x);
      RecognisedPrefix(c, r.size, a0, arrivals, i + 1);
      ReceiverIs(r);
      var f := c.At(x.t);
      r.GotMessage(Wrap(x.t), f.first, f.last, x.headerLength, f.data, false, x.t);
    }
    ReceiverIs(r);
  }

  lemma {:induction false} RecognisedPrefix(c: Channel, cap: nat, a: Accepted, arrivals: seq<Arrival>, n: nat)
    requires InChannel(c, a) && Sent(c, arrivals) && n <= |arrivals|
    requires Recognised(c, cap, a, arrivals)
    ensures Recognised(c, cap, a, arrivals[..n])
    decreases |arrivals|
  {
    if n > 0 {
      RecognisedPrefix(c, cap, Accept(c, cap, a, arrivals[0].t, arrivals[0].headerLength), arrivals[1..], n - 1);
      assert arrivals[..n][1..] == arrivals[1..][..n - 1];
    }
  }

  lemma {:induction false} UsedGrows(c: Channel, a: Accepted, t: nat, headerLength: nat, lo: nat, hi: nat)
    requires InChannel(c, a) && c.Has(t) && t !in a
    ensures InChannel(c, a[t := headerLength]) && Used(c, a, lo, hi) <= Used(c, a[t := headerLength], lo, hi)
    decreases hi - lo
  {
    if lo < hi {
      UsedGrows(c, a, t, headerLength, lo + 1, hi);
    }
  }

  ghost predicate HeadersAtLeast(arrivals: seq<Arrival>, h: nat) {
    forall i | 0 <= i < |arrivals| :: arrivals[i].headerLength >= h
  }

  // The expected fragment is part of a split message and does not fit, even
  // with a header of only h bytes.
  ghost predicate Stuck(c: Channel, cap: nat, a: Accepted, h: nat)
    requires InChannel(c, a)
  {
    var e := Expected(c, a);
    c.Has(e) && c.IsSplit(e) && Held(c, a) + h + |c.At(e).data| > cap
  }

  // A buffer that is stuck, filled with later fragments, never recovers: the
  // expected fragment is refused however often it and anything else is sent again.
  lemma {:induction false} FullBufferStalls(c: Channel, cap: nat, a: Accepted, arrivals: seq<Arrival>, h: nat)
    requires InChannel(c, a) && Sent(c, arrivals)
    requires HeadersAtLeast(arrivals, h) && Stuck(c, cap, a, h)
    ensures Expected(c, Run(c, cap, a, arrivals)) == Expected(c, a)
    ensures Delivered(c, Run(c, cap, a, arrivals)) == Delivered(c, a)
    decreases |arrivals|
  {
    if arrivals != [] {
      var x, e := arrivals[0], Expected(c, a);
      var a1 := Accept(c, cap, a, x.t, x.headerLength);
      if x.t == e {
        assert a1 == a;
      } else {
        PrefixEndUnique(a1, c.base, e);
        if a1 != a {
          UsedGrows(c, a, x.t, x.headerLength, c.StartOf(e), c.End());
        }
      }
      FullBufferStalls(c, cap, a1, arrivals[1..], h);
    }
  }

  // As long as something is missing, some arrivals with headers of at least h
  // bytes advance the expected number if and only if the buffer is not stuck.
  lemma AdvancesUnlessStuck(c: Channel, cap: nat, a: Accepted, h: nat)
    requires InChannel(c, a) && c.Has(Expected(c, a))
    ensures (exists arrivals :: Sent(c, arrivals) && HeadersAtLeast(arrivals, h)
                                && Expected(c, Run(c, cap, a, arrivals)) > Expected(c, a))
      <==> !Stuck(c, cap, a, h)
  {
    hide Stuck, PrefixEnd, Held;
    if Stuck(c, cap, a, h) {
      forall arrivals | Sent(c, arrivals) && HeadersAtLeast(arrivals, h)
        ensures Expected(c, Run(c, cap, a, arrivals)) == Expected(c, a)
      {
        FullBufferStalls(c, cap, a, arrivals, h);
      }
    } else {
      var e := Expected(c, a);
      var arrivals := [Arrival(e, h)];
      assert Sent(c, arrivals) && HeadersAtLeast(arrivals, h);
      OneArrival(c, cap, a, e, h);
      NotStuck(c, cap, a, h);
      assert e in Run(c, cap, a, arrivals);
      PrefixEndGrows(a, Run(c, cap, a, arrivals), c.base);
      assert Expected(c, Run(c, cap, a, arrivals)) > e;
    }
  }

  lemma OneArrival(c: Channel, cap: nat, a: Accepted, t: nat, h: nat)
    requires InChannel(c, a) && c.Has(t)
    ensures Run(c, cap, a, [Arrival(t, h)]) == Accept(c, cap, a, t, h)
  {
    assert [Arrival(t, h)][1..] == [];
  }

  lemma NotStuck(c: Channel, cap: nat, a: Accepted, h: nat)
    requires InChannel(c, a) && c.Has(Expected(c, a)) && !Stuck(c, cap, a, h)
    ensures Accept(c, cap, a, Expected(c, a), h) == a[Expected(c, a) := h]
  {
  }

  // Such a state: the second of two parts arrives first and fills the buffer.
  lemma FullBufferExample()
    ensures var c := Channel(0, [S.Fragment(true, false, [1]), S.Fragment(false, true, [2])]);
      var a := map[1 := 7];
      && c.Valid() && InChannel(c, a)
      && a == Accept(c, 8, map[], 1, 7)
      && Stuck(c, 8, a, 7)
  {
  }
}
