/** The same receiver buffer on an UNRELIABLE_SEQUENCED channel: what is older
    than the newest arrival is dropped, gaps are reported as losses, and a split
    message comes out when its parts arrive one right after the other. */
module SequencedReceiver {
  import opened MessageSets
  import opened NetUtil
  import opened Options
  import opened OrderedSpec
  import opened ReceiverBuffer
  import S = Streams

  type Data = S.Data

  // ----- the simple description

  // open is the first fragment of the message whose fragments from open up to
  // expected - 1 have all just been stored. The log holds the number of the
  // fragment that completed each emitted message.
  datatype Progress = Progress(expected: nat, open: Option<nat>, accepted: nat, losses: seq<nat>, log: seq<(nat, Data)>)

  // The message that ends with fragment t and starts with fragment lo.
  function Whole(c: Channel, lo: nat, t: nat): Data
    requires c.base <= lo <= t < c.End()
  {
    S.Payload(c.s, lo - c.base, t + 1 - c.base)
  }

  // Where the message that fragment t continues was started, as far as the
  // receiver still knows.
  function Start(c: Channel, p: Progress, t: nat): (r: Option<nat>)
    requires c.Has(t)
  {
    if c.At(t).first then Some(t) else if t == p.expected then p.open else None
  }

  // One arrival. Whether there is no room in the buffer is up to the buffer.
  ghost function Advance(c: Channel, p: Progress, t: nat, refused: bool): Progress
    requires c.Has(t) && ProgressOk(c, p)
  {
    if t < p.expected then p
    else
      var start := Start(c, p, t);
      var losses := if t > p.expected then p.losses + [t - p.expected] else p.losses;
      var complete := start.Some? && c.At(t).last && (c.At(t).first || !refused);
      var log := if complete then p.log + [(t, Whole(c, start.value, t))] else p.log;
      var open := if c.At(t).last || refused then None else start;
      Progress(t + 1, open, p.accepted + 1, losses, log)
  }

  function Sum(s: seq<nat>): nat {
    if s == [] then 0 else Sum(s[..|s| - 1]) + s[|s| - 1]
  }

  ghost predicate ProgressOk(c: Channel, p: Progress) {
    && c.base <= p.expected <= c.End()
    && (p.open.Some? ==>
          && c.base <= p.open.value < p.expected && c.At(p.open.value).first
          && forall k | p.open.value <= k < p.expected :: !c.At(k).last)
  }

  // d is the message that ends with fragment t.
  ghost predicate EndsAt(c: Channel, t: nat, d: Data) {
    && c.Has(t) && c.At(t).last
    && var m := S.Messages(c.s, t + 1 - c.base);
       m != [] && m[|m| - 1] == d
  }

  // What holds in every run: the numbers that complete messages strictly
  // increase, each emitted message is the one that was sent up to there, and
  // every number below the expected one was either accepted or reported lost.
  ghost predicate Truthful(c: Channel, p: Progress) {
    && ProgressOk(c, p)
    && p.expected == c.base + p.accepted + Sum(p.losses)
    && (forall i | 0 <= i < |p.log| :: p.log[i].0 < p.expected && EndsAt(c, p.log[i].0, p.log[i].1))
    && (forall i, j | 0 <= i < j < |p.log| :: p.log[i].0 < p.log[j].0)
  }

  lemma WholeIsMessage(c: Channel, lo: nat, t: nat)
    requires c.Valid() && c.base <= lo <= t < c.End()
    requires c.At(lo).first && c.At(t).last && forall k | lo <= k < t :: !c.At(k).last
    ensures EndsAt(c, t, Whole(c, lo, t))
  {
    forall j | lo - c.base <= j < t - c.base
      ensures !c.s[j].last
    {
      assert !c.At(j + c.base).last;
    }
    S.MessagesStep(c.s, lo - c.base, t - c.base);
  }

  lemma AdvanceIsTruthful(c: Channel, p: Progress, t: nat, refused: bool)
    requires c.Valid() && Truthful(c, p) && c.Has(t)
    ensures Truthful(c, Advance(c, p, t, refused))
  {
    hide EndsAt, S.WellFormed;
    var p' := Advance(c, p, t, refused);
    if t >= p.expected {
      var losses := p.losses + [t - p.expected];
      assert losses[..|p.losses|] == p.losses;
      var start := Start(c, p, t);
      if start.Some? && c.At(t).last && (c.At(t).first || !refused) {
        WholeIsMessage(c, start.value, t);
      }
    }
  }

  datatype Arrival = Arrival(t: nat, refused: bool)

  ghost predicate InStream(c: Channel, arrivals: seq<Arrival>) {
    forall i | 0 <= i < |arrivals| :: c.Has(arrivals[i].t)
  }

  ghost function Run(c: Channel, arrivals: seq<Arrival>): (p: Progress)
    requires InStream(c, arrivals)
    ensures c.base <= c.End() && ProgressOk(c, p)
  {
    if arrivals == [] then Progress(c.base, None, 0, [], [])
    else
      var before := arrivals[..|arrivals| - 1];
      assert InStream(c, before);
      Advance(c, Run(c, before), arrivals[|arrivals| - 1].t, arrivals[|arrivals| - 1].refused)
  }

  lemma {:induction false} EveryRunIsTruthful(c: Channel, arrivals: seq<Arrival>)
    requires c.Valid() && InStream(c, arrivals)
    ensures Truthful(c, Run(c, arrivals))
  {
    if arrivals == [] {
      assert Run(c, arrivals).log == [];
    } else {
      var before := arrivals[..|arrivals| - 1];
      EveryRunIsTruthful(c, before);
      AdvanceIsTruthful(c, Run(c, before), arrivals[|arrivals| - 1].t, arrivals[|arrivals| - 1].refused);
    }
  }

  // The numbers that were kept: not older than expected, and not refused.
  ghost function Taken(c: Channel, arrivals: seq<Arrival>): set<nat>
    requires InStream(c, arrivals)
  {
    if arrivals == [] then {}
    else
      var before, x := arrivals[..|arrivals| - 1], arrivals[|arrivals| - 1];
      assert InStream(c, before);
      TakeOne(c, Run(c, before), Taken(c, before), x)
  }

  ghost function TakeOne(c: Channel, p: Progress, taken: set<nat>, x: Arrival): set<nat>
    requires c.Has(x.t)
  {
    if x.t >= p.expected && (!c.IsSplit(x.t) || !x.refused) then taken + {x.t} else taken
  }

  ghost predicate AllTaken(taken: set<nat>, lo: nat, hi: nat) {
    forall k | lo <= k < hi :: k in taken
  }

  ghost predicate Logged(p: Progress, t: nat) {
    exists i :: 0 <= i < |p.log| && p.log[i].0 == t
  }

  // Fragments lo..top - 1 begin a message and do not end it.
  ghost predicate Unfinished(c: Channel, lo: nat, top: nat)
    requires top <= c.End()
  {
    c.base <= lo < top && c.At(lo).first && forall k | lo <= k < top :: !c.At(k).last
  }

  // The open message is the one that the newest fragments begin, and a message
  // has been emitted exactly when all of its fragments have been kept.
  ghost predicate ExactlyKept(c: Channel, p: Progress, taken: set<nat>) {
    && (forall k | k in taken :: c.base <= k < p.expected)
    && p.expected <= c.End()
    && (forall lo: nat | Unfinished(c, lo, p.expected) :: p.open == Some(lo) <==> AllTaken(taken, lo, p.expected))
    && (forall t: nat | c.Has(t) && c.At(t).last :: Logged(p, t) <==> AllTaken(taken, c.StartOf(t), t + 1))
  }

  // The start of the message that an unfinished run of fragments belongs to.
  lemma StartOfRun(c: Channel, lo: nat, t: nat)
    requires c.Valid() && c.base <= lo <= t < c.End()
    requires c.At(lo).first && forall k | lo <= k < t :: !c.At(k).last
    ensures c.StartOf(t) == lo
  {
    forall j | lo - c.base < j <= t - c.base
      ensures !c.s[j].first
    {
      assert S.Adjacent(c.s, j - 1) && !c.At(j - 1 + c.base).last;
    }
    S.GroupStartUnique(c.s, lo - c.base, t - c.base);
  }

  lemma StartOfIs(c: Channel, t: nat)
    requires c.Valid() && c.Has(t)
    ensures var lo := c.StartOf(t); c.At(lo).first && forall k | lo <= k < t :: !c.At(k).last
  {
    S.GroupStartIs(c.s, t - c.base);
    forall k | c.StartOf(t) <= k < t
      ensures !c.At(k).last
    {
      assert !c.s[k - c.base].last;
    }
  }

  // Whether arrival x completes its message.
  lemma CompletesExactly(c: Channel, p: Progress, taken: set<nat>, x: Arrival)
    requires c.Valid() && Truthful(c, p) && ExactlyKept(c, p, taken) && c.Has(x.t) && x.t >= p.expected
    ensures c.At(x.t).last ==>
      ((Start(c, p, x.t).Some? && (c.At(x.t).first || !x.refused)) <==>
         AllTaken(TakeOne(c, p, taken, x), c.StartOf(x.t), x.t + 1))
  {
    var lo, taken' := c.StartOf(x.t), TakeOne(c, p, taken, x);
    StartOfIs(c, x.t);
    if c.At(x.t).first {
      StartOfRun(c, x.t, x.t);
    } else {
      assert lo < x.t;
      assert AllTaken(taken', lo, x.t + 1) ==> x.t - 1 in taken';
      if x.t == p.expected {
        assert Unfinished(c, lo, p.expected);
        if p.open.Some? {
          StartOfRun(c, p.open.value, x.t);
        }
        assert AllTaken(taken', lo, x.t + 1) <==> AllTaken(taken, lo, x.t) && x.t in taken';
      }
    }
  }

  lemma LoggedAfter(c: Channel, p: Progress, x: Arrival, t: nat)
    requires c.Has(x.t) && ProgressOk(c, p) && x.t >= p.expected
    ensures Logged(Advance(c, p, x.t, x.refused), t) <==>
      || Logged(p, t)
      || (t == x.t && c.At(t).last && Start(c, p, t).Some? && (c.At(t).first || !x.refused))
  {
    var p' := Advance(c, p, x.t, x.refused);
    assert forall i | 0 <= i < |p.log| :: p'.log[i] == p.log[i];
    if |p'.log| > |p.log| {
      assert p'.log[|p.log|].0 == x.t;
    }
  }

  lemma OpenAfter(c: Channel, p: Progress, taken: set<nat>, x: Arrival, lo: nat)
    requires c.Valid() && ProgressOk(c, p) && ExactlyKept(c, p, taken) && c.Has(x.t) && x.t >= p.expected
    requires Unfinished(c, lo, x.t + 1)
    ensures Advance(c, p, x.t, x.refused).open == Some(lo) <==> AllTaken(TakeOne(c, p, taken, x), lo, x.t + 1)
  {
    var taken' := TakeOne(c, p, taken, x);
    if lo < x.t {
      StartOfRun(c, lo, x.t);
      StartOfIs(c, x.t);
      if c.At(x.t).first {
        StartOfRun(c, x.t, x.t);
      }
      assert AllTaken(taken', lo, x.t + 1) ==> x.t - 1 in taken';
      if x.t == p.expected {
        assert Unfinished(c, lo, p.expected);
        assert AllTaken(taken', lo, x.t + 1) <==> AllTaken(taken, lo, x.t) && x.t in taken';
      }
    } else {
      assert AllTaken(taken', lo, x.t + 1) <==> x.t in taken';
    }
  }

  lemma StaysExact(c: Channel, p: Progress, taken: set<nat>, x: Arrival)
    requires c.Valid() && Truthful(c, p) && ExactlyKept(c, p, taken) && c.Has(x.t)
    ensures ExactlyKept(c, Advance(c, p, x.t, x.refused), TakeOne(c, p, taken, x))
  {
    var p', taken' := Advance(c, p, x.t, x.refused), TakeOne(c, p, taken, x);
    if x.t >= p.expected {
      forall lo: nat | Unfinished(c, lo, p'.expected)
        ensures p'.open == Some(lo) <==> AllTaken(taken', lo, p'.expected)
      {
        OpenAfter(c, p, taken, x, lo);
      }
      forall t: nat | c.Has(t) && c.At(t).last
        ensures Logged(p', t) <==> AllTaken(taken', c.StartOf(t), t + 1)
      {
        LoggedAfter(c, p, x, t);
        if t == x.t {
          CompletesExactly(c, p, taken, x);
        } else if t < p.expected {
          assert AllTaken(taken', c.StartOf(t), t + 1) <==> AllTaken(taken, c.StartOf(t), t + 1);
        } else {
          assert t !in taken';
        }
      }
    }
  }

  // Over every run, a message is emitted if and only if every one of its
  // fragments was kept.
  lemma {:induction false} EmittedIffKept(c: Channel, arrivals: seq<Arrival>)
    requires c.Valid() && InStream(c, arrivals)
    ensures ExactlyKept(c, Run(c, arrivals), Taken(c, arrivals))
  {
    if arrivals == [] {
      assert Run(c, arrivals) == Progress(c.base, None, 0, [], []) && Taken(c, arrivals) == {};
      var none: set<nat> := {};
      forall t: nat | c.base <= t < c.End()
        ensures !AllTaken(none, c.StartOf(t), t + 1)
      {
        assert t !in none;
      }
    } else {
      var before := arrivals[..|arrivals| - 1];
      EmittedIffKept(c, before);
      EveryRunIsTruthful(c, before);
      StaysExact(c, Run(c, before), Taken(c, before), arrivals[|arrivals| - 1]);
    }
  }

  // ----- what the buffer holds

  // A copy of fragment t with a header of the given length.
  datatype Packet = Packet(t: nat, headerLength: nat)

  function HeldBytes(c: Channel, held: seq<Packet>): nat
    requires forall i | 0 <= i < |held| :: c.Has(held[i].t)
  {
    if held == [] then 0
    else held[0].headerLength + |c.At(held[0].t).data| + HeldBytes(c, held[1..])
  }

  // A whole message clears the buffer, and so does the last part of the open
  // one. The first part of a message clears it of everything older. A part
  // that continues nothing stays until one of these arrives.
  function NextHeld(c: Channel, p: Progress, held: seq<Packet>, x: Packet, refused: bool): seq<Packet>
    requires c.Has(x.t)
  {
    if x.t < p.expected || refused then held
    else if !c.IsSplit(x.t) then []
    else if Start(c, p, x.t).None? then held + [x]
    else if c.At(x.t).last then []
    else if c.At(x.t).first then [x]
    else held + [x]
  }

  datatype Receipt = Receipt(progress: Progress, held: seq<Packet>)

  ghost predicate HeldOk(c: Channel, r: Receipt) {
    && ProgressOk(c, r.progress)
    && (forall i | 0 <= i < |r.held| :: c.base <= r.held[i].t < r.progress.expected)
    && (forall i, j | 0 <= i < j < |r.held| :: r.held[i].t < r.held[j].t)
    && (r.progress.open.Some? ==>
          && |r.held| == r.progress.expected - r.progress.open.value
          && forall i | 0 <= i < |r.held| :: r.held[i].t == r.progress.open.value + i)
  }

  // A part that is not too old is refused when it does not fit.
  ghost predicate Refused(c: Channel, cap: nat, r: Receipt, x: Packet)
    requires HeldOk(c, r) && c.Has(x.t)
  {
    x.t >= r.progress.expected && c.IsSplit(x.t) && HeldBytes(c, r.held) + x.headerLength + |c.At(x.t).data| > cap
  }

  ghost function Receive(c: Channel, cap: nat, r: Receipt, x: Packet): (r': Receipt)
    requires HeldOk(c, r) && c.Has(x.t)
    ensures HeldOk(c, r')
  {
    var refused := Refused(c, cap, r, x);
    Receipt(Advance(c, r.progress, x.t, refused), NextHeld(c, r.progress, r.held, x, refused))
  }

  ghost predicate PacketsOf(c: Channel, packets: seq<Packet>) {
    forall i | 0 <= i < |packets| :: c.Has(packets[i].t)
  }

  // A whole run, in which the buffer decides what is refused.
  ghost function ReceiveAll(c: Channel, cap: nat, packets: seq<Packet>): (r: Receipt)
    requires PacketsOf(c, packets)
    ensures HeldOk(c, r)
  {
    if packets == [] then Receipt(Progress(c.base, None, 0, [], []), [])
    else Receive(c, cap, ReceiveAll(c, cap, packets[..|packets| - 1]), packets[|packets| - 1])
  }

  // The run of the simple description with the same refusals.
  ghost function Arrivals(c: Channel, cap: nat, packets: seq<Packet>): (a: seq<Arrival>)
    requires PacketsOf(c, packets)
    ensures |a| == |packets| && InStream(c, a)
    ensures forall i | 0 <= i < |a| :: a[i].t == packets[i].t
  {
    if packets == [] then []
    else
      var before, x := packets[..|packets| - 1], packets[|packets| - 1];
      Arrivals(c, cap, before) + [Arrival(x.t, Refused(c, cap, ReceiveAll(c, cap, before), x))]
  }

  lemma {:induction false} ReceiveAllIsRun(c: Channel, cap: nat, packets: seq<Packet>)
    requires PacketsOf(c, packets)
    ensures ReceiveAll(c, cap, packets).progress == Run(c, Arrivals(c, cap, packets))
  {
    if packets != [] {
      var before, x := packets[..|packets| - 1], packets[|packets| - 1];
      ReceiveAllIsRun(c, cap, before);
      var arrivals := Arrivals(c, cap, packets);
      assert arrivals[..|arrivals| - 1] == Arrivals(c, cap, before);
    }
  }

  // So both theorems hold of what the buffer itself decides.
  lemma EveryReceiptIsTruthful(c: Channel, cap: nat, packets: seq<Packet>)
    requires c.Valid() && PacketsOf(c, packets)
    ensures var p := ReceiveAll(c, cap, packets).progress;
      Truthful(c, p) && ExactlyKept(c, p, Taken(c, Arrivals(c, cap, packets)))
  {
    ReceiveAllIsRun(c, cap, packets);
    EveryRunIsTruthful(c, Arrivals(c, cap, packets));
    EmittedIffKept(c, Arrivals(c, cap, packets));
  }

  // No part with a header of at least h bytes fits any more.
  ghost predicate Full(c: Channel, cap: nat, r: Receipt, h: nat)
    requires HeldOk(c, r)
  {
    HeldBytes(c, r.held) + h >= cap
  }

  lemma NoRoom(c: Channel, cap: nat, r: Receipt, x: Packet, h: nat)
    requires c.Valid() && HeldOk(c, r) && Full(c, cap, r, h)
    requires c.Has(x.t) && c.IsSplit(x.t) && x.headerLength >= h
    ensures Receive(c, cap, r, x).held == r.held && Receive(c, cap, r, x).progress.log == r.progress.log
  {
    hide HeldOk, HeldBytes;
    assert x.t >= r.progress.expected ==> Refused(c, cap, r, x);
  }

  // A buffer filled with parts of messages that were never completed emits
  // nothing of split messages, and keeps those parts, until a whole message
  // arrives.
  lemma {:induction false} FullUntilWhole(c: Channel, cap: nat, packets: seq<Packet>, more: seq<Packet>, h: nat)
    requires c.Valid() && PacketsOf(c, packets) && PacketsOf(c, more) && PacketsOf(c, packets + more)
    requires Full(c, cap, ReceiveAll(c, cap, packets), h)
    requires forall i | 0 <= i < |more| :: c.IsSplit(more[i].t) && more[i].headerLength >= h
    ensures var r, r' := ReceiveAll(c, cap, packets), ReceiveAll(c, cap, packets + more);
      r'.held == r.held && r'.progress.log == r.progress.log
    decreases |more|
  {
    hide HeldOk, HeldBytes, Receive, ReceiveAll, S.WellFormed;
    if more == [] {
      assert packets + more == packets;
    } else {
      var n, all := |more| - 1, packets + more;
      assert all[..|packets| + n] == packets + more[..n] && all[|packets| + n] == more[n];
      FullUntilWhole(c, cap, packets, more[..n], h);
      assert all[..|packets| + n + 1] == all;
      ReceiveOneMore(c, cap, all, |packets| + n);
      NoRoom(c, cap, ReceiveAll(c, cap, packets + more[..n]), more[n], h);
    }
  }

  // ----- the buffer

  ghost predicate TreeOk(tree: seq<Entry>, c: Channel, channel: nat, top: nat) {
    && (forall i, j | 0 <= i < j < |tree| :: tree[i].sn < tree[j].sn)
    && (forall i | 0 <= i < |tree| ::
          && tree[i].channel == channel && c.Has(tree[i].sn) && tree[i].sn < top
          && S.Fragment(tree[i].first, tree[i].last, tree[i].data) == c.At(tree[i].sn))
  }

  ghost predicate RegOk(reg: Parts, c: Channel, top: nat) {
    PartsOf(reg, c) && forall t {:trigger t in reg} | t in reg :: t < top && c.IsSplit(t)
  }

  // Parts lo..top - 1 are registered and linked, with nothing missing.
  ghost predicate Reaches(reg: Parts, lo: nat, top: nat) {
    lo < top && lo in reg && Joined(reg, lo, top - 1) && top - 1 in reg
  }

  predicate IsEntry(tree: seq<Entry>, i: nat, channel: nat, sn: nat) {
    i < |tree| && tree[i].channel == channel && tree[i].sn == sn
  }

  // The last entries of the tree are the fragments lo..top - 1.
  ghost predicate Suffix(tree: seq<Entry>, lo: nat, top: nat) {
    && lo < top && top - lo <= |tree|
    && forall i | |tree| - (top - lo) <= i < |tree| :: tree[i].sn == top - |tree| + i
  }

  // open is the first part of the run that reaches top - 1, if there is one,
  // and the tree still holds the whole run.
  ghost predicate OpenAt(tree: seq<Entry>, reg: Parts, open: Option<nat>, top: nat) {
    && (forall lo: nat {:trigger Reaches(reg, lo, top)} ::
          Reaches(reg, lo, top) && reg[lo].first <==> open == Some(lo))
    && (open.Some? ==> Suffix(tree, open.value, top))
  }

  // A first part follows a last one.
  lemma FirstFollowsLast(reg: Parts, c: Channel, top: nat, t: nat)
    requires c.Valid() && RegOk(reg, c, top) && c.Has(t) && c.At(t).first
    ensures t == 0 || !Linked(reg, t - 1)
  {
    if t > 0 && t - 1 in reg {
      assert S.Adjacent(c.s, t - 1 - c.base);
    }
  }

  // Storing fragment g, which is newer than everything stored.
  lemma StoredOpen(tree: seq<Entry>, reg: Parts, c: Channel, channel: nat, p: Progress, g: nat, entry: Entry)
    requires c.Valid() && TreeOk(tree, c, channel, p.expected) && RegOk(reg, c, p.expected)
    requires OpenAt(tree, reg, p.open, p.expected) && ProgressOk(c, p)
    requires c.Has(g) && g >= p.expected && c.IsSplit(g)
    requires entry.channel == channel && entry.sn == g && S.Fragment(entry.first, entry.last, entry.data) == c.At(g)
    ensures var reg' := reg[g := MessageSets.Part(entry.first, entry.last, |entry.data|)];
      && TreeOk(tree + [entry], c, channel, g + 1) && RegOk(reg', c, g + 1)
      && OpenAt(tree + [entry], reg', Start(c, p, g), g + 1)
  {
    var reg' := reg[g := MessageSets.Part(entry.first, entry.last, |entry.data|)];
    var start := Start(c, p, g);
    forall lo: nat
      ensures Reaches(reg', lo, g + 1) && reg'[lo].first <==> start == Some(lo)
    {
      if lo < g {
        assert Reaches(reg', lo, g + 1) <==> Linked(reg, g - 1) && Reaches(reg, lo, g) by {
          assert forall k: nat | k < g :: Linked(reg', k) <==> Linked(reg, k);
          if Reaches(reg', lo, g + 1) {
            assert Linked(reg', g - 1);
          }
        }
        assert Reaches(reg, lo, p.expected) && reg[lo].first <==> p.open == Some(lo);
        if c.At(g).first {
          FirstFollowsLast(reg, c, p.expected, g);
        }
      }
    }
  }

  // When the expected number moves on without anything being stored, the open
  // message is lost.
  lemma MovedOn(tree: seq<Entry>, reg: Parts, c: Channel, channel: nat, open: Option<nat>, top: nat, top': nat)
    requires TreeOk(tree, c, channel, top) && RegOk(reg, c, top) && OpenAt(tree, reg, open, top) && top <= top'
    ensures TreeOk(tree, c, channel, top') && RegOk(reg, c, top')
    ensures OpenAt(tree, reg, if top == top' then open else None, top')
  {
  }

  lemma DropKeepsTree(tree: seq<Entry>, reg: Parts, c: Channel, channel: nat, open: Option<nat>, top: nat, n: nat)
    requires TreeOk(tree, c, channel, top) && n <= |tree|
    ensures TreeOk(tree[n..], c, channel, top)
    ensures OpenAt(tree, reg, open, top) && (open.Some? ==> n <= |tree| - (top - open.value)) ==>
      OpenAt(tree[n..], reg, open, top)
  {
  }

  // What the code finds when it looks the set of fragment g up: either the
  // first part of the run that reaches top - 1, or a part that is not a first one.
  lemma Located(tree: seq<Entry>, reg: Parts, c: Channel, channel: nat, open: Option<nat>, top: nat, first: nat)
    requires c.Valid() && TreeOk(tree, c, channel, top) && RegOk(reg, c, top) && OpenAt(tree, reg, open, top)
    requires Reaches(reg, first, top) && (first == 0 || !Linked(reg, first - 1))
    ensures open.Some? ==> first == open.value
    ensures open.None? ==> !reg[first].first
  {
    if open.Some? {
      var lo := open.value;
      assert Reaches(reg, lo, top) && reg[lo].first;
      FirstFollowsLast(reg, c, top, lo);
      assert forall k | lo <= k < top - 1 :: Linked(reg, k);
      assert forall k | first <= k < top - 1 :: Linked(reg, k);
    }
  }

  lemma FoundAt(tree: seq<Entry>, c: Channel, channel: nat, top: nat, lo: nat)
    requires TreeOk(tree, c, channel, top) && Suffix(tree, lo, top)
    ensures LowerBound(tree, channel, lo) == |tree| - (top - lo)
  {
    var i, e := LowerBound(tree, channel, lo), |tree| - (top - lo);
    assert tree[e].sn == lo && tree[e].channel == channel;
    assert forall k | 0 <= k < e :: tree[k].sn < lo && tree[k].channel == channel;
  }

  // The tree and the summary hold the payload of a run.
  lemma {:induction false} RunIsPayload(tree: seq<Entry>, c: Channel, channel: nat, lo: nat, hi: nat, top: nat)
    requires TreeOk(tree, c, channel, top) && Suffix(tree, lo, top) && c.base <= lo <= hi <= top <= c.End()
    ensures var i := |tree| - (top - lo);
      ConcatData(tree[i..i + hi - lo]) == S.Payload(c.s, lo - c.base, hi - c.base)
    decreases hi
  {
    var i := |tree| - (top - lo);
    if lo < hi {
      RunIsPayload(tree, c, channel, lo, hi - 1, top);
      var x := tree[i..i + hi - lo];
      assert x[..|x| - 1] == tree[i..i + hi - 1 - lo];
      assert tree[i + (hi - 1 - lo)].sn == hi - 1;
    } else {
      assert tree[i..i] == [];
    }
  }

  // What the sets report about a run that starts with a first part and has no
  // last part before its end: it is complete exactly when its end is a last part.
  lemma SetOfRun(reg: Parts, c: Channel, lo: nat, top: nat, complete: bool, largest: nat, total: nat)
    requires c.Valid() && RegOk(reg, c, top) && Reaches(reg, lo, top) && top <= c.End()
    requires c.At(lo).first && forall k | lo <= k < top - 1 :: !c.At(k).last
    requires ReportedSet(reg, lo, complete, largest, total)
    ensures largest == top - 1 && (complete <==> c.At(largest).last)
    ensures complete ==> total == SizeSum(reg, lo, top)
  {
    FlagsConsistent(reg, c);
    assert largest in reg;
    assert forall k: nat | lo <= k < top - 1 :: Linked(reg, k);
    assert Linked(reg, largest) ==> !reg[largest].last;
    assert Linked(reg, largest + 1) ==> largest + 1 in reg;
    if c.At(largest).last {
      assert WholeGroup(reg, lo, lo, largest);
    }
    if complete {
      var a: nat, hi: nat :| WholeGroup(reg, a, lo, hi);
      assert largest == hi;
      assert a < lo ==> Linked(reg, lo - 1);
      FirstFollowsLast(reg, c, top, lo);
    }
  }

  lemma RunInReg(reg: Parts, lo: nat, top: nat)
    requires Reaches(reg, lo, top)
    ensures forall k | lo <= k < top :: k in reg
  {
    forall k | lo <= k < top
      ensures k in reg
    {
      assert k < top - 1 ==> Linked(reg, k);
    }
  }

  // The code finds a first part when it looks the set of fragment g up exactly
  // when there is an open message, and then it is where that message starts.
  lemma LookedUp(tree: seq<Entry>, reg: Parts, c: Channel, channel: nat, open: Option<nat>, top: nat,
                 g: nat, first: nat)
    requires c.Valid() && TreeOk(tree, c, channel, top) && RegOk(reg, c, top) && OpenAt(tree, reg, open, top)
    requires c.Has(g) && (top == g || (top == g + 1 && g in reg))
    requires top == g && open.Some? ==> g > 0 && c.Has(g - 1) && !c.At(g - 1).last
    requires if g in reg || (g > 0 && Linked(reg, g - 1))
             then first <= g && first in reg && Joined(reg, first, g) && (first == 0 || !Linked(reg, first - 1))
             else first == g
    ensures var i := LowerBound(tree, channel, first);
      && (IsEntry(tree, i, channel, first) && tree[i].first <==> open.Some?)
      && (open.Some? ==> first == open.value && Suffix(tree, first, top) && Reaches(reg, first, top)
                         && i == |tree| - (top - first))
  {
    hide LowerBound;
    assert open.Some? ==> Reaches(reg, open.value, top);
    if g in reg || (g > 0 && Linked(reg, g - 1)) {
      assert top == g ==> Linked(reg, g - 1);
      assert Reaches(reg, first, top);
      Located(tree, reg, c, channel, open, top, first);
      if open.Some? {
        FoundAt(tree, c, channel, top, first);
      }
    }
  }

  lemma NothingAbove(reg: Parts, c: Channel, top: nat)
    requires RegOk(reg, c, top) && top > 0
    ensures Above(reg, top - 1) == map[]
  {
  }

  function Payloads(log: seq<(nat, Data)>): seq<Data> {
    seq(|log|, i requires 0 <= i < |log| => log[i].1)
  }

  // What is left of the tree when the entries before the open message are dropped.
  ghost function FromOpen(tree: seq<Entry>, open: Option<nat>, top: nat): (r: seq<Entry>)
    requires open.Some? ==> Suffix(tree, open.value, top)
    ensures open.Some? ==> |r| == top - open.value
  {
    if open.Some? then tree[|tree| - (top - open.value)..] else tree
  }

  function HeldOf(tree: seq<Entry>): seq<Packet> {
    seq(|tree|, i requires 0 <= i < |tree| => Packet(tree[i].sn, tree[i].headerLength))
  }

  // The tree after a part has arrived holds what the description says.
  lemma NextHeldIs(c: Channel, p: Progress, tree: seq<Entry>, reg: Parts, entry: Entry, open: Option<nat>,
                   refused: bool)
    requires c.Has(entry.sn) && entry.sn >= p.expected && c.IsSplit(entry.sn) && ProgressOk(c, p)
    requires p.open.Some? ==> |tree| == p.expected - p.open.value
    requires open == if !refused then Start(c, p, entry.sn) else if entry.sn == p.expected then p.open else None
    requires if refused then OpenAt(tree, reg, open, entry.sn) else OpenAt(tree + [entry], reg, open, entry.sn + 1)
    ensures NextHeld(c, p, HeldOf(tree), Packet(entry.sn, entry.headerLength), refused) == HeldOf(
      if refused then FromOpen(tree, open, entry.sn)
      else if open.Some? && c.At(entry.sn).last then []
      else FromOpen(tree + [entry], open, entry.sn + 1))
  {
  }

  // The message that part g can complete or continue: open is where it starts,
  // and what is stored of it ends below top.
  lemma PartAdvances(c: Channel, p: Progress, g: nat, refused: bool, open: Option<nat>, top: nat)
    requires ProgressOk(c, p) && c.Has(g) && g >= p.expected && c.IsSplit(g)
    requires top == if refused then g else g + 1
    requires open == if !refused then Start(c, p, g) else if g == p.expected then p.open else None
    ensures open.Some? ==> c.base <= open.value < top && forall k | open.value <= k < top - 1 :: !c.At(k).last
    ensures open.Some? && refused ==> c.Has(g - 1) && !c.At(g - 1).last
    ensures var p' := Advance(c, p, g, refused);
      && ProgressOk(c, p') && p'.expected == g + 1
      && p'.open == (if refused || c.At(g).last then None else open)
      && p'.log == if open.Some? && c.At(top - 1).last then p.log + [(g, Whole(c, open.value, top - 1))] else p.log
  {
    hide Whole;
  }

  lemma PayloadsAppend(log: seq<(nat, Data)>)
    ensures forall x :: Payloads(log + [x]) == Payloads(log) + [x.1]
  {
  }

  lemma EmptyIsOpen(top: nat)
    ensures OpenAt([], map[], None, top)
  {
  }

  // ----- the class

  class Receiver {
    const channel: nat
    const size: nat
    const initial: nat
    const sets: DisjointMessageSets
    var tree: seq<Entry>
    var bufferSize: nat
    var expectedSnMemo: Option<nat>
    var emitted: seq<Data>
    var losses: seq<nat>                // what emitPacketLoss was called with

    ghost var stream: Channel
    ghost var progress: Progress

    function ExpectedSequenceNumber(): nat
      reads this
    {
      if expectedSnMemo.Some? then expectedSnMemo.value else initial
    }

    ghost predicate Stored(top: nat)
      reads this, sets
    {
      && stream.Valid() && stream.base == initial
      && sets.Valid() && sets.Tight()
      && TreeOk(tree, stream, channel, top) && RegOk(sets.reg, stream, top)
      && bufferSize == TreeBytes(tree) && bufferSize <= size
    }

    // The buffer and what it has emitted are as p says.
    ghost predicate Follows(p: Progress)
      reads this, sets
    {
      && Stored(p.expected) && ProgressOk(stream, p)
      && OpenAt(tree, sets.reg, p.open, p.expected) && (p.open.Some? ==> |tree| == p.expected - p.open.value)
      && emitted == Payloads(p.log)
    }

    ghost predicate Inv()
      reads this, sets
    {
      && Follows(progress)
      && ExpectedSequenceNumber() == progress.expected && losses == progress.losses
    }

    constructor (channel: nat, size: nat, initial: nat, ghost stream: Channel)
      requires stream.Valid() && stream.base == initial
      ensures Inv() && this.stream == stream && Receipt(progress, HeldOf(tree)) == ReceiveAll(stream, size, [])
      ensures this.channel == channel && this.size == size && fresh(sets)
    {
      this.channel, this.size, this.initial := channel, size, initial;
      tree, bufferSize, expectedSnMemo, emitted, losses := [], 0, None, [], [];
      this.stream, progress := stream, Progress(initial, None, 0, [], []);
      sets := new DisjointMessageSets();
    }

    // Keeps the fragment if there is room for it.
    method BufferMessage(g: nat, first: bool, last: bool, headerLength: nat, data: Data) returns (ghost stored: bool)
      requires Follows(progress) && g >= progress.expected
      requires stream.Has(g) && stream.IsSplit(g) && stream.At(g) == S.Fragment(first, last, data)
      modifies this`tree, this`bufferSize, sets
      ensures stored <==> old(bufferSize) + headerLength + |data| <= size
      ensures Stored(if stored then g + 1 else progress.expected)
      ensures if stored
              then
                && tree == old(tree) + [Entry(channel, g, first, last, headerLength, data)]
                && g in sets.reg && OpenAt(tree, sets.reg, Start(stream, progress, g), g + 1)
              else tree == old(tree) && sets.reg == old(sets.reg)
    {
      hide Represents, OnlyNeeded, S.WellFormed, OpenAt, Payloads;
      var msgSize := headerLength + |data|;
      stored := bufferSize + msgSize <= size;
      if bufferSize + msgSize <= size {
        var entry := Entry(channel, g, first, last, headerLength, data);
        var i := LowerBound(tree, channel, g);
        var wasInserted := !IsEntry(tree, i, channel, g);
        if wasInserted {
          StoredOpen(tree, sets.reg, stream, channel, progress, g, entry);
          TreeBytesConcat(tree, [entry]);
          assert i == |tree| && tree[..i] + [entry] + tree[i..] == tree + [entry];
          tree := tree[..i] + [entry] + tree[i..];
          bufferSize := bufferSize + msgSize;
          sets.GotMessage(g, first, last, |data|);
        }
      }
    }

    // Looks the set of the entry at iter up, which starts the run lo..top - 1.
    method NextSet(iter: nat, ghost lo: nat, ghost top: nat) returns (complete: bool, largest: nat, total: nat)
      requires Stored(top) && top <= stream.End()
      requires Suffix(tree, lo, top) && Reaches(sets.reg, lo, top) && iter == |tree| - (top - lo)
      requires stream.At(lo).first && forall k | lo <= k < top - 1 :: !stream.At(k).last
      modifies sets
      ensures Stored(top) && sets.reg == old(sets.reg)
      ensures largest == top - 1 && (complete <==> stream.At(top - 1).last)
      ensures complete ==> ConcatData(tree[iter..]) == Whole(stream, lo, top - 1) && |ConcatData(tree[iter..])| == total
    {
      hide Represents, OnlyNeeded, S.WellFormed, S.Payload, TreeBytes;
      var entry := tree[iter];
      ghost var reg := sets.reg;
      complete, largest, total := sets.GetMessageData(entry.sn, entry.first, entry.last, |entry.data|);
      SetOfRun(reg, stream, lo, top, complete, largest, total);
      RunInReg(reg, lo, top);
      RunIsPayload(tree, stream, channel, lo, top, top);
      SizeIsPayload(reg, stream, lo, top);
      assert tree[iter..iter + top - lo] == tree[iter..];
    }

    // Emits whole messages from the run lo..top - 1 at the end of the tree,
    // which is one message or the beginning of one.
    method ProcessBuffer(iter: nat, ghost lo: nat, ghost top: nat) returns (end: nat, largestSet: Option<nat>)
      requires Stored(top) && top <= stream.End()
      requires Suffix(tree, lo, top) && Reaches(sets.reg, lo, top) && iter == |tree| - (top - lo)
      requires forall k | lo <= k < top - 1 :: !stream.At(k).last
      modifies this`emitted, sets
      ensures Stored(top) && sets.reg == old(sets.reg)
      ensures if stream.At(lo).first && stream.At(top - 1).last
              then
                && end == |tree| && largestSet == Some(top - 1)
                && emitted == old(emitted) + [Whole(stream, lo, top - 1)]
              else end == iter && largestSet == None && emitted == old(emitted)
    {
      hide Represents, OnlyNeeded, S.WellFormed, S.Payload, TreeBytes, RegOk, Reaches;
      end, largestSet := iter, None;
      if !tree[iter].first {
        return;
      }
      var expected := tree[iter].sn;
      while end < |tree| && tree[end].channel == channel && tree[end].sn <= expected
        invariant Stored(top) && sets.reg == old(sets.reg)
        invariant end == iter || end == |tree|
        invariant end == iter ==> expected == tree[iter].sn && largestSet == None && emitted == old(emitted)
        invariant end == |tree| ==>
          && stream.At(top - 1).last && largestSet == Some(top - 1)
          && emitted == old(emitted) + [Whole(stream, lo, top - 1)]
        decreases |tree| - end
      {
        var complete, largest, total := NextSet(end, lo, top);
        expected := largest + 1;
        if !complete {
          break;
        }
        end := EmitSet(end, largest, total);
        largestSet := Some(largest);
      }
    }

    method EmitSet(iter: nat, largest: nat, total: nat) returns (end: nat)
      requires iter < |tree| && tree[iter].sn <= largest
      requires forall i, j | 0 <= i < j < |tree| :: tree[i].sn < tree[j].sn
      requires tree[|tree| - 1].sn == largest && |ConcatData(tree[iter..])| == total
      modifies this`emitted
      ensures end == |tree| && emitted == old(emitted) + [ConcatData(tree[iter..])]
    {
      var entry := tree[iter];
      if largest == entry.sn {
        assert iter == |tree| - 1 && tree[iter..] == [entry];
        assert ConcatData([entry]) == ConcatData([entry][..0]) + entry.data == [] + entry.data == entry.data;
        emitted := emitted + [entry.data];
        end := iter + 1;
      } else {
        var buf := new S.Byte[total];
        var ok;
        assert ScanEnd(tree, iter, largest) == |tree| && tree[iter..|tree|] == tree[iter..];
        ok, end := ProcessMessageSetData(tree, largest, iter, buf);
        emitted := emitted + [buf[..]];
      }
    }

    // Looks the set of fragment g up and emits it if it has become whole.
    // top is the end of what is stored: g + 1, or g when g was refused.
    method ProcessSet(g: nat, ghost open: Option<nat>, ghost top: nat)
      requires Stored(top) && stream.Has(g) && top <= stream.End()
      requires OpenAt(tree, sets.reg, open, top)
      requires top == g || (top == g + 1 && g in sets.reg)
      requires open.Some? ==>
        stream.base <= open.value && forall k | open.value <= k < top - 1 :: !stream.At(k).last
      requires top == g && open.Some? ==> g > 0 && stream.Has(g - 1) && !stream.At(g - 1).last
      modifies this`emitted, this`tree, this`bufferSize, sets
      ensures Stored(top)
      ensures if open.Some? && stream.At(top - 1).last
              then tree == [] && sets.reg == map[] && emitted == old(emitted) + [Whole(stream, open.value, top - 1)]
              else OpenAt(tree, sets.reg, open, top) && emitted == old(emitted) && sets.reg == old(sets.reg)
                   && tree == FromOpen(old(tree), open, top)
    {
      hide Represents, OnlyNeeded, S.WellFormed, S.Payload, TreeOk, Reaches, TreeBytes, LowerBound;
      var first := sets.GetFirstSequenceNumberInSet(g);
      LookedUp(tree, sets.reg, stream, channel, open, top, g, first);
      var iter := LowerBound(tree, channel, first);
      if !IsEntry(tree, iter, channel, first) {
        // The fragment was refused, or continues nothing that is stored.
        return;
      }
      if !tree[iter].first {
        // The set does not start with a first part, so it is not complete.
        return;
      }
      var end, largestSet := ProcessBuffer(iter, first, top);
      if largestSet.Some? {
        Forget(largestSet.value, first);
      }
      DropKeepsTree(tree, sets.reg, stream, channel, open, top, end);
      RemoveFirst(end);
    }

    // Forgets a whole message, and with it every part that is older.
    method Forget(last: nat, ghost first: nat)
      requires Stored(last + 1) && stream.Has(last) && stream.At(last).last
      requires Reaches(sets.reg, first, last + 1) && sets.reg[first].first
      modifies sets
      ensures Stored(last + 1) && sets.reg == map[]
    {
      hide Represents, OnlyNeeded, S.WellFormed, TreeOk;
      FlagsConsistent(sets.reg, stream);
      sets.CutAtGroupEnd(last, first);
      NothingAbove(sets.reg, stream, last + 1);
      sets.RemoveMessageAndOlderMessages(last);
    }

    // Forgets the first entries of the tree.
    method RemoveFirst(end: nat)
      requires end <= |tree| && bufferSize == TreeBytes(tree)
      modifies this`tree, this`bufferSize
      ensures tree == old(tree)[end..] && bufferSize == TreeBytes(tree) <= old(bufferSize)
    {
      TreeBytesConcat(tree[..end], tree[end..]);
      assert tree == tree[..end] + tree[end..];
      bufferSize := bufferSize - TreeBytes(tree[..end]);
      tree := tree[end..];
    }

    // A fragment that is a whole message is emitted at once, and everything
    // older is forgotten.
    method ProcessWhole(g: nat, data: Data)
      requires Follows(progress) && g >= progress.expected
      requires stream.Has(g) && stream.At(g) == S.Fragment(true, true, data)
      modifies this`emitted, this`tree, this`bufferSize, sets
      ensures Follows(Advance(stream, progress, g, false)) && tree == []
    {
      hide Represents, OnlyNeeded, S.WellFormed, S.Payload, Payloads, OpenAt, TreeOk, RegOk, TreeBytes;
      MovedOn(tree, sets.reg, stream, channel, progress.open, progress.expected, g);
      EmptyIsOpen(g + 1);
      PayloadsAppend(progress.log);
      SinglePayload(stream, g);
      emitted := emitted + [data];
      ForgetAll(g);
    }

    // Forgets everything up to fragment g, which is newer than all that is stored
    // and starts a message.
    method ForgetAll(g: nat)
      requires Stored(g) && stream.Has(g) && stream.At(g).first
      modifies this`tree, this`bufferSize, sets
      ensures Stored(g + 1) && tree == [] && sets.reg == map[]
    {
      hide Represents, OnlyNeeded, S.WellFormed;
      ForgetSets(g);
      var from, upTo := LowerBound(tree, channel, 0), LowerBound(tree, channel, g + 1);
      assert from == 0 && upTo == |tree|;
      RemoveFirst(upTo);
    }

    method ForgetSets(g: nat)
      requires Stored(g) && stream.Has(g) && stream.At(g).first
      modifies sets
      ensures Stored(g) && sets.reg == map[]
    {
      hide Represents, OnlyNeeded, S.WellFormed, TreeOk, TreeBytes;
      FlagsConsistent(sets.reg, stream);
      FirstFollowsLast(sets.reg, stream, g, g);
      sets.CutAtGroupEnd(g, g);
      NothingAbove(sets.reg, stream, g + 1);
      sets.RemoveMessageAndOlderMessages(g);
    }

    method ProcessPart(g: nat, first: bool, last: bool, headerLength: nat, data: Data) returns (ghost refused: bool)
      requires Follows(progress) && g >= progress.expected
      requires stream.Has(g) && stream.IsSplit(g) && stream.At(g) == S.Fragment(first, last, data)
      modifies this`emitted, this`tree, this`bufferSize, sets
      ensures refused <==> old(bufferSize) + headerLength + |data| > size
      ensures Follows(Advance(stream, progress, g, refused))
      ensures HeldOf(tree) == NextHeld(stream, progress, HeldOf(old(tree)), Packet(g, headerLength), refused)
    {
      hide Represents, OnlyNeeded, S.WellFormed, S.Payload, TreeOk, RegOk, OpenAt, Suffix, FromOpen, HeldOf;
      hide NextHeld, Payloads, TreeBytes, Advance, ProgressOk, Whole;
      ghost var stored := BufferMessage(g, first, last, headerLength, data);
      refused := !stored;
      ghost var start, top := Start(stream, progress, g), g + 1;
      if refused {
        start, top := if g == progress.expected then progress.open else None, g;
        MovedOn(tree, sets.reg, stream, channel, progress.open, progress.expected, g);
      }
      ghost var entry := Entry(channel, g, first, last, headerLength, data);
      NextHeldIs(stream, progress, old(tree), sets.reg, entry, start, refused);
      PartAdvances(stream, progress, g, refused, start, top);
      PayloadsAppend(progress.log);
      ProcessSet(g, start, top);
      EmptyIsOpen(g + 1);
      if refused {
        MovedOn(tree, sets.reg, stream, channel, start, g, g + 1);
      }
    }

    // What becomes of a fragment that is not too old.
    method Process(g: nat, first: bool, last: bool, headerLength: nat, data: Data) returns (ghost refused: bool)
      requires Follows(progress) && g >= progress.expected
      requires stream.Has(g) && stream.At(g) == S.Fragment(first, last, data)
      modifies this`emitted, this`tree, this`bufferSize, sets
      ensures refused <==> !(first && last) && old(bufferSize) + headerLength + |data| > size
      ensures Follows(Advance(stream, progress, g, refused))
      ensures HeldOf(tree) == NextHeld(stream, progress, HeldOf(old(tree)), Packet(g, headerLength), refused)
    {
      hide Receiver.Follows, Advance;
      if first && last {
        ProcessWhole(g, data);
        refused := false;
      } else {
        refused := ProcessPart(g, first, last, headerLength, data);
      }
    }

    // An arriving fragment. t is the number that the other host sent.
    method GotMessage(sequenceNumber: Seq24, first: bool, last: bool, headerLength: nat, data: Data, ghost t: nat)
      returns (accepted: bool, ghost refused: bool)
      requires Inv()
      requires stream.Has(t) && sequenceNumber == Wrap(t) && S.Fragment(first, last, data) == stream.At(t)
      requires InWindow(ExpectedSequenceNumber(), t)
      modifies this, sets
      ensures Inv() && stream == old(stream)
      ensures accepted <==> t >= old(ExpectedSequenceNumber())
      ensures refused <==> accepted && !(first && last) && old(bufferSize) + headerLength + |data| > size
      ensures progress == Advance(stream, old(progress), t, refused)
      ensures HeldOf(tree) == NextHeld(stream, old(progress), HeldOf(old(tree)), Packet(t, headerLength), refused)
    {
      hide Represents, OnlyNeeded, S.WellFormed, S.Payload, TreeOk, RegOk, OpenAt, TreeBytes, Payloads, HeldOf;
      hide Unwrap, InWindow, Wrap;
      var expected := ExpectedSequenceNumber();
      Guessed(stream, expected, t);
      var g := Unwrap(expected, sequenceNumber);
      expectedSnMemo := Some(if expected > g + 1 then expected else g + 1);
      var snDiff := expected as int - g as int;
      refused := false;
      if snDiff > 0 {
        // Older than what the channel has moved on to.
        return false, refused;
      }
      if snDiff < 0 {
        losses := losses + [-snDiff];
      }
      refused := Process(g, first, last, headerLength, data);
      progress := Advance(stream, progress, g, refused);
      accepted := true;
    }
  }

  lemma {:induction false} HeldBytesAreTreeBytes(tree: seq<Entry>, c: Channel, channel: nat, top: nat)
    requires TreeOk(tree, c, channel, top)
    ensures forall i | 0 <= i < |HeldOf(tree)| :: c.Has(HeldOf(tree)[i].t)
    ensures HeldBytes(c, HeldOf(tree)) == TreeBytes(tree)
  {
    if tree != [] {
      HeldBytesAreTreeBytes(tree[1..], c, channel, top);
      assert HeldOf(tree)[1..] == HeldOf(tree[1..]);
    }
  }

  // Every arrival is unwrapped to the number that was sent.
  ghost predicate Recognised(c: Channel, cap: nat, packets: seq<Packet>, from: nat)
    requires PacketsOf(c, packets)
  {
    forall i | from <= i < |packets| :: InWindow(ReceiveAll(c, cap, packets[..i]).progress.expected, packets[i].t)
  }

  lemma ReceiveOneMore(c: Channel, cap: nat, packets: seq<Packet>, i: nat)
    requires PacketsOf(c, packets) && i < |packets|
    ensures ReceiveAll(c, cap, packets[..i + 1]) == Receive(c, cap, ReceiveAll(c, cap, packets[..i]), packets[i])
  {
    assert packets[..i + 1][..i] == packets[..i];
  }

  // The buffer carries out these runs: it follows the description in what it
  // emits, in what it reports lost, in what it refuses and in what it holds.
  method Deliver(r: Receiver, c: Channel, packets: seq<Packet>, ghost done: seq<Packet>)
    requires r.Inv() && c == r.stream && PacketsOf(c, done) && PacketsOf(c, done + packets)
    requires Recognised(c, r.size, done + packets, |done|)
    requires Receipt(r.progress, HeldOf(r.tree)) == ReceiveAll(c, r.size, done)
    modifies r, r.sets
    ensures r.Inv() && r.stream == old(r.stream)
    ensures Receipt(r.progress, HeldOf(r.tree)) == ReceiveAll(c, r.size, done + packets)
  {
    hide Receiver.Follows, Advance, NextHeld, HeldOf, HeldBytes, ReceiveAll, MessageSets.Represents, S.WellFormed;
    ghost var all, n := done + packets, |done|;
    assert all[..n] == done;
    for i := 0 to |packets|
      invariant r.Inv() && r.stream == c
      invariant Receipt(r.progress, HeldOf(r.tree)) == ReceiveAll(c, r.size, all[..n + i])
    {
      var x := packets[i];
      assert x == all[n + i];
      ReceiveOneMore(c, r.size, all, n + i);
      HeldBytesOf(r);
      var f := c.At(x.t);
      var accepted, refused := r.GotMessage(Wrap(x.t), f.first, f.last, x.headerLength, f.data, x.t);
    }
    assert all[..n + |packets|] == all;
  }

  lemma HeldBytesOf(r: Receiver)
    requires r.Inv()
    ensures forall i | 0 <= i < |HeldOf(r.tree)| :: r.stream.Has(HeldOf(r.tree)[i].t)
    ensures HeldBytes(r.stream, HeldOf(r.tree)) == r.bufferSize
  {
    HeldBytesAreTreeBytes(r.tree, r.stream, r.channel, r.progress.expected);
  }
}
