/** A receiver buffer whose connection uses one RELIABLE_ORDERED channel,
    proved against OrderedSpec: after any arrivals, its state is the function of
    the accepted fragments that the simple description gives. */
module OrderedReceiver {
  import opened MessageSets
  import opened NetUtil
  import opened Options
  import opened OrderedSpec
  import opened ReceiverBuffer
  import S = Streams

  type Data = S.Data

  // ----- the tree and the forest hold the accepted fragments from a number on

  ghost predicate Matches(e: Entry, c: Channel, a: Accepted, channel: nat) {
    && e.channel == channel
    && c.Has(e.sn) && e.sn in a
    && e.first == c.At(e.sn).first && e.last == c.At(e.sn).last && e.data == c.At(e.sn).data
    && e.headerLength == a[e.sn]
  }

  ghost predicate Present(tree: seq<Entry>, t: nat) {
    exists i :: 0 <= i < |tree| && tree[i].sn == t
  }

  ghost predicate TreeHolds(tree: seq<Entry>, c: Channel, a: Accepted, channel: nat, from: nat) {
    && (forall i, j | 0 <= i < j < |tree| :: tree[i].sn < tree[j].sn)
    && (forall i | 0 <= i < |tree| :: tree[i].sn >= from && Matches(tree[i], c, a, channel))
    && (forall t {:trigger Present(tree, t)} | t in a && t >= from :: Present(tree, t))
  }

  ghost predicate SetsHold(reg: Parts, c: Channel, a: Accepted, from: nat)
    requires InChannel(c, a)
  {
    && (forall t {:trigger t in reg} | t in reg ::
          && t in a && t >= from && c.IsSplit(t)
          && reg[t] == MessageSets.Part(c.At(t).first, c.At(t).last, |c.At(t).data|))
    && (forall t {:trigger t in a} | t in a && t >= from && c.IsSplit(t) :: t in reg)
  }

  // Held without gap from number from up to y, the tree's index is the offset.
  lemma {:induction false} TreeIndex(tree: seq<Entry>, c: Channel, a: Accepted, channel: nat, from: nat, y: nat)
    requires TreeHolds(tree, c, a, channel, from)
    requires from <= y && AllIn(a, from, y + 1)
    ensures y - from < |tree| && tree[y - from].sn == y
  {
    assert y in a && Present(tree, y);
    var i :| 0 <= i < |tree| && tree[i].sn == y;
    if y == from {
      assert tree[0].sn >= from;
    } else {
      TreeIndex(tree, c, a, channel, from, y - 1);
      var k := y - from;
      assert tree[k - 1].sn < tree[k].sn <= tree[i].sn;
    }
  }

  // Dropping the entries below a number.
  lemma TreeDrop(tree: seq<Entry>, c: Channel, a: Accepted, channel: nat, from: nat, to: nat, n: nat)
    requires TreeHolds(tree, c, a, channel, from) && from <= to && n <= |tree|
    requires forall i | 0 <= i < n :: tree[i].sn < to
    requires forall i | n <= i < |tree| :: tree[i].sn >= to
    ensures TreeHolds(tree[n..], c, a, channel, to)
  {
    forall t | t in a && t >= to
      ensures Present(tree[n..], t)
    {
      assert Present(tree, t);
      var i :| 0 <= i < |tree| && tree[i].sn == t;
      assert tree[n..][i - n].sn == t;
    }
  }

  // Where a new number goes in the tree.
  lemma InsertPosition(tree: seq<Entry>, c: Channel, a: Accepted, channel: nat, from: nat, sn: nat)
    requires TreeHolds(tree, c, a, channel, from) && sn !in a
    ensures var i := LowerBound(tree, channel, sn);
      forall k | 0 <= k < |tree| :: if k < i then tree[k].sn < sn else tree[k].sn > sn
  {
  }

  // Looking a number up in the tree tells whether it has been accepted.
  lemma LookUp(tree: seq<Entry>, c: Channel, a: Accepted, channel: nat, from: nat, sn: nat)
    requires TreeHolds(tree, c, a, channel, from) && sn >= from
    ensures var i := LowerBound(tree, channel, sn);
      sn in a <==> i < |tree| && tree[i].channel == channel && tree[i].sn == sn
  {
    var i := LowerBound(tree, channel, sn);
    if i < |tree| {
      assert Matches(tree[i], c, a, channel);
    }
    if sn in a {
      assert Present(tree, sn);
      var k :| 0 <= k < |tree| && tree[k].sn == sn;
      assert Matches(tree[k], c, a, channel);
      assert i <= k;
      assert tree[i].sn <= tree[k].sn;
    }
  }

  function InsertAt(tree: seq<Entry>, i: nat, e: Entry): (tree': seq<Entry>)
    requires i <= |tree|
    ensures |tree'| == |tree| + 1 && tree'[i] == e
    ensures forall k | 0 <= k < i :: tree'[k] == tree[k]
    ensures forall k | i < k < |tree'| :: tree'[k] == tree[k - 1]
  {
    tree[..i] + [e] + tree[i..]
  }

  lemma TreeBytesInsert(tree: seq<Entry>, i: nat, e: Entry)
    requires i <= |tree|
    ensures TreeBytes(InsertAt(tree, i, e)) == TreeBytes(tree) + EntrySize(e)
  {
    assert tree == tree[..i] + tree[i..];
    TreeBytesConcat(tree[..i], tree[i..]);
    TreeBytesConcat(tree[..i] + [e], tree[i..]);
    TreeBytesConcat(tree[..i], [e]);
  }

  lemma InsertedPresent(tree: seq<Entry>, i: nat, e: Entry, t: nat)
    requires i <= |tree| && (t == e.sn || Present(tree, t))
    ensures Present(InsertAt(tree, i, e), t)
  {
    var tree' := InsertAt(tree, i, e);
    if t == e.sn {
      assert tree'[i].sn == t;
    } else {
      var k :| 0 <= k < |tree| && tree[k].sn == t;
      assert tree'[if k < i then k else k + 1].sn == t;
    }
  }

  lemma TreeInsert(tree: seq<Entry>, c: Channel, a: Accepted, channel: nat, from: nat, e: Entry)
    requires TreeHolds(tree, c, a, channel, from)
    requires e.sn !in a && e.sn >= from && Matches(e, c, a[e.sn := e.headerLength], channel)
    ensures var i := LowerBound(tree, channel, e.sn);
      && (i < |tree| ==> tree[i].sn > e.sn)
      && TreeHolds(InsertAt(tree, i, e), c, a[e.sn := e.headerLength], channel, from)
  {
    var i := LowerBound(tree, channel, e.sn);
    var tree', a' := InsertAt(tree, i, e), a[e.sn := e.headerLength];
    InsertPosition(tree, c, a, channel, from, e.sn);
    forall t | t in a' && t >= from
      ensures Present(tree', t)
    {
      assert t == e.sn || Present(tree, t);
      InsertedPresent(tree, i, e, t);
    }
    forall k | 0 <= k < |tree'|
      ensures tree'[k].sn >= from && Matches(tree'[k], c, a', channel)
    {
      if k != i {
        var k0 := if k < i then k else k - 1;
        assert tree'[k] == tree[k0] && Matches(tree[k0], c, a, channel);
      }
    }
    forall k, l | 0 <= k < l < |tree'|
      ensures tree'[k].sn < tree'[l].sn
    {
      var k0, l0 := if k < i then k else k - 1, if l < i then l else l - 1;
      assert k != i ==> tree'[k] == tree[k0];
      assert l != i ==> tree'[l] == tree[l0];
    }
  }

  // The bytes of the tree are the bytes held.
  lemma {:induction false} TreeBytesAreUsed(tree: seq<Entry>, c: Channel, a: Accepted, channel: nat, from: nat)
    requires InChannel(c, a) && TreeHolds(tree, c, a, channel, from)
    ensures TreeBytes(tree) == Used(c, a, from, c.End())
    decreases c.End() - from
  {
    forall i | 0 <= i < |tree|
      ensures from <= tree[i].sn < c.End()
    {
      assert Matches(tree[i], c, a, channel);
    }
    assert tree == [] || from <= tree[0].sn < c.End();
    if from >= c.End() {
    } else if from in a {
      assert AllIn(a, from, from + 1);
      TreeIndex(tree, c, a, channel, from, from);
      assert Matches(tree[0], c, a, channel);
      TreeDrop(tree, c, a, channel, from, from + 1, 1);
      TreeBytesAreUsed(tree[1..], c, a, channel, from + 1);
    } else {
      forall i | 0 <= i < |tree|
        ensures tree[i].sn >= from + 1
      {
        assert Matches(tree[i], c, a, channel);
      }
      TreeDrop(tree, c, a, channel, from, from + 1, 0);
      assert tree[0..] == tree;
      TreeBytesAreUsed(tree, c, a, channel, from + 1);
    }
  }

  // The entries x..y joined are the payload of the fragments x..y.
  lemma {:induction false} SliceIsPayload(tree: seq<Entry>, c: Channel, a: Accepted, channel: nat,
                                          from: nat, x: nat, y: nat)
    requires TreeHolds(tree, c, a, channel, from)
    requires c.base <= from <= x <= y <= c.End() && AllIn(a, from, y)
    ensures y - from <= |tree|
    ensures ConcatData(tree[x - from..y - from]) == S.Payload(c.s, x - c.base, y - c.base)
    decreases y
  {
    if x < y {
      SliceIsPayload(tree, c, a, channel, from, x, y - 1);
      TreeIndex(tree, c, a, channel, from, y - 1);
      assert Matches(tree[y - 1 - from], c, a, channel);
      assert tree[x - from..y - from][..y - 1 - x] == tree[x - from..y - 1 - from];
    } else if from < x {
      TreeIndex(tree, c, a, channel, from, x - 1);
    }
  }

  lemma SetsInsert(reg: Parts, reg': Parts, c: Channel, a: Accepted, from: nat, g: nat, headerLength: nat)
    requires InChannel(c, a) && SetsHold(reg, c, a, from)
    requires c.Has(g) && g !in a && g >= from
    requires reg' == if !c.IsSplit(g) then reg
                     else reg[g := MessageSets.Part(c.At(g).first, c.At(g).last, |c.At(g).data|)]
    ensures g !in reg
    ensures InChannel(c, a[g := headerLength]) && SetsHold(reg', c, a[g := headerLength], from)
  {
  }

  lemma HeldParts(reg: Parts, c: Channel, a: Accepted, from: nat)
    requires InChannel(c, a) && SetsHold(reg, c, a, from)
    ensures PartsOf(reg, c)
  {
  }

  // From the start x of a split message, the registered run either is the
  // whole message, or ends just before a number that has not been accepted.
  lemma RunFromStart(reg: Parts, c: Channel, a: Accepted, from: nat, x: nat, largest: nat, complete: bool)
    requires c.Valid() && InChannel(c, a) && SetsHold(reg, c, a, from)
    requires x in reg && c.At(x).first && x <= largest && Joined(reg, x, largest)
    requires forall k | x <= k <= largest :: k in reg
    requires reg[largest].last || largest + 1 !in reg
    requires complete <==> exists lo: nat, hi: nat :: WholeGroup(reg, lo, x, hi)
    ensures c.Has(largest) && largest + 1 <= c.End()
    ensures complete <==> c.At(largest).last
    ensures complete ==> WholeGroup(reg, x, x, largest)
    ensures forall k | x <= k < largest :: !c.At(k).last
    ensures !complete ==> largest + 1 !in a && c.StartOf(largest + 1) == x
  {
    HeldParts(reg, c, a, from);
    FlagsConsistent(reg, c);
    assert largest in reg;
    forall k: nat | x <= k < largest
      ensures !c.At(k).last
    {
      assert Linked(reg, k) && k in reg;
    }
    if reg[largest].last {
      assert WholeGroup(reg, x, x, largest);
    } else {
      forall lo: nat, hi: nat
        ensures !WholeGroup(reg, lo, x, hi)
      {
        JoinedMeets(reg, lo, largest, hi);
        JoinedMeets(reg, lo, largest + 1, hi);
        JoinedMeets(reg, x, hi, largest);
      }
      assert largest + 1 < c.End();
      forall j | x - c.base < j <= largest + 1 - c.base
        ensures !c.s[j].first
      {
        assert !c.At(j - 1 + c.base).last;
        assert S.Adjacent(c.s, j - 1);
      }
      assert c.IsSplit(largest + 1);
      S.GroupStartUnique(c.s, x - c.base, largest + 1 - c.base);
    }
  }

  lemma TreeFirst(tree: seq<Entry>, c: Channel, a: Accepted, channel: nat, from: nat)
    requires TreeHolds(tree, c, a, channel, from) && tree != []
    ensures Matches(tree[0], c, a, channel) && tree[0].sn >= from
  {
  }

  // The next number x after a gapless run is accepted exactly when the entry
  // at its offset exists and has a number at most x.
  lemma TreeAt(tree: seq<Entry>, c: Channel, a: Accepted, channel: nat, from: nat, x: nat)
    requires TreeHolds(tree, c, a, channel, from)
    requires from <= x && AllIn(a, from, x)
    ensures x - from <= |tree|
    ensures x in a <==> x - from < |tree| && tree[x - from].sn <= x
    ensures x in a ==> tree[x - from].sn == x && Matches(tree[x - from], c, a, channel)
  {
    var i := x - from;
    if x > from {
      TreeIndex(tree, c, a, channel, from, x - 1);
    }
    if x in a {
      assert AllIn(a, from, x + 1);
      TreeIndex(tree, c, a, channel, from, x);
    } else if i < |tree| {
      assert tree[i].sn >= from && Matches(tree[i], c, a, channel);
      if x > from {
        assert tree[i - 1].sn < tree[i].sn;
      }
    }
  }

  // Copying from number x stops right after number y.
  lemma ScanRun(tree: seq<Entry>, c: Channel, a: Accepted, channel: nat, from: nat, x: nat, y: nat)
    requires TreeHolds(tree, c, a, channel, from)
    requires from <= x <= y && AllIn(a, from, y + 1)
    ensures y - from < |tree|
    ensures ScanEnd(tree, x - from, y) == y + 1 - from
  {
    TreeIndex(tree, c, a, channel, from, y);
    var n := ScanEnd(tree, x - from, y);
    if n < |tree| {
      assert tree[n].sn > tree[y - from].sn;
    }
    assert tree[y - from].sn <= y && (n - 1 > x - from ==> tree[n - 1].sn <= y);
  }

  // The message that starts at the accepted number x is held up to largest:
  // wholly, or up to the first number that has not been accepted.
  ghost predicate HeldUpTo(c: Channel, a: Accepted, x: nat, complete: bool, largest: nat, total: nat) {
    && c.Valid() && c.Has(x) && c.Has(largest) && x <= largest && AllIn(a, x, largest + 1)
    && (forall k | x <= k < largest :: !c.At(k).last)
    && (complete <==> c.At(largest).last)
    && (complete ==> total == |S.Payload(c.s, x - c.base, largest + 1 - c.base)|)
    && (!complete ==> largest + 1 !in a && c.StartOf(largest + 1) == x)
  }

  lemma SplitSetData(reg: Parts, c: Channel, a: Accepted, from: nat, x: nat, complete: bool, largest: nat, total: nat)
    requires c.Valid() && InChannel(c, a) && SetsHold(reg, c, a, from)
    requires c.base <= from <= x && x in a && c.At(x).first && c.IsSplit(x)
    requires ReportedSet(reg, x, complete, largest, total)
    ensures HeldUpTo(c, a, x, complete, largest, total)
  {
    HeldParts(reg, c, a, from);
    FlagsConsistent(reg, c);
    assert x in reg;
    RunFromStart(reg, c, a, from, x, largest, complete);
    forall k | x <= k < largest + 1
      ensures k in reg && k in a
    {
      assert x <= k <= largest ==> k in reg;
    }
    SizeIsPayload(reg, c, x, largest + 1);
  }

  lemma SetData(reg: Parts, c: Channel, a: Accepted, from: nat, x: nat, complete: bool, largest: nat, total: nat)
    requires c.Valid() && InChannel(c, a) && SetsHold(reg, c, a, from)
    requires c.base <= from <= x && x in a && c.At(x).first
    requires !c.IsSplit(x) ==> complete && largest == x && total == |c.At(x).data|
    requires c.IsSplit(x) ==> ReportedSet(reg, x, complete, largest, total)
    ensures HeldUpTo(c, a, x, complete, largest, total)
  {
    if c.IsSplit(x) {
      SplitSetData(reg, c, a, from, x, complete, largest, total);
    } else {
      SinglePayload(c, x);
    }
  }

  // A whole message from its start x to its last fragment.
  lemma NextMessage(c: Channel, x: nat, largest: nat)
    requires c.Valid() && c.Has(x) && c.Has(largest) && x <= largest
    requires c.At(x).first && c.At(largest).last && forall k | x <= k < largest :: !c.At(k).last
    ensures c.StartOf(largest + 1) == largest + 1
    ensures c.Before(largest + 1) == c.Before(x) + [S.Payload(c.s, x - c.base, largest + 1 - c.base)]
    ensures largest + 1 < c.End() ==> c.At(largest + 1).first
  {
    var g, l := x - c.base, largest - c.base;
    forall j | g <= j < l
      ensures !c.s[j].last
    {
      assert !c.At(j + c.base).last;
    }
    S.MessagesStep(c.s, g, l);
    if l + 1 < |c.s| {
      assert S.Adjacent(c.s, l);
    }
  }

  lemma StartIsStart(c: Channel, e: nat)
    requires c.Valid() && c.base <= e <= c.End()
    ensures var g := c.StartOf(e);
      && c.StartOf(g) == g && (g < c.End() ==> c.At(g).first) && (g > c.base ==> c.At(g - 1).last)
      && forall k | g <= k < e :: !c.At(k).last
  {
    S.GroupStartIs(c.s, e - c.base);
    var g := c.StartOf(e);
    forall k | g <= k < e
      ensures !c.At(k).last
    {
      assert !c.s[k - c.base].last;
    }
  }

  // With everything below e accepted and held from e's message on, the first
  // entry tells whether there is anything to process.
  lemma FirstHeld(tree: seq<Entry>, c: Channel, a: Accepted, channel: nat, e: nat)
    requires c.Valid() && c.base <= e <= c.End() && AllIn(a, c.base, e)
    requires TreeHolds(tree, c, a, channel, c.StartOf(e))
    ensures tree == [] || tree[0].sn > e ==> e !in a && c.StartOf(e) == e
    ensures tree != [] && tree[0].sn <= e ==> tree[0].sn == c.StartOf(e) && c.Has(c.StartOf(e))
  {
    var g := c.StartOf(e);
    TreeAt(tree, c, a, channel, g, g);
    if tree != [] {
      TreeFirst(tree, c, a, channel, g);
    }
    if e in a {
      TreeAt(tree, c, a, channel, g, e);
      assert tree[0].sn <= tree[e - g].sn;
    }
  }

  lemma TreeCut(tree: seq<Entry>, c: Channel, a: Accepted, channel: nat, from: nat, g: nat)
    requires TreeHolds(tree, c, a, channel, from)
    requires from <= g && AllIn(a, from, g)
    ensures g - from <= |tree|
    ensures TreeHolds(tree[g - from..], c, a, channel, g)
  {
    var n := g - from;
    if n > 0 {
      TreeIndex(tree, c, a, channel, from, g - 1);
    }
    forall i | 0 <= i < |tree|
      ensures if i < n then tree[i].sn < g else tree[i].sn >= g
    {
      if n > 0 {
        assert i < n ==> tree[i].sn <= tree[n - 1].sn;
        assert i >= n ==> tree[n - 1].sn < tree[i].sn;
      }
    }
    TreeDrop(tree, c, a, channel, from, g, n);
  }

  lemma SetsCut(reg: Parts, c: Channel, a: Accepted, from: nat, g: nat)
    requires InChannel(c, a) && SetsHold(reg, c, a, from) && from < g
    ensures SetsHold(Above(reg, g - 1), c, a, g)
  {
  }

  // The number before a message start ends a whole registered message, or is
  // not split and then nothing is linked to it.
  lemma GroupEnd(reg: Parts, c: Channel, a: Accepted, from: nat, g: nat) returns (lo: nat)
    requires c.Valid() && InChannel(c, a) && SetsHold(reg, c, a, from)
    requires c.base <= from < g <= c.End() && AllIn(a, from, g)
    requires c.StartOf(from) == from && c.StartOf(g) == g
    ensures var i := g - 1;
      if i in reg then WholeGroup(reg, lo, i, i) else i == 0 || !Linked(reg, i - 1)
  {
    var i := g - 1;
    StartIsStart(c, g);
    lo := c.StartOf(i);
    StartIsStart(c, i);
    StartIsStart(c, from);
    assert c.At(i).last;
    if i in reg {
      assert lo >= from by {
        if from < i {
          S.GroupStartIs(c.s, i - c.base);
          assert c.s[from - c.base] == c.At(from);
        }
      }
      forall k | lo <= k <= i
        ensures k in reg
      {
        assert k in a;
        if k < i {
          assert !c.At(k).last;
        }
      }
      assert Joined(reg, lo, i);
    } else {
      assert i in a && !c.IsSplit(i);
      if i > c.base {
        assert S.Adjacent(c.s, i - 1 - c.base);
      }
      assert i > 0 && i - 1 in reg ==> i > c.base && c.At(i - 1).last;
    }
  }

  // The bytes in the tree are the bytes the simple description says are held.
  lemma HeldIsTreeBytes(tree: seq<Entry>, c: Channel, a: Accepted, channel: nat, e: nat)
    requires InChannel(c, a) && c.base <= e <= c.End() && AllIn(a, c.base, e) && e !in a
    requires TreeHolds(tree, c, a, channel, c.StartOf(e))
    ensures Expected(c, a) == e && Held(c, a) == TreeBytes(tree)
  {
    PrefixEndUnique(a, c.base, e);
    TreeBytesAreUsed(tree, c, a, channel, c.StartOf(e));
  }

  // Accepting the expected fragment, which is a whole message, without buffering it.
  lemma AcceptUnbuffered(tree: seq<Entry>, reg: Parts, c: Channel, a: Accepted, channel: nat, e: nat, headerLength: nat)
    requires c.Valid() && InChannel(c, a) && c.Has(e) && !c.IsSplit(e) && e !in a
    requires AllIn(a, c.base, e)
    requires TreeHolds(tree, c, a, channel, c.StartOf(e)) && SetsHold(reg, c, a, c.StartOf(e))
    ensures var a' := a[e := headerLength];
      && c.StartOf(e + 1) == e + 1 && InChannel(c, a') && AllIn(a', c.base, e + 1)
      && TreeHolds(tree, c, a', channel, e + 1) && SetsHold(reg, c, a', e + 1)
      && c.Before(e + 1) == c.Before(c.StartOf(e)) + [c.At(e).data]
  {
    var a' := a[e := headerLength];
    assert c.StartOf(e) == e;
    NextMessage(c, e, e);
    SinglePayload(c, e);
    forall i | 0 <= i < |tree|
      ensures tree[i].sn >= e + 1 && Matches(tree[i], c, a', channel)
    {
      assert tree[i].sn >= e && Matches(tree[i], c, a, channel);
    }
    forall t | t in a' && t >= e + 1
      ensures Present(tree, t)
    {
      assert t in a;
    }
  }

  // The stream c' continues the stream c.
  ghost predicate Continues(c: Channel, c': Channel) {
    c.Valid() && c'.Valid() && c'.base == c.base && c.s <= c'.s
  }

  // What is known about a stream does not change when more is sent.
  lemma StreamContinues(tree: seq<Entry>, reg: Parts, c: Channel, c': Channel, a: Accepted, channel: nat, e: nat)
    requires Continues(c, c') && InChannel(c, a) && c.base <= e <= c.End()
    requires TreeHolds(tree, c, a, channel, c.StartOf(e)) && SetsHold(reg, c, a, c.StartOf(e))
    ensures InChannel(c', a) && e <= c'.End() && c'.StartOf(e) == c.StartOf(e)
    ensures TreeHolds(tree, c', a, channel, c.StartOf(e)) && SetsHold(reg, c', a, c.StartOf(e))
    ensures c'.Before(c.StartOf(e)) == c.Before(c.StartOf(e))
  {
    hide S.WellFormed, S.Messages, S.GroupStart;
    var more := c'.s[|c.s|..];
    assert c'.s == c.s + more;
    S.GroupStartExtends(c.s, more, e - c.base);
    S.MessagesExtend(c.s, more, c.StartOf(e) - c.base);
    forall t | c.Has(t)
      ensures c'.Has(t) && c'.At(t) == c.At(t)
    {
    }
    forall i | 0 <= i < |tree|
      ensures tree[i].sn >= c.StartOf(e) && Matches(tree[i], c', a, channel)
    {
      assert Matches(tree[i], c, a, channel);
    }
  }

  // ----- the class

  class Receiver {
    const channel: nat
    const size: nat
    const initial: nat                  // the other host's initial sequence number
    const sets: DisjointMessageSets
    var tree: seq<Entry>
    var bufferSize: nat
    var expectedSnMemo: Option<nat>
    var closed: bool                    // the application closed the connection
    var emitted: seq<Data>              // what emitMessage was called with
    var acks: seq<nat>                  // what enqueueAck was called with

    ghost var stream: Channel           // what the other host sends
    ghost var accepted: Accepted
    ghost var clean: bool               // no in-sequence fragment was refused so far

    function ExpectedSequenceNumber(): nat
      reads this
    {
      if expectedSnMemo.Some? then expectedSnMemo.value else initial
    }

    ghost predicate Core(from: nat)
      reads this, sets
    {
      && stream.Valid() && stream.base == initial && InChannel(stream, accepted)
      && sets.Valid() && sets.Tight()
      && TreeHolds(tree, stream, accepted, channel, from)
      && SetsHold(sets.reg, stream, accepted, from)
      && bufferSize == TreeBytes(tree) && bufferSize <= size
    }

    // The number e has been reached: everything below it has been accepted,
    // and every whole message below it has been emitted.
    ghost predicate Reached(e: nat)
      reads this, sets
    {
      && stream.base <= e <= stream.End()
      && Core(stream.StartOf(e))
      && AllIn(accepted, stream.base, e)
      && emitted == stream.Before(stream.StartOf(e))
    }

    ghost predicate Inv()
      reads this, sets
    {
      && Reached(ExpectedSequenceNumber())
      && (!closed ==> ExpectedSequenceNumber() !in accepted)
      && (clean ==> AcksOk(acks, ExpectedSequenceNumber()))
    }

    constructor (channel: nat, size: nat, initial: nat, ghost stream: Channel)
      requires stream.Valid() && stream.base == initial
      ensures Inv() && !closed && clean && accepted == map[] && emitted == [] && acks == []
      ensures this.channel == channel && this.size == size && this.stream == stream
      ensures fresh(sets)
    {
      this.channel, this.size, this.initial := channel, size, initial;
      tree, bufferSize, expectedSnMemo, closed, emitted, acks := [], 0, None, false, [], [];
      this.stream, accepted, clean := stream, map[], true;
      sets := new DisjointMessageSets();
      new;
      assert stream.StartOf(initial) == initial;
      assert forall t :: t in accepted ==> false;
    }

    method BufferMessage(g: nat, first: bool, last: bool, headerLength: nat, data: Data, ghost from: nat)
      requires Core(from) && from <= g && stream.Has(g)
      requires stream.At(g) == S.Fragment(first, last, data)
      modifies this`tree, this`bufferSize, this`accepted, sets
      ensures Core(from)
      ensures accepted ==
        if g in old(accepted) || old(bufferSize) + headerLength + |data| > size then old(accepted)
        else old(accepted)[g := headerLength]
    {
      hide Represents, OnlyNeeded, TreeHolds, SetsHold, S.WellFormed, TreeBytes, LowerBound, InChannel;
      var msgSize := headerLength + |data|;
      if bufferSize + msgSize <= size {
        var entry := Entry(channel, g, first, last, headerLength, data);
        var i := LowerBound(tree, channel, g);
        LookUp(tree, stream, accepted, channel, from, g);
        var wasInserted := !(i < |tree| && tree[i].channel == channel && tree[i].sn == g);
        if wasInserted {
          TreeInsert(tree, stream, accepted, channel, from, entry);
          TreeBytesInsert(tree, i, entry);
          tree := InsertAt(tree, i, entry);
          bufferSize := bufferSize + msgSize;
          SetsInsert(sets.reg, if first && last then sets.reg else sets.reg[g := MessageSets.Part(first, last, |data|)],
                     stream, accepted, from, g, headerLength);
          sets.GotMessage(g, first, last, |data|);
          accepted := accepted[g := headerLength];
        }
      }
    }

    // Looks the set of the entry at iter up: the message that starts there.
    method NextSet(iter: nat, ghost from: nat) returns (complete: bool, largest: nat, total: nat)
      requires stream.Valid() && InChannel(stream, accepted) && stream.base <= from
      requires TreeHolds(tree, stream, accepted, channel, from) && SetsHold(sets.reg, stream, accepted, from)
      requires sets.Valid() && sets.Tight()
      requires iter < |tree| && tree[iter].sn == from + iter && AllIn(accepted, from, from + iter)
      requires stream.Has(tree[iter].sn) && stream.At(tree[iter].sn).first
      modifies sets
      ensures sets.Valid() && sets.Tight() && sets.reg == old(sets.reg)
      ensures HeldUpTo(stream, accepted, tree[iter].sn, complete, largest, total)
    {
      var entry := tree[iter];
      assert Matches(entry, stream, accepted, channel);
      ghost var reg := sets.reg;
      complete, largest, total := sets.GetMessageData(entry.sn, entry.first, entry.last, |entry.data|);
      SetData(reg, stream, accepted, from, entry.sn, complete, largest, total);
    }

    // Emits the whole message held from the entry at iter up to largest.
    method EmitSet(iter: nat, largest: nat, total: nat, ghost from: nat) returns (end: nat)
      requires stream.base <= from && TreeHolds(tree, stream, accepted, channel, from)
      requires iter < |tree| && tree[iter].sn == from + iter && AllIn(accepted, from, from + iter)
      requires HeldUpTo(stream, accepted, tree[iter].sn, true, largest, total)
      modifies this`emitted
      ensures end == largest + 1 - from && iter < end <= |tree|
      ensures emitted == old(emitted)
        + [S.Payload(stream.s, tree[iter].sn - stream.base, largest + 1 - stream.base)]
    {
      hide TreeHolds, S.WellFormed, S.Payload, TreeBytes, ScanEnd, SizeSum, PrefixEnd, LowerBound;
      var entry := tree[iter];
      assert AllIn(accepted, from, largest + 1);
      TreeAt(tree, stream, accepted, channel, from, from + iter);
      ScanRun(tree, stream, accepted, channel, from, entry.sn, largest);
      SliceIsPayload(tree, stream, accepted, channel, from, entry.sn, largest + 1);
      if largest == entry.sn {
        SinglePayload(stream, largest);
        emitted := emitted + [entry.data];
        end := iter + 1;
      } else {
        var buf := new S.Byte[total];
        var ok;
        ok, end := ProcessMessageSetData(tree, largest, iter, buf);
        assert ok;
        emitted := emitted + [buf[..]];
      }
    }

    // Emits whole messages from the start of the buffer for as long as they
    // follow one another. -1 in the code is None here.
    method ProcessBuffer(ghost from: nat)
      returns (iter: nat, largestSet: Option<nat>, largestSn: Option<nat>)
      requires Core(from) && stream.Has(from) && tree != [] && tree[0].sn == from
      requires stream.StartOf(from) == from && emitted == stream.Before(from)
      modifies this`emitted, sets
      ensures sets.Valid() && sets.Tight() && sets.reg == old(sets.reg)
      ensures stream.At(from).first ==> largestSn.Some?
      ensures largestSn.None? ==> iter == 0 && largestSet.None? && emitted == old(emitted)
      ensures largestSn.Some? ==>
        var e := largestSn.value + 1;
        && from < e <= stream.End() && AllIn(accepted, from, e) && e !in accepted
        && var g := stream.StartOf(e);
           && from <= g && iter == g - from && iter <= |tree|
           && largestSet == (if g == from then None else Some(g - 1))
           && emitted == stream.Before(g)
    {
      hide Represents, OnlyNeeded, TreeHolds, SetsHold, S.WellFormed, S.Messages, S.GroupStart, TreeBytes;
      hide LowerBound, Used, PrefixEnd, S.Payload;
      iter, largestSet, largestSn := 0, None, None;
      TreeFirst(tree, stream, accepted, channel, from);
      if !tree[iter].first {
        return;
      }
      var expected := tree[iter].sn;
      while iter < |tree| && tree[iter].channel == channel && tree[iter].sn <= expected
        invariant sets.Valid() && sets.Tight() && sets.reg == old(sets.reg)
        invariant from <= expected <= stream.End() && iter == expected - from <= |tree|
        invariant AllIn(accepted, from, expected)
        invariant expected < stream.End() ==> stream.At(expected).first
        invariant stream.StartOf(expected) == expected
        invariant emitted == stream.Before(expected)
        invariant largestSet == largestSn == (if expected == from then None else Some(expected - 1))
        decreases |tree| - iter
      {
        TreeAt(tree, stream, accepted, channel, from, expected);
        var complete, largest, total := NextSet(iter, from);
        assert AllIn(accepted, from, largest + 1);
        ghost var start := expected;
        expected := largest + 1;
        largestSn := Some(largest);
        if !complete {
          return;
        }
        NextMessage(stream, start, largest);
        iter := EmitSet(iter, largest, total, from);
        largestSet := Some(largest);
      }
      TreeAt(tree, stream, accepted, channel, from, expected);
    }

    // Forgets the first n entries of the tree.
    method Remove(n: nat)
      requires n <= |tree| && bufferSize == TreeBytes(tree)
      modifies this`tree, this`bufferSize
      ensures tree == old(tree)[n..] && bufferSize == TreeBytes(tree) <= old(bufferSize)
    {
      TreeBytesConcat(tree[..n], tree[n..]);
      assert tree == tree[..n] + tree[n..];
      bufferSize := bufferSize - TreeBytes(tree[..n]);
      tree := tree[n..];
    }

    // Forgets the messages below number g in both data structures.
    method RemoveProcessed(end: nat, largestSet: Option<nat>, ghost from: nat, ghost g: nat)
      requires Core(from) && stream.base <= from <= g <= stream.End() && end == g - from <= |tree|
      requires AllIn(accepted, from, g) && stream.StartOf(from) == from && stream.StartOf(g) == g
      requires largestSet == if g == from then None else Some(g - 1)
      modifies this`tree, this`bufferSize, sets
      ensures Core(g)
    {
      hide Represents, OnlyNeeded, S.WellFormed, TreeHolds, SetsHold;
      if largestSet.Some? {
        ghost var lo := GroupEnd(sets.reg, stream, accepted, from, g);
        HeldParts(sets.reg, stream, accepted, from);
        FlagsConsistent(sets.reg, stream);
        sets.CutAtGroupEnd(largestSet.value, lo);
        SetsCut(sets.reg, stream, accepted, from, g);
        sets.RemoveMessageAndOlderMessages(largestSet.value);
      }
      TreeCut(tree, stream, accepted, channel, from, g);
      Remove(end);
    }

    // Emits and forgets every message that has become whole.
    method FlushBuffer(expected: nat)
      requires Reached(expected) && expected == ExpectedSequenceNumber()
      modifies this`emitted, this`acks, this`expectedSnMemo, this`tree, this`bufferSize, sets
      ensures Reached(ExpectedSequenceNumber()) && ExpectedSequenceNumber() !in accepted
      ensures expected <= ExpectedSequenceNumber()
      ensures acks == old(acks)
        + if stream.StartOf(expected) < ExpectedSequenceNumber() then [ExpectedSequenceNumber() - 1] else []
    {
      hide Represents, OnlyNeeded, S.WellFormed, TreeHolds, SetsHold, S.Messages, S.GroupStart, InChannel, TreeBytes;
      hide LowerBound, Used, PrefixEnd, AcksOk;
      if tree == [] {
        FirstHeld(tree, stream, accepted, channel, expected);
        return;
      }
      var start := LowerBound(tree, channel, 0);
      ghost var from := stream.StartOf(expected);
      FirstHeld(tree, stream, accepted, channel, expected);
      StartIsStart(stream, expected);
      TreeFirst(tree, stream, accepted, channel, from);
      var foundEntry := tree[start];
      if foundEntry.channel != channel || foundEntry.sn > expected {
        return;
      }
      var end, largestSet, largestSn := ProcessBuffer(from);
      if largestSn.Some? {
        acks := acks + [Wrap(largestSn.value)];
        expectedSnMemo := Some(largestSn.value + 1);
      }
      ghost var g := stream.StartOf(largestSn.value + 1);
      StartIsStart(stream, largestSn.value + 1);
      RemoveProcessed(end, largestSet, from, g);
    }

    // The expected fragment is a whole message: hand it over without buffering
    // it, and then whatever follows it in the buffer.
    method EmitAtOnce(headerLength: nat, data: Data, appCloses: bool)
      requires Reached(ExpectedSequenceNumber()) && ExpectedSequenceNumber() !in accepted && !closed
      requires var e := ExpectedSequenceNumber(); stream.Has(e) && stream.At(e) == S.Fragment(true, true, data)
      modifies this`emitted, this`acks, this`expectedSnMemo, this`tree, this`bufferSize, this`accepted, this`closed,
               sets
      ensures Reached(ExpectedSequenceNumber()) && (!closed ==> ExpectedSequenceNumber() !in accepted)
      ensures accepted == old(accepted)[old(ExpectedSequenceNumber()) := headerLength]
      ensures old(ExpectedSequenceNumber()) < ExpectedSequenceNumber() && closed == appCloses
      ensures closed ==> HandedOver(data) && acks == old(acks)
      ensures acks == old(acks)
        + if stream.StartOf(old(ExpectedSequenceNumber()) + 1) < ExpectedSequenceNumber()
          then [ExpectedSequenceNumber() - 1] else []
    {
      hide Represents, OnlyNeeded, S.WellFormed, TreeHolds, SetsHold, S.Messages, S.GroupStart, TreeBytes, Used;
      var expected := ExpectedSequenceNumber();
      AcceptUnbuffered(tree, sets.reg, stream, accepted, channel, expected, headerLength);
      var newExpected := (expected + 1) % TWO_32;
      expectedSnMemo := Some(newExpected);
      emitted := emitted + [data];
      accepted := accepted[expected := headerLength];
      // The application may close the connection from inside the callback.
      if appCloses {
        closed := true;
      } else {
        FlushBuffer(newExpected);
      }
    }

    // The expected fragment was handed over, and nothing else has happened.
    twostate predicate HandedOver(data: Data)
      reads this, sets
    {
      && emitted == old(emitted) + [data] && ExpectedSequenceNumber() == old(ExpectedSequenceNumber()) + 1
      && tree == old(tree) && bufferSize == old(bufferSize) && unchanged(sets)
    }

    method BufferAndFlush(g: nat, first: bool, last: bool, headerLength: nat, data: Data)
      requires Reached(ExpectedSequenceNumber()) && ExpectedSequenceNumber() !in accepted && !closed
      requires ExpectedSequenceNumber() <= g && stream.Has(g) && stream.At(g) == S.Fragment(first, last, data)
      modifies this`emitted, this`acks, this`expectedSnMemo, this`tree, this`bufferSize, this`accepted, sets
      ensures Reached(ExpectedSequenceNumber()) && ExpectedSequenceNumber() !in accepted
      ensures accepted ==
        if g in old(accepted) || old(bufferSize) + headerLength + |data| > size then old(accepted)
        else old(accepted)[g := headerLength]
      ensures old(ExpectedSequenceNumber()) <= ExpectedSequenceNumber()
      ensures acks == old(acks)
        + if stream.StartOf(old(ExpectedSequenceNumber())) < ExpectedSequenceNumber()
          then [ExpectedSequenceNumber() - 1] else []
    {
      hide Represents, OnlyNeeded, S.WellFormed, TreeHolds, SetsHold, S.Messages, S.GroupStart, TreeBytes, Used;
      var expected := ExpectedSequenceNumber();
      BufferMessage(g, first, last, headerLength, data, stream.StartOf(expected));
      FlushBuffer(expected);
    }

    // What an arriving fragment does apart from its own acknowledgement.
    method Take(g: nat, first: bool, last: bool, headerLength: nat, data: Data, appCloses: bool)
      requires Reached(ExpectedSequenceNumber()) && ExpectedSequenceNumber() !in accepted && !closed
      requires stream.Has(g) && stream.At(g) == S.Fragment(first, last, data)
      modifies this`emitted, this`acks, this`expectedSnMemo, this`tree, this`bufferSize, this`accepted, this`closed,
               sets
      ensures Reached(ExpectedSequenceNumber()) && (!closed ==> ExpectedSequenceNumber() !in accepted)
      ensures accepted == Accept(stream, size, old(accepted), g, headerLength)
      ensures old(ExpectedSequenceNumber()) <= ExpectedSequenceNumber()
      ensures closed <==> appCloses && g == old(ExpectedSequenceNumber()) && first && last
      ensures closed ==> HandedOver(data) && acks == old(acks)
      ensures acks == old(acks) + SecondAck(stream, g, old(ExpectedSequenceNumber()), ExpectedSequenceNumber())
      ensures old(ExpectedSequenceNumber()) in accepted ==> old(ExpectedSequenceNumber()) < ExpectedSequenceNumber()
    {
      hide Represents, OnlyNeeded, S.WellFormed, TreeHolds, SetsHold, S.Messages, S.GroupStart, TreeBytes, Used;
      var expected := ExpectedSequenceNumber();
      HeldIsTreeBytes(tree, stream, accepted, channel, expected);
      assert g < expected ==> g in accepted;
      hide AllIn, InChannel;
      if expected == g && first && last {
        EmitAtOnce(headerLength, data, appCloses);
      } else if expected <= g {
        BufferAndFlush(g, first, last, headerLength, data);
      }
    }

    // An arriving fragment of a RELIABLE_ORDERED channel. appCloses says
    // whether the application closes the connection when it is handed the
    // message; t is the number that the other host sent.
    method GotMessage(sequenceNumber: Seq24, first: bool, last: bool, headerLength: nat, data: Data,
                      appCloses: bool, ghost t: nat)
      requires Inv() && !closed
      requires stream.Has(t) && sequenceNumber == Wrap(t) && S.Fragment(first, last, data) == stream.At(t)
      requires InWindow(ExpectedSequenceNumber(), t)
      modifies this, sets
      ensures Inv() && stream == old(stream)
      // When the application closes, nothing more is handed over, buffered or acknowledged.
      ensures closed <==> appCloses && t == old(ExpectedSequenceNumber()) && first && last
      ensures closed ==> HandedOver(data) && acks == old(acks) + FirstAck(t, old(ExpectedSequenceNumber()))
      ensures accepted == Accept(stream, size, old(accepted), t, headerLength)
      ensures clean == (old(clean) && !(t == old(ExpectedSequenceNumber())
                                        && Refused(stream, size, old(accepted), t, headerLength)))
      ensures AckStep(stream, old(acks), acks, t, old(ExpectedSequenceNumber()), ExpectedSequenceNumber())
    {
      hide Represents, OnlyNeeded, S.WellFormed, TreeHolds, SetsHold, S.Messages, S.GroupStart, TreeBytes, Used;
      hide AcksOk, Unwrap, InWindow, Wrap, AllIn, InChannel;
      var expected := ExpectedSequenceNumber();
      Guessed(stream, expected, t);
      HeldIsTreeBytes(tree, stream, accepted, channel, expected);
      var g := Unwrap(expected, sequenceNumber);
      ghost var refused := t == expected && Refused(stream, size, accepted, t, headerLength);
      if expected >= g {
        acks := acks + [Wrap(if expected == g then g else expected - 1)];
      }
      Take(g, first, last, headerLength, data, appCloses);
      clean := clean && !refused;
      if clean {
        AcksStayOk(stream, old(acks), acks, t, expected, ExpectedSequenceNumber());
      }
    }

    // The other host sends more on the channel; nothing changes here.
    ghost method StreamGrows(stream': Channel)
      requires Inv() && Continues(stream, stream')
      modifies this`stream
      ensures Inv() && stream == stream'
    {
      hide Represents, OnlyNeeded, TreeHolds, SetsHold, S.Messages, S.GroupStart, InChannel;
      StreamContinues(tree, sets.reg, stream, stream', accepted, channel, ExpectedSequenceNumber());
      stream := stream';
    }
  }
}
