/** A second account of the loss list, kept number by number: for every number
    listed as lost, what it is waiting for. The code's ranges are a compact form
    of it, and give the same NAKs. */
module LossLedger {
  import opened LossList
  import opened NetUtil

  // A number belongs to the group of lost numbers that ends with top. Its last
  // feedback was given, or it was listed, at the time since, and count NAKs were
  // given for its group since it was listed or cut off.
  datatype Entry = Entry(top: int, since: real, count: nat)

  datatype Ledger = Ledger(newest: int, lost: map<int, Entry>, naks: seq<int>)

  predicate Between(from: int, k: int, top: int) {
    from <= k <= top
  }

  ghost function WithGap(lost: map<int, Entry>, from: int, top: int, now: real): map<int, Entry> {
    lost + map k: int | from <= k <= top && Between(from, k, top) :: Entry(top, now, 0)
  }

  // Number g turns up: the numbers of its group below it end there, and those
  // above it start to count again.
  ghost function Without(lost: map<int, Entry>, g: int): map<int, Entry>
    requires g in lost
  {
    map k | k in lost && k != g ::
      if lost[k].top != lost[g].top then lost[k]
      else if k < g then lost[k].(top := g - 1)
      else lost[k].(count := 0)
  }

  // The packet numbered g arrives.
  ghost function Received(l: Ledger, now: real, g: nat): Ledger {
    if l.newest == -1 || g == l.newest + 1 then l.(newest := g)
    else if g > l.newest + 1 then
      var listed := g - 1 in l.lost && l.lost[g - 1].top == g - 1;
      l.(newest := g, lost := if listed then l.lost else WithGap(l.lost, l.newest + 1, g - 1, now))
    else if g < l.newest && g in l.lost then l.(newest := g, lost := Without(l.lost, g))
    else l
  }

  // The last feedback lies less than 2 + count round trips back.
  predicate Awaits(e: Entry, now: real, rtt: real) {
    now - e.since < rtt * (2 + e.count) as real
  }

  ghost predicate NewestAwaiting(lost: map<int, Entry>, now: real, rtt: real, m: int) {
    && m in lost && Awaits(lost[m], now, rtt)
    && forall k | k in lost && k > m :: !Awaits(lost[k], now, rtt)
  }

  ghost predicate OldestOfGroup(lost: map<int, Entry>, m: int, n: int)
    requires m in lost
  {
    && n in lost && lost[n].top == lost[m].top
    && forall k | k in lost && lost[k].top == lost[m].top :: n <= k
  }

  // Number n is fed back: what is not newer is given up, and the rest of its
  // group has had one more NAK, now.
  ghost function FedBack(lost: map<int, Entry>, n: int, now: real): map<int, Entry>
    requires n in lost
  {
    map k | k in lost && k > n ::
      if lost[k].top == lost[n].top then Entry(lost[k].top, now, lost[k].count + 1) else lost[k]
  }

  // The NAK is the oldest number in the group of the newest number that awaits one.
  ghost predicate Naks(l: Ledger, now: real, rtt: real, n: int) {
    exists m :: NewestAwaiting(l.lost, now, rtt, m) && OldestOfGroup(l.lost, m, n)
  }

  ghost predicate LedgerStep(l: Ledger, e: Event, l': Ledger)
    requires l.newest >= -1
  {
    match e
    case Packet(now, sn) => l' == Received(l, now, Unwrap(l.newest + 1, sn))
    case NakTimeout(now, rtt) =>
      if exists n :: Naks(l, now, rtt, n)
      then exists n :: Naks(l, now, rtt, n) && l' == Ledger(l.newest, FedBack(l.lost, n, now), l.naks + [n])
      else l' == l
  }

  // ----- the ranges stand for the ledger

  function EntryOf(r: Range): Entry {
    Entry(r.newest, r.lastFeedbackTime, r.numFeedbacks)
  }

  predicate Holds(r: Range, k: int) {
    r.oldest <= k <= r.newest
  }

  ghost predicate Represents(s: seq<Range>, lost: map<int, Entry>) {
    && (forall r, k {:trigger Holds(r, k)} | r in s && Holds(r, k) :: k in lost && lost[k] == EntryOf(r))
    && (forall k | k in lost :: exists r :: r in s && Holds(r, k))
  }

  lemma OneRange(s: seq<Range>, x: Range, y: Range, k: int)
    requires Disjoint(s) && x in s && y in s
    ensures Holds(x, k) && Holds(y, k) ==> x == y
    ensures x.newest == y.newest ==> x == y
    ensures x.oldest <= x.newest
  {
    var i, j :| 0 <= i < |s| && s[i] == x && 0 <= j < |s| && s[j] == y;
  }

  lemma GapRefines(st: State, lost: map<int, Entry>, now: real, g: nat)
    requires Disjoint(st.ranges) && Represents(st.ranges, lost) && st.newest >= 0 && g > st.newest + 1
    requires Disjoint(Arrived(st, now, g).ranges)
    ensures g - 1 in lost && lost[g - 1].top == g - 1 <==> HasKey(st.ranges, g - 1)
    ensures Represents(Arrived(st, now, g).ranges,
                       if HasKey(st.ranges, g - 1) then lost else WithGap(lost, st.newest + 1, g - 1, now))
  {
    hide Insert, LowerBound, Disjoint;
    var s, r := st.ranges, Range(st.newest + 1, g - 1, now, 0);
    assert Sorted(s) by {
      DisjointSorted(s);
    }
    InsertMembers(s, r);
    var t := Insert(s, r);
    if HasKey(s, g - 1) {
      var i :| 0 <= i < |s| && s[i].newest == g - 1;
      OneRange(s, s[i], s[i], 0);
      assert s[i] in s && Holds(s[i], g - 1);
    } else {
      var lost' := WithGap(lost, st.newest + 1, g - 1, now);
      forall x, k | x in t && Holds(x, k)
        ensures k in lost' && lost'[k] == EntryOf(x)
      {
        assert r in t;
        OneRange(t, x, r, k);
        assert Holds(r, k) <==> Between(st.newest + 1, k, g - 1);
      }
      forall k | k in lost'
        ensures exists x :: x in t && Holds(x, k)
      {
        if Between(st.newest + 1, k, g - 1) {
          assert r in t && Holds(r, k);
        } else {
          var x :| x in s && Holds(x, k);
          assert x in t;
        }
      }
    }
  }

  lemma DisjointSorted(s: seq<Range>)
    requires Disjoint(s)
    ensures Sorted(s)
  {
  }

  lemma FillRefines(s: seq<Range>, lost: map<int, Entry>, i: nat, g: int)
    requires Disjoint(s) && Represents(s, lost) && i < |s| && Holds(s[i], g)
    ensures g in lost && Represents(Fill(s, i, g), Without(lost, g))
  {
    hide Disjoint, Fill;
    FillIsPieces(s, i, g);
    var r, t := s[i], Fill(s, i, g);
    assert r in s && Holds(r, g);
    var lost' := Without(lost, g);
    FillMembers(s, i, g);
    forall x, k | x in t && Holds(x, k)
      ensures k in lost' && lost'[k] == EntryOf(x)
    {
      if x in s && x != r {
        OneRange(s, x, r, g);
        OneRange(s, x, r, k);
      } else {
        assert Holds(r, k);
      }
    }
    forall k | k in lost'
      ensures exists x :: x in t && Holds(x, k)
    {
      var x :| x in s && Holds(x, k);
      if x == r {
        var piece := if k < g then r.(newest := g - 1) else r.(oldest := g + 1, numFeedbacks := 0);
        assert piece in t && Holds(piece, k);
      } else {
        OneRange(s, x, r, k);
        assert x in t;
      }
    }
  }

  lemma FillMembers(s: seq<Range>, i: nat, g: int)
    requires Disjoint(s) && i < |s| && Holds(s[i], g)
    ensures forall x :: x in Fill(s, i, g) <==>
      || (x in s && x != s[i])
      || (x == s[i].(newest := g - 1) && x.oldest <= x.newest)
      || (x == s[i].(oldest := g + 1, numFeedbacks := 0) && x.oldest <= x.newest)
  {
    hide Fill;
    FillIsPieces(s, i, g);
    WithoutOne(s, i);
    assert Fill(s, i, g) == s[..i] + Pieces(s[i], g) + s[i + 1..];
  }

  lemma WithoutOne(s: seq<Range>, i: nat)
    requires Disjoint(s) && i < |s|
    ensures forall x :: (x in s[..i] || x in s[i + 1..]) <==> x in s && x != s[i]
  {
    assert forall k | 0 <= k < |s| && k != i :: s[k] != s[i];
    forall x
      ensures (x in s[..i] || x in s[i + 1..]) <==> x in s && x != s[i]
    {
      if x in s && x != s[i] {
        var k :| 0 <= k < |s| && s[k] == x;
        assert k < i ==> s[..i][k] == x;
        assert k > i ==> s[i + 1..][k - i - 1] == x;
      }
    }
  }

  // The packet numbered g.
  lemma ArrivalRefines(st: State, l: Ledger, now: real, g: nat)
    requires Disjoint(st.ranges) && Represents(st.ranges, l.lost) && st.newest == l.newest >= -1
    requires Disjoint(Arrived(st, now, g).ranges)
    ensures var st', l' := Arrived(st, now, g), Received(l, now, g);
      Represents(st'.ranges, l'.lost) && st'.newest == l'.newest && l'.naks == l.naks
  {
    hide Disjoint, Represents, Insert, Fill, LowerBound, WithGap, Without;
    LowerBoundCovers(st.ranges, g);
    CoveredIsLost(st.ranges, l.lost, g);
    if st.newest >= 0 && g > st.newest + 1 {
      GapRefines(st, l.lost, now, g);
    } else if g < st.newest && g in l.lost {
      FillRefines(st.ranges, l.lost, LowerBound(st.ranges, g), g);
    }
  }

  lemma CoveredIsLost(s: seq<Range>, lost: map<int, Entry>, g: int)
    requires Represents(s, lost)
    ensures Covered(s, g) <==> g in lost
  {
    if Covered(s, g) {
      var i :| 0 <= i < |s| && s[i].oldest <= g <= s[i].newest;
      assert s[i] in s && Holds(s[i], g);
    }
  }

  lemma DueAwaits(r: Range, now: real, rtt: real)
    ensures Due(r, now, rtt) <==> Awaits(EntryOf(r), now, rtt)
  {
  }

  // The numbers in range i are one group, and what is newer lies in later ranges.
  lemma GroupOfRange(s: seq<Range>, lost: map<int, Entry>, i: nat, k: int)
    requires Disjoint(s) && Represents(s, lost) && i < |s|
    ensures Holds(s[i], k) <==> k in lost && lost[k].top == s[i].newest
    ensures Holds(s[i], k) ==> lost[k] == EntryOf(s[i])
    ensures k in lost && k > s[i].newest ==> exists j :: i < j < |s| && Holds(s[j], k)
    ensures k in lost && k <= s[i].newest ==> exists j :: 0 <= j <= i && Holds(s[j], k)
  {
    assert s[i] in s;
    if k in lost {
      var x :| x in s && Holds(x, k);
      var j :| 0 <= j < |s| && s[j] == x;
      OneRange(s, x, s[i], k);
      assert j < i ==> s[j].newest < s[i].oldest;
      assert i < j ==> s[i].newest < s[j].oldest;
    }
  }

  // The code finds the number that the ledger names, and no other is named.
  lemma NakRefines(s: seq<Range>, l: Ledger, now: real, rtt: real)
    requires Disjoint(s) && Represents(s, l.lost)
    ensures var i := NewestDue(s, now, rtt);
      forall n :: Naks(l, now, rtt, n) <==> i >= 0 && n == s[i].oldest
  {
    hide Disjoint, Represents, Due, Awaits;
    var i := NewestDue(s, now, rtt);
    if i < 0 {
      forall k | k in l.lost
        ensures !Awaits(l.lost[k], now, rtt)
      {
        AwaitsByRange(s, l.lost, k, now, rtt);
      }
    } else {
      var r := s[i];
      DueAwaits(r, now, rtt);
      OneRange(s, r, r, r.newest);
      forall k
        ensures Holds(r, k) <==> k in l.lost && l.lost[k].top == r.newest
        ensures Holds(r, k) ==> l.lost[k] == EntryOf(r)
        ensures k in l.lost && k > r.newest ==> !Awaits(l.lost[k], now, rtt)
      {
        GroupOfRange(s, l.lost, i, k);
        if k in l.lost && k > r.newest {
          var j :| i < j < |s| && Holds(s[j], k);
          GroupOfRange(s, l.lost, j, k);
          DueAwaits(s[j], now, rtt);
        }
      }
      assert Holds(r, r.newest) && Holds(r, r.oldest);
      assert NewestAwaiting(l.lost, now, rtt, r.newest) && OldestOfGroup(l.lost, r.newest, r.oldest);
    }
  }

  lemma AwaitsByRange(s: seq<Range>, lost: map<int, Entry>, k: int, now: real, rtt: real)
    requires Disjoint(s) && Represents(s, lost) && k in lost
    ensures exists j :: 0 <= j < |s| && Holds(s[j], k) && (Awaits(lost[k], now, rtt) <==> Due(s[j], now, rtt))
  {
    var x :| x in s && Holds(x, k);
    var j :| 0 <= j < |s| && s[j] == x;
    DueAwaits(s[j], now, rtt);
  }

  lemma FeedbackRefines(s: seq<Range>, lost: map<int, Entry>, i: nat, now: real)
    requires Disjoint(s) && Represents(s, lost) && i < |s|
    ensures s[i].oldest in lost && Represents(AfterNak(s, i, now), FedBack(lost, s[i].oldest, now))
  {
    hide Disjoint, Represents, Insert, LowerBound;
    var r, t := s[i], AfterNak(s, i, now);
    var r' := r.(oldest := r.oldest + 1, numFeedbacks := r.numFeedbacks + 1, lastFeedbackTime := now);
    assert r in s;
    OneRange(s, r, r, r.oldest);
    GroupOfRange(s, lost, i, r.oldest);
    AfterNakMembers(s, i, now);
    var lost' := FedBack(lost, r.oldest, now);
    assert Represents(t, lost') by {
      forall x, k | x in t && Holds(x, k)
        ensures k in lost' && lost'[k] == EntryOf(x)
      {
        GroupOfRange(s, lost, i, k);
        if x in s[i + 1..] {
          var j :| 0 <= j < |s[i + 1..]| && s[i + 1..][j] == x;
          GroupOfRange(s, lost, i + 1 + j, k);
          Later(s, i, i + 1 + j);
        }
      }
      forall k | k in lost'
        ensures exists x :: x in t && Holds(x, k)
      {
        GroupOfRange(s, lost, i, k);
        if k > r.newest {
          var j :| i < j < |s| && Holds(s[j], k);
          assert s[i + 1..][j - i - 1] == s[j];
        } else {
          var j :| 0 <= j <= i && Holds(s[j], k);
          if j < i {
            Later(s, j, i);
          }
          assert r' in t && Holds(r', k);
        }
      }
      RepresentsIs(t, lost');
    }
  }

  lemma RepresentsIs(s: seq<Range>, lost: map<int, Entry>)
    requires forall r, k {:trigger Holds(r, k)} | r in s && Holds(r, k) :: k in lost && lost[k] == EntryOf(r)
    requires forall k | k in lost :: exists r :: r in s && Holds(r, k)
    ensures Represents(s, lost)
  {
  }

  lemma Later(s: seq<Range>, i: nat, j: nat)
    requires Disjoint(s) && i < j < |s|
    ensures s[i].newest < s[j].oldest && s[i].newest < s[j].newest && s[i].oldest <= s[i].newest
  {
  }

  lemma AfterNakMembers(s: seq<Range>, i: nat, now: real)
    requires Disjoint(s) && i < |s|
    ensures forall x :: x in AfterNak(s, i, now) <==>
      || x in s[i + 1..]
      || (&& x == Range(s[i].oldest + 1, s[i].newest, now, s[i].numFeedbacks + 1)
          && x.oldest <= x.newest)
  {
    var r := Range(s[i].oldest + 1, s[i].newest, now, s[i].numFeedbacks + 1);
    InsertAt(s[i + 1..], 0, r);
  }

  // ----- runs

  ghost predicate Agree(t: Trace, l: Ledger) {
    && Disjoint(t.st.ranges) && Represents(t.st.ranges, l.lost)
    && t.st.newest == l.newest >= -1 && t.naks == l.naks
  }

  // As long as the ranges stay disjoint, each step of the code is that of the ledger.
  lemma StepAgrees(t: Trace, l: Ledger, e: Event, l': Ledger)
    requires Agree(t, l) && LedgerStep(l, e, l') && Disjoint(Step(t, e).st.ranges)
    ensures Agree(Step(t, e), l')
  {
    hide Disjoint, Represents, Arrived, AfterNak, NewestDue, Received, FedBack, Naks;
    match e
    case Packet(now, sn) =>
      ArrivalRefines(t.st, l, now, Guess(t.st, sn));
    case NakTimeout(now, rtt) =>
      NakRefines(t.st.ranges, l, now, rtt);
      var i := NewestDue(t.st.ranges, now, rtt);
      if i >= 0 {
        FeedbackRefines(t.st.ranges, l.lost, i, now);
        assert Naks(l, now, rtt, t.st.ranges[i].oldest);
      }
  }

  lemma StepExists(t: Trace, l: Ledger, e: Event) returns (l': Ledger)
    requires Agree(t, l)
    ensures LedgerStep(l, e, l')
  {
    hide Disjoint, Represents, NewestDue, Received, FedBack, Naks;
    match e
    case Packet(now, sn) =>
      l' := Received(l, now, Unwrap(l.newest + 1, sn));
    case NakTimeout(now, rtt) =>
      NakRefines(t.st.ranges, l, now, rtt);
      var i := NewestDue(t.st.ranges, now, rtt);
      if i >= 0 {
        FeedbackRefines(t.st.ranges, l.lost, i, now);
        var n := t.st.ranges[i].oldest;
        assert Naks(l, now, rtt, n);
        l' := Ledger(l.newest, FedBack(l.lost, n, now), l.naks + [n]);
      } else {
        l' := l;
      }
  }

  ghost predicate IsLedger(events: seq<Event>, ls: seq<Ledger>) {
    && |ls| == |events| + 1 && ls[0] == Ledger(-1, map[], [])
    && forall i | 0 <= i < |events| :: ls[i].newest >= -1 && LedgerStep(ls[i], events[i], ls[i + 1])
  }

  // The documented invariant, all along the run.
  ghost predicate StaysDisjoint(events: seq<Event>) {
    forall n | 0 <= n <= |events| :: Disjoint(Run(events[..n]).st.ranges)
  }

  lemma StaysDisjointBefore(events: seq<Event>)
    requires StaysDisjoint(events) && events != []
    ensures StaysDisjoint(events[..|events| - 1]) && Disjoint(Run(events).st.ranges)
  {
    assert events[..|events|] == events;
    var before := events[..|events| - 1];
    assert forall n | 0 <= n <= |before| :: before[..n] == events[..n];
  }

  // Over every run on which the ranges stay disjoint, the code's NAKs are those
  // of the ledger, and its ranges say of each lost number what the ledger does.
  lemma {:induction false} EveryRunIsLedger(events: seq<Event>, ls: seq<Ledger>)
    requires StaysDisjoint(events) && IsLedger(events, ls)
    ensures Agree(Run(events), ls[|events|])
  {
    hide Disjoint, StaysDisjoint, LedgerStep, Step;
    if events == [] {
      assert Run(events).st.ranges == [] by {
        StartIsDocumented();
      }
      NothingLost();
    } else {
      var n := |events| - 1;
      StaysDisjointBefore(events);
      assert IsLedger(events[..n], ls[..n + 1]);
      EveryRunIsLedger(events[..n], ls[..n + 1]);
      assert LedgerStep(ls[n], events[n], ls[n + 1]);
      StepAgrees(Run(events[..n]), ls[n], events[n], ls[n + 1]);
    }
  }

  lemma NothingLost()
    ensures Represents([], map[]) && Disjoint([])
  {
  }

  // There is such an account of every such run.
  lemma {:induction false} LedgerExists(events: seq<Event>) returns (ls: seq<Ledger>)
    requires StaysDisjoint(events)
    ensures IsLedger(events, ls)
  {
    hide Disjoint, StaysDisjoint, LedgerStep, Step, Represents;
    if events == [] {
      ls := [Ledger(-1, map[], [])];
    } else {
      var n := |events| - 1;
      StaysDisjointBefore(events);
      var front := LedgerExists(events[..n]);
      EveryRunIsLedger(events[..n], front);
      var l' := StepExists(Run(events[..n]), front[n], events[n]);
      ls := front + [l'];
    }
  }
}
