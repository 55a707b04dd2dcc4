/** The list of lost packet ranges that decides which NAKs to send
    (EmiLossList.cc). */
module LossList {
  import opened NetUtil

  datatype Range = Range(oldest: int, newest: int, lastFeedbackTime: real, numFeedbacks: nat)

  // The set is ordered by the newest number of each range.
  ghost predicate Sorted(s: seq<Range>) {
    forall i, j | 0 <= i < j < |s| :: s[i].newest < s[j].newest
  }

  function LowerBound(s: seq<Range>, n: int): (i: nat)
    ensures i <= |s|
    ensures forall k | 0 <= k < i :: s[k].newest < n
    ensures i < |s| ==> s[i].newest >= n
  {
    if s != [] && s[0].newest < n then 1 + LowerBound(s[1..], n) else 0
  }

  // std::set::insert: an equal key is left alone.
  function Insert(s: seq<Range>, r: Range): seq<Range> {
    var i := LowerBound(s, r.newest);
    if i < |s| && s[i].newest == r.newest then s else s[..i] + [r] + s[i..]
  }

  lemma InsertSorted(s: seq<Range>, r: Range)
    requires Sorted(s)
    ensures Sorted(Insert(s, r))
  {
  }

  ghost predicate HasKey(s: seq<Range>, n: int) {
    exists i :: 0 <= i < |s| && s[i].newest == n
  }

  // Inserting adds the range unless there is one with the same newest number.
  lemma InsertMembers(s: seq<Range>, r: Range)
    requires Sorted(s)
    ensures forall x :: x in Insert(s, r) <==> x in s || (x == r && !HasKey(s, r.newest))
  {
    var i := LowerBound(s, r.newest);
    if k :| 0 <= k < |s| && s[k].newest == r.newest {
      assert i <= k && s[i].newest <= s[k].newest;
    } else {
      assert forall x :: x in s <==> x in s[..i] || x in s[i..];
    }
  }

  // Number k lies in one of the ranges.
  ghost predicate Covered(s: seq<Range>, k: int) {
    exists i :: 0 <= i < |s| && s[i].oldest <= k <= s[i].newest
  }

  // The documented invariant: ranges are not empty, and each lies above the one before.
  ghost predicate Disjoint(s: seq<Range>) {
    && (forall i | 0 <= i < |s| :: s[i].oldest <= s[i].newest)
    && (forall i, j | 0 <= i < j < |s| :: s[i].newest < s[j].oldest)
  }

  lemma SliceCovered(s: seq<Range>, n: nat, k: int)
    requires n <= |s|
    ensures Covered(s, k) <==> Covered(s[..n], k) || Covered(s[n..], k)
  {
  }

  lemma ConcatCovered(s: seq<Range>, t: seq<Range>, k: int)
    ensures Covered(s + t, k) <==> Covered(s, k) || Covered(t, k)
  {
    assert (s + t)[..|s|] == s && (s + t)[|s|..] == t;
    SliceCovered(s + t, |s|, k);
  }

  lemma SingleCovered(r: Range, k: int)
    ensures Covered([r], k) <==> r.oldest <= k <= r.newest
  {
    assert [r][0] == r;
  }

  // What is left of range r when number g turns up inside it.
  function Pieces(r: Range, g: int): seq<Range> {
    (if r.oldest <= g - 1 then [r.(newest := g - 1)] else [])
      + if g + 1 <= r.newest then [r.(oldest := g + 1, numFeedbacks := 0)] else []
  }

  lemma PiecesCovered(r: Range, g: int, k: int)
    requires r.oldest <= g <= r.newest
    ensures Covered(Pieces(r, g), k) <==> r.oldest <= k <= r.newest && k != g
  {
    var x := if r.oldest <= g - 1 then [r.(newest := g - 1)] else [];
    var y := if g + 1 <= r.newest then [r.(oldest := g + 1, numFeedbacks := 0)] else [];
    ConcatCovered(x, y, k);
    SingleCovered(r.(newest := g - 1), k);
    SingleCovered(r.(oldest := g + 1, numFeedbacks := 0), k);
  }

  lemma BelowUncovered(s: seq<Range>, bound: int, k: int)
    requires forall j | 0 <= j < |s| :: s[j].newest < bound
    ensures Covered(s, k) ==> k < bound
  {
  }

  lemma AboveUncovered(s: seq<Range>, bound: int, k: int)
    requires forall j | 0 <= j < |s| :: s[j].oldest > bound
    ensures Covered(s, k) ==> k > bound
  {
  }

  // Filling number g in a disjoint list: erasing its range and inserting the
  // pieces removes exactly g.
  lemma FillGap(s: seq<Range>, i: nat, g: int)
    requires Disjoint(s) && i < |s| && s[i].oldest <= g <= s[i].newest
    ensures var t := s[..i] + Pieces(s[i], g) + s[i + 1..];
      && Disjoint(t)
      && forall k :: Covered(t, k) <==> Covered(s, k) && k != g
  {
    var p := Pieces(s[i], g);
    var t := s[..i] + p + s[i + 1..];
    BelowUncovered(s[..i], s[i].oldest, g);
    AboveUncovered(s[i + 1..], s[i].newest, g);
    forall k
      ensures Covered(t, k) <==> Covered(s, k) && k != g
    {
      ConcatCovered(s[..i] + p, s[i + 1..], k);
      ConcatCovered(s[..i], p, k);
      PiecesCovered(s[i], g, k);
      SliceCovered(s, i, k);
      SliceCovered(s[i..], 1, k);
      assert s[i..][..1] == [s[i]] && s[i..][1..] == s[i + 1..];
      SingleCovered(s[i], k);
    }
  }

  // In a disjoint list the search by newest number finds the covering range.
  lemma LowerBoundCovers(s: seq<Range>, g: int)
    requires Disjoint(s)
    ensures var i := LowerBound(s, g); Covered(s, g) <==> i < |s| && s[i].oldest <= g
  {
  }

  // The state of the loss list: the newest number received, -1 before the
  // first, and the lost ranges.
  datatype State = State(newest: int, ranges: seq<Range>)

  // The number g found in range i: that range is erased, then its pieces are inserted.
  function Fill(s: seq<Range>, i: nat, g: int): seq<Range>
    requires i < |s|
  {
    var lower := s[i].(newest := g - 1);
    var upper := s[i].(oldest := g + 1, numFeedbacks := 0);
    var erased := s[..i] + s[i + 1..];
    var halfway := if lower.oldest <= lower.newest then Insert(erased, lower) else erased;
    if upper.oldest <= upper.newest then Insert(halfway, upper) else halfway
  }

  lemma InsertAt(s: seq<Range>, i: nat, r: Range)
    requires i <= |s|
    requires forall k | 0 <= k < i :: s[k].newest < r.newest
    requires i < |s| ==> r.newest < s[i].newest
    ensures Insert(s, r) == s[..i] + [r] + s[i..]
  {
  }

  // Inserting a range into a disjoint list keeps it disjoint if and only if the
  // range is left out or meets none of the others.
  lemma InsertDisjoint(s: seq<Range>, r: Range)
    requires Disjoint(s) && r.oldest <= r.newest
    ensures Disjoint(Insert(s, r)) <==>
      HasKey(s, r.newest) || forall i | 0 <= i < |s| :: s[i].newest < r.oldest || r.newest < s[i].oldest
  {
    hide LowerBound;
    KeyFound(s, r.newest);
    if !HasKey(s, r.newest) {
      SpliceDisjoint(s, LowerBound(s, r.newest), r);
    }
  }

  lemma KeyFound(s: seq<Range>, n: int)
    requires Sorted(s)
    ensures var i := LowerBound(s, n); HasKey(s, n) <==> i < |s| && s[i].newest == n
  {
    hide LowerBound;
  }

  ghost predicate Precedes(x: seq<Range>, y: seq<Range>) {
    forall a, b | 0 <= a < |x| && 0 <= b < |y| :: x[a].newest < y[b].oldest
  }

  lemma DisjointConcat(x: seq<Range>, y: seq<Range>)
    ensures Disjoint(x + y) <==> Disjoint(x) && Disjoint(y) && Precedes(x, y)
  {
    var t := x + y;
    assert forall i | 0 <= i < |x| :: t[i] == x[i];
    assert forall i | 0 <= i < |y| :: t[|x| + i] == y[i];
    assert forall i | |x| <= i < |t| :: t[i] == y[i - |x|];
  }

  lemma SpliceDisjoint(s: seq<Range>, i: nat, r: Range)
    requires Disjoint(s) && r.oldest <= r.newest && i <= |s|
    requires forall k | 0 <= k < i :: s[k].newest < r.newest
    requires i < |s| ==> r.newest < s[i].newest
    ensures Disjoint(s[..i] + [r] + s[i..]) <==>
      forall k | 0 <= k < |s| :: s[k].newest < r.oldest || r.newest < s[k].oldest
  {
    hide Disjoint;
    var x, y := s[..i], s[i..];
    assert s == x + y;
    DisjointConcat(x, y);
    DisjointConcat(x, [r]);
    DisjointConcat(x + [r], y);
    assert Disjoint([r]) by {
      SingleDisjoint(r);
    }
    AfterSplice(s, i, r);
  }

  lemma SingleDisjoint(r: Range)
    requires r.oldest <= r.newest
    ensures Disjoint([r])
  {
  }

  // Only the new range can be in the way of the others.
  lemma AfterSplice(s: seq<Range>, i: nat, r: Range)
    requires Disjoint(s) && i <= |s| && r.oldest <= r.newest
    requires forall k | 0 <= k < i :: s[k].newest < r.newest
    requires i < |s| ==> r.newest < s[i].newest
    ensures Precedes(s[..i], [r]) && Precedes(s[..i] + [r], s[i..]) <==>
      forall k | 0 <= k < |s| :: s[k].newest < r.oldest || r.newest < s[k].oldest
  {
    assert forall b | 0 <= b < |s[i..]| :: s[i..][b] == s[i + b];
    assert Precedes(s[..i], [r]) ==> forall k | 0 <= k < i :: s[k].newest < [r][0].oldest;
    assert (s[..i] + [r])[i] == r;
    if Precedes(s[..i] + [r], s[i..]) {
      forall k | i <= k < |s|
        ensures r.newest < s[k].oldest
      {
        assert s[i..][k - i] == s[k];
      }
    }
  }

  lemma InsertBetween(x: seq<Range>, y: seq<Range>, r: Range)
    requires forall k | 0 <= k < |x| :: x[k].newest < r.newest
    requires y != [] ==> r.newest < y[0].newest
    ensures Insert(x + y, r) == x + [r] + y
  {
    InsertAt(x + y, |x|, r);
    assert (x + y)[..|x|] == x && (x + y)[|x|..] == y;
  }

  lemma FillIsPieces(s: seq<Range>, i: nat, g: int)
    requires Disjoint(s) && i < |s| && s[i].oldest <= g <= s[i].newest
    ensures Fill(s, i, g) == s[..i] + Pieces(s[i], g) + s[i + 1..]
  {
    hide Insert, LowerBound;
    var lower := s[i].(newest := g - 1);
    var upper := s[i].(oldest := g + 1, numFeedbacks := 0);
    var x, y := s[..i], s[i + 1..];
    if lower.oldest <= lower.newest {
      InsertBetween(x, y, lower);
      if upper.oldest <= upper.newest {
        InsertBetween(x + [lower], y, upper);
        assert x + Pieces(s[i], g) + y == x + [lower] + [upper] + y;
      }
    } else if upper.oldest <= upper.newest {
      InsertBetween(x, y, upper);
    }
  }

  // What gotPacket does with the unwrapped number g.
  function Arrived(st: State, now: real, g: nat): State {
    if st.newest == -1 || g == st.newest + 1 then
      st.(newest := g)
    else if g < st.newest then
      var i := LowerBound(st.ranges, g);
      if i == |st.ranges| || st.ranges[i].oldest > g then st else State(g, Fill(st.ranges, i, g))
    else if g - st.newest > 1 then
      State(g, Insert(st.ranges, Range(st.newest + 1, g - 1, now, 0)))
    else
      st
  }

  // The range a NAK is due for, as the code tests it.
  predicate Due(r: Range, now: real, rtt: real) {
    r.lastFeedbackTime + rtt * (2 + r.numFeedbacks) as real > now
  }

  // The documentation asks for a last feedback that is long enough ago. The
  // test in the code is true exactly when it is not.
  lemma DueIsReversed(r: Range, now: real, rtt: real)
    ensures Due(r, now, rtt) <==> !(now - r.lastFeedbackTime >= rtt * (2 + r.numFeedbacks) as real)
  {
  }

  // The newest range that a NAK is due for, or -1.
  function NewestDue(s: seq<Range>, now: real, rtt: real): (i: int)
    ensures -1 <= i < |s|
    ensures i >= 0 ==> Due(s[i], now, rtt)
    ensures forall k | i < k < |s| :: !Due(s[k], now, rtt)
  {
    if s == [] then -1
    else if Due(s[|s| - 1], now, rtt) then |s| - 1
    else NewestDue(s[..|s| - 1], now, rtt)
  }

  lemma NewestDueStep(s: seq<Range>, i: nat, now: real, rtt: real)
    requires i <= |s|
    ensures NewestDue(s[..i], now, rtt) ==
      if i == 0 then -1
      else if s[i - 1].lastFeedbackTime + rtt * (2 + s[i - 1].numFeedbacks) as real > now then i - 1
      else NewestDue(s[..i - 1], now, rtt)
  {
  }

  function AfterNak(s: seq<Range>, i: nat, now: real): seq<Range>
    requires i < |s|
  {
    var r := s[i].(oldest := s[i].oldest + 1, numFeedbacks := s[i].numFeedbacks + 1, lastFeedbackTime := now);
    if r.oldest <= r.newest then Insert(s[i + 1..], r) else s[i + 1..]
  }

  lemma AfterNakInPlace(s: seq<Range>, i: nat, now: real)
    requires Disjoint(s) && i < |s|
    ensures Disjoint(AfterNak(s, i, now))
    ensures forall k :: Covered(AfterNak(s, i, now), k) <==> Covered(s, k) && k > s[i].oldest
  {
    hide Insert, LowerBound, Covered;
    var r := s[i].(oldest := s[i].oldest + 1, numFeedbacks := s[i].numFeedbacks + 1, lastFeedbackTime := now);
    var rest := s[i + 1..];
    var t := AfterNak(s, i, now);
    if r.oldest <= r.newest {
      InsertAt(rest, 0, r);
      assert t == [r] + rest;
    }
    forall k
      ensures Covered(t, k) <==> Covered(s, k) && k > s[i].oldest
    {
      SliceCovered(s, i, k);
      SliceCovered(s[i..], 1, k);
      assert s[i..][..1] == [s[i]] && s[i..][1..] == rest;
      SingleCovered(s[i], k);
      SingleCovered(r, k);
      ConcatCovered([r], rest, k);
      assert k > s[i].oldest ==> !Covered(s[..i], k) by {
        BelowUncovered(s[..i], s[i].oldest, k);
      }
      assert Covered(rest, k) ==> k > s[i].oldest by {
        AboveUncovered(rest, s[i].oldest, k);
      }
    }
  }

  // ----- what the documentation promises of the list

  // The set stays ordered, whatever arrives.
  lemma ArrivedSorted(st: State, now: real, g: nat)
    requires Sorted(st.ranges)
    ensures Sorted(Arrived(st, now, g).ranges)
  {
    hide Insert, LowerBound;
    InsertSorted(st.ranges, Range(st.newest + 1, g - 1, now, 0));
    var k := LowerBound(st.ranges, g);
    if k < |st.ranges| {
      var lower := st.ranges[k].(newest := g - 1);
      var upper := st.ranges[k].(oldest := g + 1, numFeedbacks := 0);
      var erased := st.ranges[..k] + st.ranges[k + 1..];
      InsertSorted(erased, lower);
      InsertSorted(erased, upper);
      InsertSorted(Insert(erased, lower), upper);
    }
  }

  lemma AfterNakSorted(s: seq<Range>, i: nat, now: real)
    requires Sorted(s) && i < |s|
    ensures Sorted(AfterNak(s, i, now))
  {
    hide Insert, LowerBound;
    InsertSorted(s[i + 1..],
                 s[i].(oldest := s[i].oldest + 1, numFeedbacks := s[i].numFeedbacks + 1, lastFeedbackTime := now));
  }

  // The range of a gap is put on the list.
  ghost predicate GapListed(st: State, g: nat) {
    st.newest >= 0 && g > st.newest + 1 && !HasKey(st.ranges, g - 1)
  }

  // It meets a range that is already listed, above the newest number.
  ghost predicate MeetsListed(st: State, g: nat) {
    exists i :: 0 <= i < |st.ranges| && st.ranges[i].newest > st.newest && st.ranges[i].oldest < g
  }

  // The documented invariant is kept by exactly the arrivals that do not list
  // a gap which meets a listed range.
  lemma ArrivalKeepsDisjoint(st: State, now: real, g: nat)
    requires Disjoint(st.ranges) && st.newest >= -1
    ensures Disjoint(Arrived(st, now, g).ranges) <==> !(GapListed(st, g) && MeetsListed(st, g))
  {
    hide Insert, LowerBound, Fill;
    if st.newest >= 0 && g > st.newest + 1 {
      InsertDisjoint(st.ranges, Range(st.newest + 1, g - 1, now, 0));
    } else if 0 <= g < st.newest {
      var i := LowerBound(st.ranges, g);
      if i < |st.ranges| && st.ranges[i].oldest <= g {
        FillIsPieces(st.ranges, i, g);
        FillGap(st.ranges, i, g);
      }
    }
  }

  // Every listed number is newer than n.
  ghost predicate NewerThan(s: seq<Range>, n: int) {
    forall i | 0 <= i < |s| :: n < s[i].oldest
  }

  // An arrival puts a number at or below the last NAK back on the list exactly
  // when it lists a gap that starts there.
  lemma ArrivalKeepsNewer(st: State, lastNak: int, now: real, g: nat)
    requires Sorted(st.ranges) && NewerThan(st.ranges, lastNak) && st.newest >= -1
    ensures NewerThan(Arrived(st, now, g).ranges, lastNak) <==> !(GapListed(st, g) && st.newest < lastNak)
  {
    hide Insert, LowerBound;
    if st.newest >= 0 && g > st.newest + 1 {
      var r := Range(st.newest + 1, g - 1, now, 0);
      InsertMembers(st.ranges, r);
      NewerMembers(st.ranges, lastNak);
      NewerMembers(Insert(st.ranges, r), lastNak);
    } else if 0 <= g < st.newest {
      var i := LowerBound(st.ranges, g);
      if i < |st.ranges| && st.ranges[i].oldest <= g {
        FillKeepsNewer(st.ranges, lastNak, i, g);
      }
    }
  }

  lemma NewerMembers(s: seq<Range>, n: int)
    ensures NewerThan(s, n) <==> forall x | x in s :: n < x.oldest
  {
  }

  lemma FillKeepsNewer(s: seq<Range>, n: int, i: nat, g: int)
    requires Sorted(s) && NewerThan(s, n) && i < |s| && s[i].oldest <= g
    ensures NewerThan(Fill(s, i, g), n)
  {
    hide Insert, LowerBound;
    var lower := s[i].(newest := g - 1);
    var upper := s[i].(oldest := g + 1, numFeedbacks := 0);
    var erased := s[..i] + s[i + 1..];
    InsertSorted(erased, lower);
    InsertMembers(erased, lower);
    InsertMembers(erased, upper);
    InsertMembers(Insert(erased, lower), upper);
    NewerMembers(s, n);
    assert forall x | x in erased :: x in s;
    NewerMembers(Fill(s, i, g), n);
  }

  // The invariant, and what makes an older NAK impossible.
  ghost predicate Documented(st: State, lastNak: int) {
    Disjoint(st.ranges) && NewerThan(st.ranges, lastNak)
  }

  // Number g lists a gap that holds listed numbers, or numbers up to the last NAK.
  ghost predicate Relists(st: State, lastNak: int, g: nat) {
    GapListed(st, g) && (MeetsListed(st, g) || st.newest < lastNak)
  }

  lemma ArrivalKeepsDocumented(st: State, lastNak: int, now: real, g: nat)
    requires Documented(st, lastNak) && st.newest >= -1
    ensures Documented(Arrived(st, now, g), lastNak) <==> !Relists(st, lastNak, g)
  {
    hide Arrived, GapListed, MeetsListed;
    assert Sorted(st.ranges);
    ArrivalKeepsDisjoint(st, now, g);
    ArrivalKeepsNewer(st, lastNak, now, g);
  }

  // A NAK is newer than the last one, and keeps what is documented.
  lemma NakKeepsDocumented(st: State, lastNak: int, now: real, rtt: real)
    requires Documented(st, lastNak)
    ensures var i := NewestDue(st.ranges, now, rtt); i >= 0 ==>
      && lastNak < st.ranges[i].oldest
      && Documented(st.(ranges := AfterNak(st.ranges, i, now)), st.ranges[i].oldest)
  {
    hide AfterNak, Covered;
    var i := NewestDue(st.ranges, now, rtt);
    if i >= 0 {
      AfterNakInPlace(st.ranges, i, now);
      NewerIsCovered(AfterNak(st.ranges, i, now), st.ranges[i].oldest);
    }
  }

  lemma NewerIsCovered(s: seq<Range>, n: int)
    requires Disjoint(s) && forall k :: Covered(s, k) ==> k > n
    ensures NewerThan(s, n)
  {
    forall i | 0 <= i < |s|
      ensures n < s[i].oldest
    {
      assert Covered(s, s[i].oldest);
    }
  }

  // ----- what else holds when no gap is filled

  // Number g fills a gap: it is older than the newest and still listed as lost.
  ghost predicate FillsGap(st: State, g: nat) {
    g < st.newest && Covered(st.ranges, g)
  }

  // The lost ranges are disjoint, and hold exactly the numbers between the
  // first and the newest received ones that did not arrive and are newer than
  // the last NAK.
  ghost predicate Exact(st: State, received: set<int>, first: int, lastNak: int) {
    && Disjoint(st.ranges)
    && (if st.newest == -1 then received == {} && lastNak == -1 && st.ranges == [] else
        && 0 <= first <= st.newest && first in received && st.newest in received
        && -1 <= lastNak < st.newest
        && (forall k | k in received :: k <= st.newest)
        && (forall k :: Covered(st.ranges, k) <==>
              first < k < st.newest && lastNak < k && k !in received))
  }

  // Every range of an exact list lies below the newest number.
  lemma RangesBelowNewest(st: State, received: set<int>, first: int, lastNak: int)
    requires Exact(st, received, first, lastNak)
    ensures forall i | 0 <= i < |st.ranges| ::
      lastNak < st.ranges[i].oldest && st.ranges[i].newest < st.newest
  {
    forall i | 0 <= i < |st.ranges|
      ensures lastNak < st.ranges[i].oldest && st.ranges[i].newest < st.newest
    {
      assert Covered(st.ranges, st.ranges[i].oldest) && Covered(st.ranges, st.ranges[i].newest);
    }
  }

  function FirstAfter(st: State, first: int, g: nat): int {
    if st.newest == -1 then g else first
  }

  lemma GapAdded(st: State, received: set<int>, first: int, lastNak: int, now: real, g: nat)
    requires Exact(st, received, first, lastNak) && st.newest >= 0 && g > st.newest + 1
    ensures Exact(Arrived(st, now, g), received + {g}, first, lastNak)
  {
    hide Insert, LowerBound, Covered;
    RangesBelowNewest(st, received, first, lastNak);
    var r := Range(st.newest + 1, g - 1, now, 0);
    InsertAt(st.ranges, |st.ranges|, r);
    var t := Arrived(st, now, g).ranges;
    assert t == st.ranges + [r];
    forall k
      ensures Covered(t, k) <==> first < k < g && lastNak < k && k !in received + {g}
    {
      ConcatCovered(st.ranges, [r], k);
      SingleCovered(r, k);
    }
  }

  // One arrival keeps the list exact if and only if it does not fill a gap.
  // Filling one removes exactly that number from the lost ranges, which stay
  // disjoint, but moves the newest number backwards.
  lemma ArrivalKeepsExact(st: State, received: set<int>, first: int, lastNak: int, now: real, g: nat)
    requires Exact(st, received, first, lastNak)
    ensures var a := Arrived(st, now, g);
      && (Exact(a, received + {g}, FirstAfter(st, first, g), lastNak) <==> !FillsGap(st, g))
      && Disjoint(a.ranges)
      && (FillsGap(st, g) ==>
            && a.newest == g < st.newest
            && forall k :: Covered(a.ranges, k) <==> Covered(st.ranges, k) && k != g)
  {
    hide Insert, LowerBound, Covered, Disjoint, Fill;
    LowerBoundCovers(st.ranges, g);
    if FillsGap(st, g) {
      var i := LowerBound(st.ranges, g);
      FillIsPieces(st.ranges, i, g);
      FillGap(st.ranges, i, g);
      assert st.newest in received + {g};
    } else if st.newest >= 0 && g > st.newest + 1 {
      GapAdded(st, received, first, lastNak, now, g);
    } else if st.newest == -1 {
      forall k
        ensures !Covered(st.ranges, k)
      {
        BelowUncovered(st.ranges, k, k);
      }
    }
  }

  // A NAK on an exact list names a number above every earlier NAK, and keeps
  // the list exact.
  lemma NakKeepsExact(st: State, received: set<int>, first: int, lastNak: int, now: real, rtt: real)
    requires Exact(st, received, first, lastNak)
    ensures var i := NewestDue(st.ranges, now, rtt); i >= 0 ==>
      && lastNak < st.ranges[i].oldest < st.newest
      && st.ranges[i].oldest !in received
      && Exact(st.(ranges := AfterNak(st.ranges, i, now)), received, first, st.ranges[i].oldest)
  {
    var i := NewestDue(st.ranges, now, rtt);
    if i >= 0 {
      RangesBelowNewest(st, received, first, lastNak);
      AfterNakInPlace(st.ranges, i, now);
      assert Covered(st.ranges, st.ranges[i].oldest);
    }
  }

  datatype Event = Packet(now: real, sn: Seq24) | NakTimeout(now: real, rtt: real)

  datatype Trace = Trace(st: State, received: set<int>, first: int, naks: seq<int>)

  function Guess(st: State, sn: Seq24): nat
    requires st.newest >= -1
  {
    Unwrap(st.newest + 1, sn)
  }

  function Step(t: Trace, e: Event): (t': Trace)
    requires t.st.newest >= -1
    ensures t'.st.newest >= -1
  {
    match e
    case Packet(now, sn) =>
      var g := Guess(t.st, sn);
      Trace(Arrived(t.st, now, g), t.received + {g}, FirstAfter(t.st, t.first, g), t.naks)
    case NakTimeout(now, rtt) =>
      var i := NewestDue(t.st.ranges, now, rtt);
      if i < 0 then t
      else t.(st := t.st.(ranges := AfterNak(t.st.ranges, i, now)), naks := t.naks + [t.st.ranges[i].oldest])
  }

  function Run(events: seq<Event>): (t: Trace)
    ensures t.st.newest >= -1
  {
    if events == [] then Trace(State(-1, []), {}, -1, [])
    else Step(Run(events[..|events| - 1]), events[|events| - 1])
  }

  function LastNak(naks: seq<int>): int {
    if naks == [] then -1 else naks[|naks| - 1]
  }

  // No late packet lands inside a range that is still listed as lost.
  ghost predicate NoGapFilled(events: seq<Event>) {
    forall i | 0 <= i < |events| && events[i].Packet? ::
      !FillsGap(Run(events[..i]).st, Guess(Run(events[..i]).st, events[i].sn))
  }

  lemma StartIsExact()
    ensures Exact(State(-1, []), {}, -1, -1)
  {
  }

  // Over every run in which no gap is filled, the list is exact and each NAK
  // is newer than the one before.
  lemma {:induction false} EveryRunIsExact(events: seq<Event>)
    requires NoGapFilled(events)
    ensures var t := Run(events);
      && Exact(t.st, t.received, t.first, LastNak(t.naks))
      && forall i, j | 0 <= i < j < |t.naks| :: t.naks[i] < t.naks[j]
  {
    hide Insert, LowerBound, Covered, Arrived, AfterNak, NewestDue, Exact, FillsGap, Guess;
    if events == [] {
      StartIsExact();
    } else {
      var n := |events| - 1;
      var before := events[..n];
      assert forall i | 0 <= i <= n :: before[..i] == events[..i];
      EveryRunIsExact(before);
      var t := Run(before);
      match events[n]
      case Packet(now, sn) =>
        ArrivalKeepsExact(t.st, t.received, t.first, LastNak(t.naks), now, Guess(t.st, sn));
      case NakTimeout(now, rtt) =>
        NakKeepsExact(t.st, t.received, t.first, LastNak(t.naks), now, rtt);
    }
  }

  // No arrival lists a gap that holds listed numbers, or numbers up to the last NAK.
  ghost predicate NothingRelisted(events: seq<Event>) {
    forall i | 0 <= i < |events| && events[i].Packet? ::
      !Relists(Run(events[..i]).st, LastNak(Run(events[..i]).naks), Guess(Run(events[..i]).st, events[i].sn))
  }

  ghost predicate DocumentedAt(events: seq<Event>, n: nat)
    requires n <= |events|
  {
    Documented(Run(events[..n]).st, LastNak(Run(events[..n]).naks))
  }

  // What is documented holds all along a run if and only if nothing is
  // relisted on it, and then each NAK is newer than the one before.
  lemma {:induction false} EveryRunIsDocumented(events: seq<Event>)
    ensures (forall n | 0 <= n <= |events| :: DocumentedAt(events, n)) <==> NothingRelisted(events)
    ensures NothingRelisted(events) ==>
      forall i, j | 0 <= i < j < |Run(events).naks| :: Run(events).naks[i] < Run(events).naks[j]
  {
    hide Run, Step, Documented, Relists, Guess;
    if events == [] {
      StartIsDocumented();
      assert forall n | 0 <= n <= |events| :: events[..n] == [];
    } else {
      var m := |events| - 1;
      var before, e := events[..m], events[m];
      assert events[..|events|] == events == before + [e];
      assert forall n | 0 <= n <= m :: before[..n] == events[..n];
      EveryRunIsDocumented(before);
      assert forall n | 0 <= n <= m :: DocumentedAt(before, n) <==> DocumentedAt(events, n);
      RunAppend(before, e);
      assert before[..m] == before;
      if DocumentedAt(before, m) {
        StepKeepsDocumented(Run(before), e);
      }
      assert Run(events) == Step(Run(before), e);
      assert DocumentedAt(events, m + 1) <==> Documented(Run(events).st, LastNak(Run(events).naks));
      var relists := e.Packet? && Relists(Run(before).st, LastNak(Run(before).naks), Guess(Run(before).st, e.sn));
      assert NothingRelisted(events) <==> NothingRelisted(before) && !relists;
      assert (forall n | 0 <= n <= m + 1 :: DocumentedAt(events, n))
        <==> (forall n | 0 <= n <= m :: DocumentedAt(before, n)) && DocumentedAt(events, m + 1);
    }
  }

  lemma StartIsDocumented()
    ensures Run([]).naks == [] && Documented(Run([]).st, -1)
  {
  }

  lemma StepKeepsDocumented(t: Trace, e: Event)
    requires t.st.newest >= -1 && Documented(t.st, LastNak(t.naks))
    ensures var t' := Step(t, e);
      && (Documented(t'.st, LastNak(t'.naks)) <==>
            !(e.Packet? && Relists(t.st, LastNak(t.naks), Guess(t.st, e.sn))))
      && (t'.naks == t.naks || (t'.naks == t.naks + [LastNak(t'.naks)] && LastNak(t'.naks) > LastNak(t.naks)))
  {
    hide Documented, Relists, Arrived, AfterNak, NewestDue, Guess;
    match e
    case Packet(now, sn) =>
      ArrivalKeepsDocumented(t.st, LastNak(t.naks), now, Guess(t.st, sn));
    case NakTimeout(now, rtt) =>
      NakKeepsDocumented(t.st, LastNak(t.naks), now, rtt);
  }

  lemma RunAppend(events: seq<Event>, e: Event)
    ensures Run(events + [e]) == Step(Run(events), e)
  {
  }

  lemma SmallGuess(newest: int, sn: Seq24)
    requires -1 <= newest < 100 && sn < 100
    ensures forall st: State | st.newest == newest :: Guess(st, sn) == sn
  {
  }

  // Range 1..9, of which 2 is filled.
  lemma FillExample(s: seq<Range>)
    requires s == [Range(1, 9, 0.0, 0)]
    ensures LowerBound(s, 2) == 0
    ensures Fill(s, 0, 2) == [Range(1, 1, 0.0, 0), Range(3, 9, 0.0, 0)]
  {
  }

  lemma GapFilledExample()
    ensures var t := Step(Step(Step(Run([]), Packet(0.0, 0)), Packet(0.0, 10)), Packet(0.0, 2));
      t == Trace(State(2, [Range(1, 1, 0.0, 0), Range(3, 9, 0.0, 0)]), {0, 2, 10}, 0, [])
  {
    hide Guess, Insert, LowerBound, Fill;
    SmallGuess(-1, 0);
    SmallGuess(0, 10);
    SmallGuess(10, 2);
    var t1 := Step(Run([]), Packet(0.0, 0));
    assert t1 == Trace(State(0, []), {0}, 0, []);
    InsertAt([], 0, Range(1, 9, 0.0, 0));
    assert Insert([], Range(1, 9, 0.0, 0)) == [Range(1, 9, 0.0, 0)];
    var t2 := Step(t1, Packet(0.0, 10));
    assert t2 == Trace(State(10, [Range(1, 9, 0.0, 0)]), {0, 10}, 0, []);
    FillExample(t2.st.ranges);
  }

  lemma NaksExample(t: Trace)
    requires t == Trace(State(2, [Range(1, 1, 0.0, 0), Range(3, 9, 0.0, 0)]), {0, 2, 10}, 0, [])
    ensures var t' := Step(Step(t, NakTimeout(0.0, 1.0)), NakTimeout(0.0, 1.0));
      t' == Trace(State(2, [Range(5, 9, 0.0, 2)]), {0, 2, 10}, 0, [3, 4])
  {
  }

  lemma OverlapExample(t: Trace)
    requires t == Trace(State(2, [Range(5, 9, 0.0, 2)]), {0, 2, 10}, 0, [3, 4])
    ensures var t' := Step(t, Packet(0.0, 12));
      && t'.st == State(12, [Range(5, 9, 0.0, 2), Range(3, 11, 0.0, 0)])
      && !Disjoint(t'.st.ranges)
      && Step(t', NakTimeout(0.0, 1.0)).naks == [3, 4, 3]
  {
    hide Guess;
    SmallGuess(2, 12);
    var t' := Step(t, Packet(0.0, 12));
    assert t'.st == State(12, [Range(5, 9, 0.0, 2), Range(3, 11, 0.0, 0)]);
    assert t'.st.ranges[0].newest == 9 && t'.st.ranges[1].oldest == 3;
  }

  // A second NAK from the same range, later than the first listing would allow:
  // what counts is when the last one was given.
  lemma SecondNakExample(t: Trace)
    requires t.st == State(10, [Range(1, 9, 0.0, 0)]) && t.naks == []
    ensures Step(Step(t, NakTimeout(1.5, 1.0)), NakTimeout(4.0, 1.0)).naks == [1, 2]
    ensures Step(Step(t, NakTimeout(1.5, 1.0)), NakTimeout(4.5, 1.0)).naks == [1]
  {
    assert Step(t, NakTimeout(1.5, 1.0)).st == State(10, [Range(2, 9, 1.5, 1)]);
  }

  // With a gap filled, the newest number is behind ranges still listed, and
  // the next gap can cover the same numbers again. Here 0 and 10 arrive, then
  // 2, and after two NAKs 12 arrives: the ranges overlap and the third NAK is
  // older than the second.
  lemma NaksCanGoBackwards()
    ensures exists events, e :: !Disjoint(Run(events).st.ranges) && Run(events + [e]).naks == [3, 4, 3]
  {
    hide Run, Step, Disjoint;
    var nak := NakTimeout(0.0, 1.0);
    var e1 := [] + [Packet(0.0, 0)];
    var e2 := e1 + [Packet(0.0, 10)];
    var e3 := e2 + [Packet(0.0, 2)];
    var e4 := e3 + [nak];
    var e5 := e4 + [nak];
    var e6 := e5 + [Packet(0.0, 12)];
    RunAppend([], Packet(0.0, 0));
    RunAppend(e1, Packet(0.0, 10));
    RunAppend(e2, Packet(0.0, 2));
    GapFilledExample();
    RunAppend(e3, nak);
    RunAppend(e4, nak);
    NaksExample(Run(e3));
    RunAppend(e5, Packet(0.0, 12));
    OverlapExample(Run(e5));
    RunAppend(e6, nak);
  }

  class LossList {
    var newestSn: int
    var lossSet: seq<Range>

    ghost predicate Valid()
      reads this
    {
      newestSn >= -1 && Sorted(lossSet)
    }

    function Contents(): State
      reads this
    {
      State(newestSn, lossSet)
    }

    constructor ()
      ensures Valid() && Contents() == Run([]).st
    {
      newestSn, lossSet := -1, [];
    }

    method GotPacket(now: real, sn: Seq24)
      requires Valid()
      modifies this
      ensures Valid()
      ensures Contents() == Arrived(old(Contents()), now, Guess(old(Contents()), sn))
    {
      hide Insert, LowerBound, CyclicDifferenceSigned, Sorted;
      ArrivedSorted(Contents(), now, Guess(Contents(), sn));
      var expected := newestSn + 1;
      var diff := CyclicDifferenceSigned(Wrap(expected), sn);
      var guess := if diff > 0 && diff > expected then sn else expected - diff;
      if newestSn == -1 || expected == guess {
      } else if newestSn > guess {
        var i := LowerBound(lossSet, guess);
        if i == |lossSet| || lossSet[i].oldest > guess {
          return;
        }
        var lower := lossSet[i].(newest := guess - 1);
        var upper := lossSet[i].(oldest := guess + 1, numFeedbacks := 0);
        lossSet := lossSet[..i] + lossSet[i + 1..];
        if lower.oldest <= lower.newest {
          lossSet := Insert(lossSet, lower);
        }
        if upper.oldest <= upper.newest {
          lossSet := Insert(lossSet, upper);
        }
      } else if guess - newestSn > 1 {
        lossSet := Insert(lossSet, Range(newestSn + 1, guess - 1, now, 0));
      }
      newestSn := guess;
    }

    // Returns the wrapped number to send as NAK, or -1.
    method CalculateNak(now: real, rtt: real) returns (nak: int)
      requires Valid()
      modifies this
      ensures Valid()
      ensures var i := NewestDue(old(lossSet), now, rtt);
        && (i < 0 ==> nak == -1 && Contents() == old(Contents()))
        && (i >= 0 ==>
              && nak == old(lossSet)[i].oldest % BLOCK
              && Contents() == old(Contents()).(ranges := AfterNak(old(lossSet), i, now)))
    {
      hide Insert, LowerBound, NewestDue, Due, Sorted;
      var i := |lossSet|;
      assert lossSet[..i] == lossSet;
      while i > 0
        invariant 0 <= i <= |lossSet|
        invariant lossSet == old(lossSet) && newestSn == old(newestSn)
        invariant NewestDue(lossSet[..i], now, rtt) == NewestDue(lossSet, now, rtt)
      {
        NewestDueStep(lossSet, i, now, rtt);
        AfterNakSorted(lossSet, i - 1, now);
        var r := lossSet[i - 1];
        if r.lastFeedbackTime + rtt * (2 + r.numFeedbacks) as real > now {
          var r' := r.(oldest := r.oldest + 1, numFeedbacks := r.numFeedbacks + 1, lastFeedbackTime := now);
          lossSet := lossSet[i..];
          if r'.oldest <= r'.newest {
            lossSet := Insert(lossSet, r');
          }
          return r.oldest % BLOCK;
        }
        i := i - 1;
      }
      assert lossSet[..0] == [];
      NewestDueStep(lossSet, 0, now, rtt);
      return -1;
    }
  }
}
