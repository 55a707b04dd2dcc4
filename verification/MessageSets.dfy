/** The disjoint-set forest that tells when every part of a split message has
    arrived (EmiReceiverBuffer.h, class DisjointMessageSets), for one channel.

    The abstract view of the forest is the map of registered parts. Part k is
    linked to number k + 1 when it is registered and is not the last part of
    its message; the sets of the forest are exactly the maximal linked runs. */
module MessageSets {
  import opened Options

  const SN_MAX: nat := 0xFFFF_FFFF_FFFF_FFFF

  // What is registered for one part: its two split flags and its length.
  datatype Part = Part(first: bool, last: bool, size: nat)

  datatype DisjointSet = DisjointSet(
    parent: nat,
    rank: nat,
    hasFirst: bool,
    hasLast: bool,
    firstMessage: nat,
    lastMessage: nat,
    size: nat)

  type Forest = map<nat, DisjointSet>
  type Parts = map<nat, Part>

  function NewSet(i: nat): DisjointSet {
    DisjointSet(i, 0, false, false, SN_MAX, 0, 0)
  }

  function Min(a: nat, b: nat): nat { if b < a then b else a }

  function Max(a: nat, b: nat): nat { if a < b then b else a }

  // ----- the abstract view

  ghost predicate Linked(reg: Parts, k: nat) {
    k in reg && !reg[k].last
  }

  ghost predicate Joined(reg: Parts, i: nat, j: nat) {
    forall k | i <= k < j :: Linked(reg, k)
  }

  ghost function SizeSum(reg: Parts, lo: nat, hi: nat): nat
    decreases hi - lo
  {
    if lo >= hi then 0
    else SizeSum(reg, lo, hi - 1) + if hi - 1 in reg then reg[hi - 1].size else 0
  }

  // No part that starts a message directly follows a part that is not last.
  ghost predicate ConsistentFlags(reg: Parts) {
    forall k: nat {:trigger FlagsMeet(reg, k)} :: FlagsMeet(reg, k)
  }

  ghost predicate FlagsMeet(reg: Parts, k: nat) {
    k in reg && k + 1 in reg ==> (reg[k].last <==> reg[k + 1].first)
  }

  // Parts lo..hi are one whole message around part i.
  ghost predicate WholeGroup(reg: Parts, lo: nat, i: nat, hi: nat) {
    && lo <= i <= hi
    && Joined(reg, lo, hi)
    && lo in reg && reg[lo].first
    && hi in reg && reg[hi].last
  }

  // ----- the representation invariant

  // Parent links stay inside a set, lead to its root, and strictly raise the rank.
  ghost predicate NodeOk(forest: Forest, root: map<nat, nat>, bound: nat, k: nat)
    requires k in forest && root.Keys == forest.Keys
  {
    var n := forest[k];
    && root[k] in forest && forest[root[k]].parent == root[k]
    && n.parent in forest && root[n.parent] == root[k]
    && (n.parent == k ==> root[k] == k)
    && (n.parent != k ==> n.rank < forest[n.parent].rank)
    && n.rank <= bound
  }

  ghost predicate Shape(forest: Forest, root: map<nat, nat>, bound: nat) {
    && root.Keys == forest.Keys
    && forall k {:trigger NodeOk(forest, root, bound, k)} | k in forest :: NodeOk(forest, root, bound, k)
  }

  // The sets are the linked runs.
  ghost predicate Runs(forest: Forest, root: map<nat, nat>, reg: Parts)
    requires root.Keys == forest.Keys
  {
    && (forall k {:trigger k in reg} | k in reg :: k in forest && k < SN_MAX)
    && (forall k: nat {:trigger Linked(reg, k)} | Linked(reg, k) :: k + 1 in forest)
    && (forall i, j {:trigger Joined(reg, i, j)} | i in forest && j in forest && i <= j ::
          root[i] == root[j] <==> Joined(reg, i, j))
  }

  ghost predicate Member(root: map<nat, nat>, reg: Parts, r: nat, k: nat) {
    k in reg && k in root && root[k] == r
  }

  ghost predicate EmptySummary(n: DisjointSet) {
    !n.hasFirst && !n.hasLast && n.lastMessage == 0 && n.size == 0
  }

  // The root's fields summarise the registered members of its set: minimum,
  // maximum, whether a first and a last part are present, and total bytes.
  ghost predicate FullSummary(n: DisjointSet, root: map<nat, nat>, reg: Parts, r: nat) {
    && Member(root, reg, r, n.firstMessage)
    && Member(root, reg, r, n.lastMessage)
    && n.firstMessage <= n.lastMessage
    && (forall k: nat | Member(root, reg, r, k) :: n.firstMessage <= k <= n.lastMessage)
    && (n.hasFirst <==> exists k: nat :: Member(root, reg, r, k) && reg[k].first)
    && (n.hasLast <==> exists k: nat :: Member(root, reg, r, k) && reg[k].last)
    && n.size == SizeSum(reg, n.firstMessage, n.lastMessage + 1)
  }

  ghost predicate Summary(n: DisjointSet, root: map<nat, nat>, reg: Parts, r: nat) {
    if n.firstMessage != SN_MAX then FullSummary(n, root, reg, r)
    else EmptySummary(n) && forall k: nat :: !Member(root, reg, r, k)
  }

  ghost predicate Summaries(forest: Forest, root: map<nat, nat>, reg: Parts) {
    forall r {:trigger Summary(forest[r], root, reg, r)} | r in forest && forest[r].parent == r ::
      Summary(forest[r], root, reg, r)
  }

  ghost predicate Represents(forest: Forest, root: map<nat, nat>, bound: nat, reg: Parts) {
    Shape(forest, root, bound) && Runs(forest, root, reg) && Summaries(forest, root, reg)
  }

  // ----- facts about the representation

  lemma {:induction false} RankGrowsToRoot(forest: Forest, root: map<nat, nat>, bound: nat, k: nat)
    requires Shape(forest, root, bound) && k in forest
    ensures root[k] in forest && forest[k].rank <= forest[root[k]].rank
    ensures root[k] != k ==> forest[k].rank < forest[root[k]].rank
    decreases bound - forest[k].rank
  {
    assert NodeOk(forest, root, bound, k);
    var p := forest[k].parent;
    if p != k {
      assert NodeOk(forest, root, bound, p);
      RankGrowsToRoot(forest, root, bound, p);
    }
  }

  lemma JoinedMeets(reg: Parts, i: nat, k: nat, j: nat)
    ensures i <= k < j && Joined(reg, i, j) ==> Linked(reg, k)
  {
  }

  // Every set's keys form an interval.
  lemma SetsAreIntervals(forest: Forest, root: map<nat, nat>, bound: nat, reg: Parts, i: nat, k: nat, j: nat)
    requires Represents(forest, root, bound, reg)
    requires i in forest && j in forest && root[i] == root[j] && i <= k <= j
    ensures k in forest && root[k] == root[i]
  {
    assert Joined(reg, i, j);
    if k < j {
      assert Linked(reg, k);
    }
    assert Joined(reg, i, k);
  }

  lemma {:induction false} SizeSumSplit(reg: Parts, lo: nat, mid: nat, hi: nat)
    requires lo <= mid <= hi
    ensures SizeSum(reg, lo, hi) == SizeSum(reg, lo, mid) + SizeSum(reg, mid, hi)
    decreases hi
  {
    if mid < hi {
      SizeSumSplit(reg, lo, mid, hi - 1);
    }
  }

  lemma {:induction false} SizeSumSame(reg: Parts, reg': Parts, lo: nat, hi: nat)
    requires forall k | lo <= k < hi :: (k in reg <==> k in reg') && (k in reg ==> reg[k] == reg'[k])
    ensures SizeSum(reg, lo, hi) == SizeSum(reg', lo, hi)
    decreases hi
  {
    if lo < hi {
      SizeSumSame(reg, reg', lo, hi - 1);
    }
  }

  lemma NextMember(forest: Forest, root: map<nat, nat>, reg: Parts, k: nat)
    requires root.Keys == forest.Keys && Runs(forest, root, reg) && k in reg && !reg[k].last
    ensures k + 1 in forest && root[k + 1] == root[k]
  {
    assert Linked(reg, k);
    assert Joined(reg, k, k + 1);
  }

  // From a registered part, the run reaches without a gap to the largest
  // registered member, and stops there at a last part or at a missing one.
  lemma SummaryReach(forest: Forest, root: map<nat, nat>, bound: nat, reg: Parts, i: nat)
    requires Represents(forest, root, bound, reg) && i in reg
    ensures root[i] in forest
    ensures var n := forest[root[i]];
      && FullSummary(n, root, reg, root[i])
      && n.firstMessage <= i <= n.lastMessage
      && Joined(reg, n.firstMessage, n.lastMessage)
      && (forall k | n.firstMessage <= k <= n.lastMessage :: k in reg && root[k] == root[i])
      && n.lastMessage in reg
      && (reg[n.lastMessage].last || n.lastMessage + 1 !in reg)
      && (n.hasLast <==> reg[n.lastMessage].last)
  {
    var r := root[i];
    assert NodeOk(forest, root, bound, i);
    var n := forest[r];
    assert Member(root, reg, r, i);
    assert Summary(n, root, reg, r);
    var a, b := n.firstMessage, n.lastMessage;
    assert Joined(reg, a, b);
    forall k | a <= k <= b
      ensures k in reg && root[k] == r
    {
      SetsAreIntervals(forest, root, bound, reg, a, k, b);
      assert k < b ==> Linked(reg, k);
    }
    if !reg[b].last {
      NextMember(forest, root, reg, b);
      assert b + 1 in reg <==> Member(root, reg, r, b + 1);
    }
    forall k: nat | Member(root, reg, r, k) && k < b
      ensures !reg[k].last
    {
      JoinedMeets(reg, a, k, b);
    }
  }

  // The summary's first number is where the run of linked parts that reaches
  // number i starts.
  lemma FirstOfSet(forest: Forest, root: map<nat, nat>, bound: nat, reg: Parts, i: nat)
    requires Represents(forest, root, bound, reg) && i in forest
    requires i in reg || (i > 0 && Linked(reg, i - 1))
    ensures root[i] in forest
    ensures var first := forest[root[i]].firstMessage;
      first <= i && first in reg && Joined(reg, first, i) && (first == 0 || !Linked(reg, first - 1))
  {
    var x := if i in reg then i else i - 1;
    assert Joined(reg, x, i);
    SummaryReach(forest, root, bound, reg, x);
    var first := forest[root[x]].firstMessage;
    if first > 0 {
      assert Joined(reg, first - 1, first) <==> Linked(reg, first - 1);
      assert !Member(root, reg, root[x], first - 1);
    }
  }

  // A set is reported complete exactly when every part of the message is
  // present, and then the summary is the message's range and byte count.
  lemma CompleteIffWholeGroup(forest: Forest, root: map<nat, nat>, bound: nat, reg: Parts, i: nat)
    requires Represents(forest, root, bound, reg) && i in reg
    requires ConsistentFlags(reg)
    ensures root[i] in forest
    ensures var n := forest[root[i]];
      && (n.hasFirst && n.hasLast <==> exists lo: nat, hi: nat :: WholeGroup(reg, lo, i, hi))
      && (forall lo: nat, hi: nat | WholeGroup(reg, lo, i, hi) ::
            lo == n.firstMessage && hi == n.lastMessage && n.size == SizeSum(reg, lo, hi + 1))
  {
    SummaryReach(forest, root, bound, reg, i);
    var r := root[i];
    var n := forest[r];
    var a, b := n.firstMessage, n.lastMessage;
    forall k: nat | a < k <= b
      ensures !reg[k].first
    {
      JoinedMeets(reg, a, k - 1, b);
      assert FlagsMeet(reg, k - 1);
    }
    if n.hasFirst && n.hasLast {
      assert WholeGroup(reg, a, i, b);
    }
    forall lo: nat, hi: nat | WholeGroup(reg, lo, i, hi)
      ensures n.hasFirst && n.hasLast && lo == a && hi == b
    {
      assert Joined(reg, lo, i);
      assert Joined(reg, i, hi);
      assert Member(root, reg, r, lo) && Member(root, reg, r, hi);
      JoinedMeets(reg, a, hi, b);
    }
  }

  // ----- the steps on the representation

  lemma AddSingleton(forest: Forest, root: map<nat, nat>, bound: nat, reg: Parts, i: nat)
    requires Represents(forest, root, bound, reg) && i !in forest
    ensures Represents(forest[i := NewSet(i)], root[i := i], bound, reg)
  {
    var f', root' := forest[i := NewSet(i)], root[i := i];
    forall k | k in f'
      ensures NodeOk(f', root', bound, k)
    {
      if k != i {
        assert NodeOk(forest, root, bound, k);
      }
    }
    forall a, b | a in f' && b in f' && a <= b
      ensures root'[a] == root'[b] <==> Joined(reg, a, b)
    {
      if a == i && b != i {
        assert NodeOk(forest, root, bound, b);
        assert !Linked(reg, i);
      } else if b == i && a != i {
        assert NodeOk(forest, root, bound, a);
        assert !Linked(reg, i - 1);
      }
    }
    forall r | r in f' && f'[r].parent == r
      ensures Summary(f'[r], root', reg, r)
    {
      if r == i {
        forall k: nat
          ensures !Member(root', reg, i, k)
        {
          if k in forest {
            assert NodeOk(forest, root, bound, k);
          }
        }
      } else {
        assert Summary(forest[r], root, reg, r);
        assert forall k: nat :: Member(root', reg, r, k) <==> Member(root, reg, r, k);
      }
    }
  }

  // Pointing a node straight at its root changes nothing else.
  lemma Compress(forest: Forest, root: map<nat, nat>, bound: nat, reg: Parts, i: nat)
    requires Represents(forest, root, bound, reg) && i in forest && root[i] != i
    ensures Represents(forest[i := forest[i].(parent := root[i])], root, bound, reg)
  {
    var f' := forest[i := forest[i].(parent := root[i])];
    assert NodeOk(forest, root, bound, i);
    assert NodeOk(forest, root, bound, root[i]);
    RankGrowsToRoot(forest, root, bound, i);
    forall k | k in f'
      ensures NodeOk(f', root, bound, k)
    {
      assert NodeOk(forest, root, bound, k);
    }
    forall r | r in f' && f'[r].parent == r
      ensures Summary(f'[r], root, reg, r)
    {
      assert r != i;
      assert Summary(forest[r], root, reg, r);
    }
  }

  ghost function Merged(root: map<nat, nat>, ri: nat, rj: nat, top: nat): map<nat, nat> {
    map k | k in root :: if root[k] == ri || root[k] == rj then top else root[k]
  }

  // The new root after joining two roots: larger rank wins, on a tie the second.
  function Union(forest: Forest, ri: nat, rj: nat): (result: (Forest, nat))
    requires ri in forest && rj in forest && ri != rj
  {
    var top := if forest[ri].rank > forest[rj].rank then ri else rj;
    var sub := if top == ri then rj else ri;
    var t, s := forest[top], forest[sub];
    var t' := t.(rank := if t.rank == s.rank then t.rank + 1 else t.rank,
                 hasFirst := t.hasFirst || s.hasFirst,
                 hasLast := t.hasLast || s.hasLast,
                 firstMessage := Min(t.firstMessage, s.firstMessage),
                 lastMessage := Max(t.lastMessage, s.lastMessage),
                 size := t.size + s.size);
    (forest[sub := s.(parent := top)][top := t'], top)
  }

  // Hanging root sub under root top, whose rank ends up larger, keeps the shape.
  lemma LinkKeepsShape(forest: Forest, root: map<nat, nat>, bound: nat, sub: nat, top: nat,
                       f': Forest, root': map<nat, nat>)
    requires Shape(forest, root, bound)
    requires sub in forest && top in forest && sub != top
    requires forest[sub].parent == sub && forest[top].parent == top
    requires f'.Keys == forest.Keys && root'.Keys == root.Keys
    requires f'[sub].parent == top && f'[sub].rank == forest[sub].rank
    requires f'[top].parent == top && forest[top].rank <= f'[top].rank <= bound + 1 && forest[sub].rank < f'[top].rank
    requires forall k | k in forest && k != sub && k != top :: f'[k] == forest[k]
    requires forall k | k in root :: root'[k] == if root[k] == sub then top else root[k]
    ensures Shape(f', root', bound + 1)
  {
    assert NodeOk(forest, root, bound, sub);
    assert NodeOk(forest, root, bound, top);
    forall k | k in f'
      ensures NodeOk(f', root', bound + 1, k)
    {
      assert NodeOk(forest, root, bound, k);
      if k != sub && k != top {
        assert NodeOk(forest, root, bound, forest[k].parent);
        assert NodeOk(forest, root, bound, root[k]);
      }
    }
  }

  lemma UnionKeepsShape(forest: Forest, root: map<nat, nat>, bound: nat, ri: nat, rj: nat)
    requires Shape(forest, root, bound)
    requires ri in forest && rj in forest && ri != rj
    requires forest[ri].parent == ri && forest[rj].parent == rj
    ensures var (f', top) := Union(forest, ri, rj);
      Shape(f', Merged(root, ri, rj, top), bound + 1)
  {
    var (f', top) := Union(forest, ri, rj);
    var sub := if top == ri then rj else ri;
    assert NodeOk(forest, root, bound, top);
    assert NodeOk(forest, root, bound, sub);
    LinkKeepsShape(forest, root, bound, sub, top, f', Merged(root, ri, rj, top));
  }

  // Recording part i in the summary of root r.
  function Record(n: DisjointSet, i: nat, p: Part): DisjointSet {
    n.(hasFirst := n.hasFirst || p.first,
       hasLast := n.hasLast || p.last,
       firstMessage := Min(i, n.firstMessage),
       lastMessage := Max(i, n.lastMessage),
       size := n.size + p.size)
  }

  // The members of the set of x below x: either none, or all of an interval ending at x - 1.
  lemma MembersBelow(forest: Forest, root: map<nat, nat>, bound: nat, reg: Parts, x: nat)
    requires Represents(forest, root, bound, reg) && x in forest && x !in reg
    ensures root[x] in forest
    ensures var n := forest[root[x]];
      if n.firstMessage != SN_MAX
      then FullSummary(n, root, reg, root[x]) && n.lastMessage == x - 1 && n.firstMessage < x && n.lastMessage < SN_MAX
      else EmptySummary(n) && forall k: nat :: !Member(root, reg, root[x], k)
  {
    var r := root[x];
    assert NodeOk(forest, root, bound, x);
    var n := forest[r];
    assert Summary(n, root, reg, r);
    if n.firstMessage != SN_MAX {
      forall k: nat | Member(root, reg, r, k)
        ensures k < x && Member(root, reg, r, x - 1)
      {
        JoinedMeets(reg, x, x, k);
        SetsAreIntervals(forest, root, bound, reg, k, x - 1, x);
        assert Joined(reg, k, x);
        assert Linked(reg, x - 1);
      }
    }
  }

  // A last part is summarised with the interval of parts that ends just below it.
  lemma LastSummary(forest: Forest, root: map<nat, nat>, bound: nat, reg: Parts, i: nat, p: Part)
    requires Represents(forest, root, bound, reg)
    requires i in forest && i !in reg && i < SN_MAX && p.last && root[i] in forest
    ensures FullSummary(Record(forest[root[i]], i, p), root, reg[i := p], root[i])
  {
    var r := root[i];
    var n, n', reg' := forest[r], Record(forest[r], i, p), reg[i := p];
    MembersBelow(forest, root, bound, reg, i);
    assert Member(root, reg', r, i);
    assert forall k: nat :: Member(root, reg', r, k) <==> k == i || Member(root, reg, r, k);
    SizeSumSame(reg, reg', n'.firstMessage, i);
    assert SizeSum(reg', n'.firstMessage, i + 1) == SizeSum(reg', n'.firstMessage, i) + p.size;
  }

  // Registering the last part of a message, without a merge.
  lemma RecordLast(forest: Forest, root: map<nat, nat>, bound: nat, reg: Parts, i: nat, p: Part)
    requires Represents(forest, root, bound, reg)
    requires i in forest && i !in reg && i < SN_MAX && p.last && root[i] in forest
    ensures Represents(forest[root[i] := Record(forest[root[i]], i, p)], root, bound, reg[i := p])
  {
    var r := root[i];
    assert NodeOk(forest, root, bound, i);
    var n' := Record(forest[r], i, p);
    var f', reg' := forest[r := n'], reg[i := p];
    assert forall k: nat :: Linked(reg', k) <==> Linked(reg, k);
    assert forall a: nat, b: nat :: Joined(reg', a, b) <==> Joined(reg, a, b);
    RecordKeepsShape(forest, root, bound, r, i, p);
    LastSummary(forest, root, bound, reg, i, p);
    OtherSummaries(forest, root, reg, f', root, reg', r, r, i);
  }

  // Summaries of sets that a step does not touch carry over.
  lemma OtherSummaries(forest: Forest, root: map<nat, nat>, reg: Parts,
                       f': Forest, root': map<nat, nat>, reg': Parts, r: nat, sub: nat, i: nat)
    requires Summaries(forest, root, reg)
    requires root.Keys == root'.Keys == forest.Keys && f'.Keys == forest.Keys
    requires Runs(forest, root, reg)
    requires i !in reg && i in reg' && reg' == reg[i := reg'[i]]
    requires i in root' && root'[i] == r
    requires forall k | k in root :: root'[k] == root[k] || (root'[k] == r && root[k] == sub)
    requires r in f' && Summary(f'[r], root', reg', r)
    requires forall k | k in forest && k != r && k != sub :: f'[k] == forest[k]
    requires sub == r || (sub in f' && f'[sub].parent != sub && forall k | k in root :: root'[k] != sub)
    ensures Summaries(f', root', reg')
  {
    hide Summary, Linked;
    forall q | q in f' && f'[q].parent == q
      ensures Summary(f'[q], root', reg', q)
    {
      if q != r {
        assert q != sub;
        SummaryCarries(forest, root, reg, root', reg', q, i);
      }
    }
  }

  lemma SummaryCarries(forest: Forest, root: map<nat, nat>, reg: Parts,
                       root': map<nat, nat>, reg': Parts, q: nat, i: nat)
    requires q in forest && Summary(forest[q], root, reg, q)
    requires root.Keys == forest.Keys && Runs(forest, root, reg)
    requires i !in reg && i in reg' && reg' == reg[i := reg'[i]]
    requires forall k: nat :: Member(root', reg', q, k) <==> Member(root, reg, q, k)
    ensures Summary(forest[q], root', reg', q)
  {
    var n := forest[q];
    if n.firstMessage != SN_MAX {
      assert Joined(reg, n.firstMessage, n.lastMessage);
      assert i < n.firstMessage || n.lastMessage < i by {
        assert !Linked(reg, i);
      }
      SizeSumSame(reg, reg', n.firstMessage, n.lastMessage + 1);
    }
  }

  // Runs around a link that is added from i to i + 1.
  lemma JoinedAfterLink(reg: Parts, reg': Parts, i: nat, a: nat, b: nat)
    requires forall k: nat :: Linked(reg', k) <==> k == i || Linked(reg, k)
    requires a <= b
    ensures Joined(reg', a, b) <==> if a <= i < b then Joined(reg, a, i) && Joined(reg, i + 1, b) else Joined(reg, a, b)
  {
    hide Linked;
    if a <= i < b && Joined(reg', a, b) {
      assert forall k | a <= k < i :: Linked(reg', k);
      assert forall k | i + 1 <= k < b :: Linked(reg', k);
    }
  }

  // Joined runs after registering part i, which is not the last of its message.
  lemma RunsAfterLink(forest: Forest, root: map<nat, nat>, bound: nat, reg: Parts, i: nat, p: Part, top: nat)
    requires Represents(forest, root, bound, reg)
    requires i in forest && i + 1 in forest && i !in reg && i < SN_MAX && !p.last
    requires top == root[i] || top == root[i + 1]
    ensures root[i] != root[i + 1]
    ensures Runs(forest, Merged(root, root[i], root[i + 1], top), reg[i := p])
  {
    assert !Linked(reg, i);
    JoinedMeets(reg, i, i, i + 1);
    var root', reg' := Merged(root, root[i], root[i + 1], top), reg[i := p];
    assert forall k: nat :: Linked(reg', k) <==> k == i || Linked(reg, k);
    forall a, b | a in forest && b in forest && a <= b
      ensures root'[a] == root'[b] <==> Joined(reg', a, b)
    {
      JoinedAfterLink(reg, reg', i, a, b);
      MergedMeets(forest, root, reg, i, top, a, b);
    }
  }

  // Which keys the merger of two neighbouring sets puts together.
  lemma MergedMeets(forest: Forest, root: map<nat, nat>, reg: Parts, i: nat, top: nat, a: nat, b: nat)
    requires root.Keys == forest.Keys && Runs(forest, root, reg)
    requires i in forest && i + 1 in forest && a in forest && b in forest && a <= b && !Linked(reg, i)
    requires top == root[i] || top == root[i + 1]
    ensures var root' := Merged(root, root[i], root[i + 1], top);
      root'[a] == root'[b] <==>
        if a <= i < b then Joined(reg, a, i) && Joined(reg, i + 1, b) else Joined(reg, a, b)
  {
    hide Linked;
    if a <= i < b {
      JoinedMeets(reg, a, i, b);
      JoinedMeets(reg, a, i, i + 1);
      JoinedMeets(reg, i, i, b);
    } else if b <= i {
      JoinedMeets(reg, a, i, i + 1);
      JoinedMeets(reg, b, i, i + 1);
    } else {
      JoinedMeets(reg, i, i, a);
      JoinedMeets(reg, i, i, b);
    }
  }

  // Members above a number that is registered as a set's start, or none.
  lemma MembersFrom(forest: Forest, root: map<nat, nat>, bound: nat, reg: Parts, x: nat)
    requires Represents(forest, root, bound, reg) && x > 0 && x in forest && !Linked(reg, x - 1)
    ensures root[x] in forest
    ensures var n := forest[root[x]];
      if n.firstMessage != SN_MAX
      then FullSummary(n, root, reg, root[x]) && n.firstMessage == x && x in reg
      else EmptySummary(n) && forall k: nat :: !Member(root, reg, root[x], k)
  {
    var r := root[x];
    assert NodeOk(forest, root, bound, x);
    var n := forest[r];
    assert Summary(n, root, reg, r);
    if n.firstMessage != SN_MAX {
      forall k: nat | Member(root, reg, r, k)
        ensures x <= k && Member(root, reg, r, x)
      {
        JoinedMeets(reg, k, x - 1, x);
        JoinedMeets(reg, x, x, k);
      }
    }
  }

  // The summary of the union of the two neighbouring sets and part i.
  predicate IsCombined(n': DisjointSet, l: DisjointSet, h: DisjointSet, i: nat, p: Part) {
    && n'.hasFirst == (l.hasFirst || h.hasFirst || p.first)
    && n'.hasLast == (l.hasLast || h.hasLast || p.last)
    && n'.firstMessage == Min(i, Min(l.firstMessage, h.firstMessage))
    && n'.lastMessage == Max(i, Max(l.lastMessage, h.lastMessage))
    && n'.size == l.size + h.size + p.size
  }

  lemma UnionCombines(forest: Forest, ri: nat, rj: nat, i: nat, p: Part)
    requires ri in forest && rj in forest && ri != rj
    ensures var (f', top) := Union(forest, ri, rj);
      && (top == ri || top == rj) && top in f' && f'.Keys == forest.Keys
      && IsCombined(Record(f'[top], i, p), forest[ri], forest[rj], i, p)
      && var sub := if top == ri then rj else ri;
         f'[sub].parent == top && f'[top].parent == forest[top].parent
         && forall k | k in forest && k != top && k != sub :: f'[k] == forest[k]
  {
  }

  // The bytes of the two neighbours and of part i are the bytes of the range.
  lemma MiddleSize(reg: Parts, a: nat, i: nat, b: nat, p: Part)
    requires a <= i <= b && i !in reg
    ensures SizeSum(reg[i := p], a, b + 1) == SizeSum(reg, a, i) + p.size + SizeSum(reg, i + 1, b + 1)
  {
    var reg' := reg[i := p];
    SizeSumSplit(reg', a, i, b + 1);
    SizeSumSplit(reg', i, i + 1, b + 1);
    assert SizeSum(reg', i, i + 1) == SizeSum(reg', i, i) + p.size;
    SizeSumSame(reg, reg', a, i);
    SizeSumSame(reg, reg', i + 1, b + 1);
  }

  lemma MiddleMembers(root: map<nat, nat>, reg: Parts, ri: nat, rj: nat, top: nat, i: nat, p: Part)
    requires i in root && root[i] == ri && i !in reg && (top == ri || top == rj)
    ensures forall k: nat :: Member(Merged(root, ri, rj, top), reg[i := p], top, k)
                        <==> k == i || Member(root, reg, ri, k) || Member(root, reg, rj, k)
  {
  }

  lemma MiddleSummary(forest: Forest, root: map<nat, nat>, bound: nat, reg: Parts, i: nat, p: Part,
                      n': DisjointSet, top: nat)
    requires Represents(forest, root, bound, reg)
    requires i in forest && i + 1 in forest && i !in reg && i < SN_MAX && !p.last
    requires root[i] in forest && root[i + 1] in forest && root[i] != root[i + 1]
    requires top == root[i] || top == root[i + 1]
    requires IsCombined(n', forest[root[i]], forest[root[i + 1]], i, p)
    ensures FullSummary(n', Merged(root, root[i], root[i + 1], top), reg[i := p], top)
  {
    var ri, rj := root[i], root[i + 1];
    var root', reg' := Merged(root, ri, rj, top), reg[i := p];
    var l, h := forest[ri], forest[rj];
    MembersBelow(forest, root, bound, reg, i);
    assert !Linked(reg, i);
    MembersFrom(forest, root, bound, reg, i + 1);
    MiddleMembers(root, reg, ri, rj, top, i, p);
    MiddleRange(l, h, root, root', reg, reg', ri, rj, top, i, p, n');
    MiddleFlags(l, h, root, root', reg, reg', ri, rj, top, i, p, n');
  }

  lemma MiddleRange(l: DisjointSet, h: DisjointSet, root: map<nat, nat>, root': map<nat, nat>, reg: Parts, reg': Parts,
                    ri: nat, rj: nat, top: nat, i: nat, p: Part, n': DisjointSet)
    requires Summary(l, root, reg, ri) && Summary(h, root, reg, rj)
    requires l.firstMessage != SN_MAX ==> l.lastMessage == i - 1
    requires h.firstMessage != SN_MAX ==> h.firstMessage == i + 1
    requires IsCombined(n', l, h, i, p)
    requires i !in reg && i < SN_MAX && reg' == reg[i := p]
    requires forall k: nat ::
      Member(root', reg', top, k) <==> k == i || Member(root, reg, ri, k) || Member(root, reg, rj, k)
    requires forall k {:trigger k in reg} | k in reg :: k < SN_MAX
    ensures Member(root', reg', top, n'.firstMessage) && Member(root', reg', top, n'.lastMessage)
    ensures n'.firstMessage <= n'.lastMessage
    ensures forall k: nat | Member(root', reg', top, k) :: n'.firstMessage <= k <= n'.lastMessage
    ensures n'.size == SizeSum(reg', n'.firstMessage, n'.lastMessage + 1)
  {
    var a, b := n'.firstMessage, n'.lastMessage;
    assert if l.firstMessage != SN_MAX then a == l.firstMessage else a == i;
    assert if h.firstMessage != SN_MAX then b == h.lastMessage else b == i;
    assert l.size == SizeSum(reg, a, i);
    assert h.size == SizeSum(reg, i + 1, b + 1);
    MiddleSize(reg, a, i, b, p);
  }

  lemma MiddleFlags(l: DisjointSet, h: DisjointSet, root: map<nat, nat>, root': map<nat, nat>, reg: Parts, reg': Parts,
                    ri: nat, rj: nat, top: nat, i: nat, p: Part, n': DisjointSet)
    requires Summary(l, root, reg, ri) && Summary(h, root, reg, rj)
    requires IsCombined(n', l, h, i, p)
    requires i !in reg && reg' == reg[i := p]
    requires forall k: nat ::
      Member(root', reg', top, k) <==> k == i || Member(root, reg, ri, k) || Member(root, reg, rj, k)
    ensures n'.hasFirst <==> exists k: nat :: Member(root', reg', top, k) && reg'[k].first
    ensures n'.hasLast <==> exists k: nat :: Member(root', reg', top, k) && reg'[k].last
  {
    assert Member(root', reg', top, i);
    assert forall k: nat :: Member(root, reg, ri, k) ==> Member(root', reg', top, k) && reg'[k] == reg[k];
    assert forall k: nat :: Member(root, reg, rj, k) ==> Member(root', reg', top, k) && reg'[k] == reg[k];
  }

  lemma SameKeys(forest: Forest, f': Forest, root: map<nat, nat>, reg: Parts)
    requires root.Keys == forest.Keys == f'.Keys && Runs(forest, root, reg)
    ensures Runs(f', root, reg)
  {
  }

  lemma RecordMiddle(forest: Forest, root: map<nat, nat>, bound: nat, reg: Parts, i: nat, p: Part)
    requires Represents(forest, root, bound, reg)
    requires i in forest && i + 1 in forest && i !in reg && i < SN_MAX && !p.last
    ensures root[i] in forest && root[i + 1] in forest && root[i] != root[i + 1]
    ensures var (f', top) := Union(forest, root[i], root[i + 1]);
      Represents(f'[top := Record(f'[top], i, p)], Merged(root, root[i], root[i + 1], top), bound + 1, reg[i := p])
  {
    hide Linked, Joined, FullSummary, EmptySummary, Union, Record, Runs, Summaries;
    assert NodeOk(forest, root, bound, i);
    assert NodeOk(forest, root, bound, i + 1);
    var ri, rj := root[i], root[i + 1];
    RunsAfterLink(forest, root, bound, reg, i, p, ri);
    var (f1, top) := Union(forest, ri, rj);
    UnionCombines(forest, ri, rj, i, p);
    var sub := if top == ri then rj else ri;
    var root', reg' := Merged(root, ri, rj, top), reg[i := p];
    RunsAfterLink(forest, root, bound, reg, i, p, top);
    UnionKeepsShape(forest, root, bound, ri, rj);
    var n' := Record(f1[top], i, p);
    var f' := f1[top := n'];
    RecordKeepsShape(f1, root', bound + 1, top, i, p);
    SameKeys(forest, f', root', reg');
    MiddleSummary(forest, root, bound, reg, i, p, n', top);
    OtherSummaries(forest, root, reg, f', root', reg', top, sub, i);
  }

  lemma RecordKeepsShape(forest: Forest, root: map<nat, nat>, bound: nat, top: nat, i: nat, p: Part)
    requires Shape(forest, root, bound) && top in forest
    ensures Shape(forest[top := Record(forest[top], i, p)], root, bound)
  {
    var f' := forest[top := Record(forest[top], i, p)];
    forall k | k in f'
      ensures NodeOk(f', root, bound, k)
    {
      assert NodeOk(forest, root, bound, k);
    }
  }

  // ----- removal

  ghost function Above<T>(m: map<nat, T>, c: nat): map<nat, T> {
    map k | k in m && k > c :: m[k]
  }

  // No set straddles a number that is linked to nothing above it, so erasing
  // everything up to it never separates a surviving node from its parent.
  lemma CutKeepsShape(forest: Forest, root: map<nat, nat>, bound: nat, reg: Parts, c: nat)
    requires Represents(forest, root, bound, reg) && !Linked(reg, c)
    ensures forall k {:trigger root[k]} | k in forest && k > c :: root[k] > c && forest[k].parent > c
    ensures Shape(Above(forest, c), Above(root, c), bound)
  {
    forall j, k | j in forest && k in forest && root[j] == root[k] && k > c
      ensures j > c
    {
      JoinedMeets(reg, j, c, k);
    }
    var f', root' := Above(forest, c), Above(root, c);
    forall k | k in forest && k > c
      ensures root[k] > c && forest[k].parent > c && NodeOk(f', root', bound, k)
    {
      assert NodeOk(forest, root, bound, k);
      assert NodeOk(forest, root, bound, root[k]);
    }
  }

  lemma CutKeepsRuns(forest: Forest, root: map<nat, nat>, bound: nat, reg: Parts, c: nat)
    requires Represents(forest, root, bound, reg) && !Linked(reg, c)
    ensures Runs(Above(forest, c), Above(root, c), Above(reg, c))
  {
    var f', root', reg' := Above(forest, c), Above(root, c), Above(reg, c);
    assert forall k: nat :: Linked(reg', k) <==> k > c && Linked(reg, k);
    forall a, b | a in f' && b in f' && a <= b
      ensures root'[a] == root'[b] <==> Joined(reg', a, b)
    {
      assert Joined(reg', a, b) <==> Joined(reg, a, b);
    }
  }

  lemma RemoveUpTo(forest: Forest, root: map<nat, nat>, bound: nat, reg: Parts, c: nat)
    requires Represents(forest, root, bound, reg) && !Linked(reg, c)
    ensures Represents(Above(forest, c), Above(root, c), bound, Above(reg, c))
  {
    CutKeepsShape(forest, root, bound, reg, c);
    CutKeepsRuns(forest, root, bound, reg, c);
    var f', root', reg' := Above(forest, c), Above(root, c), Above(reg, c);
    forall r | r in f' && f'[r].parent == r
      ensures Summary(f'[r], root', reg', r)
    {
      var n := forest[r];
      assert Summary(n, root, reg, r);
      assert NodeOk(forest, root, bound, r);
      forall k: nat
        ensures Member(root', reg', r, k) <==> Member(root, reg, r, k)
      {
        JoinedMeets(reg, k, c, r);
      }
      if n.firstMessage != SN_MAX {
        SizeSumSame(reg, reg', n.firstMessage, n.lastMessage + 1);
      }
    }
  }

  ghost predicate OnlyNeeded(keys: set<nat>, reg: Parts) {
    forall k {:trigger k in keys} | k in keys :: k in reg || (k > 0 && Linked(reg, k - 1))
  }

  lemma OnlyNeededAfter(keys: set<nat>, reg: Parts, i: nat, p: Part, keys': set<nat>)
    requires OnlyNeeded(keys, reg) && i !in reg
    requires keys' == keys + if p.last then {i} else {i, i + 1}
    ensures OnlyNeeded(keys', reg[i := p])
  {
  }

  lemma CutAll(forest: Forest, root: map<nat, nat>, bound: nat, reg: Parts, c: nat)
    requires Represents(forest, root, bound, reg) && !Linked(reg, c)
    ensures Represents(Above(forest, c), Above(root, c), bound, Above(reg, c))
    ensures OnlyNeeded(forest.Keys, reg) ==> OnlyNeeded(Above(forest, c).Keys, Above(reg, c))
  {
    RemoveUpTo(forest, root, bound, reg, c);
    if OnlyNeeded(forest.Keys, reg) {
      forall k | k in Above(forest, c).Keys
        ensures k in Above(reg, c) || (k > 0 && Linked(Above(reg, c), k - 1))
      {
        assert k in forest.Keys;
      }
    }
  }

  // The nodes on the way up from i all point at top, the others where they did.
  ghost predicate Flattened(forest: Forest, forest': Forest, path: set<nat>, i: nat, top: nat) {
    && i in path
    && (forall k {:trigger forest'[k]} | k in path :: k in forest' && forest'[k].parent == top)
    && (forall k {:trigger forest[k]} | k in path && k in forest :: forest[k].parent in path)
    && (forall k {:trigger forest'[k]} | k in forest && k !in path :: k in forest' && forest'[k] == forest[k])
  }

  lemma FlattenRoot(forest: Forest, i: nat)
    ensures i in forest && forest[i].parent == i ==> Flattened(forest, forest, {i}, i, i)
    ensures i !in forest ==> Flattened(forest, forest[i := NewSet(i)], {i}, i, i)
  {
  }

  lemma FlattenOne(forest: Forest, forest1: Forest, path: set<nat>, i: nat, top: nat)
    requires i in forest && i in forest1 && Flattened(forest, forest1, path, forest[i].parent, top)
    ensures Flattened(forest, forest1[i := forest1[i].(parent := top)], path + {i}, i, top)
  {
  }

  // What GetMessageData promises about the registered part x.
  ghost predicate ReportedSet(reg: Parts, x: nat, complete: bool, largest: nat, total: nat) {
    && x <= largest && Joined(reg, x, largest)
    && (forall k | x <= k <= largest :: k in reg)
    && (reg[largest].last || largest + 1 !in reg)
    && (ConsistentFlags(reg) ==>
          && (complete <==> exists lo: nat, hi: nat :: WholeGroup(reg, lo, x, hi))
          && (forall lo: nat, hi: nat | WholeGroup(reg, lo, x, hi) ::
                largest == hi && total == SizeSum(reg, lo, hi + 1)))
  }

  // ----- the class

  class DisjointMessageSets {
    var forest: Forest
    ghost var root: map<nat, nat>
    ghost var bound: nat
    ghost var reg: Parts

    ghost predicate Valid()
      reads this
    {
      Represents(forest, root, bound, reg)
    }

    constructor ()
      ensures Valid() && Tight() && reg == map[] && forest == map[]
    {
      forest, root, bound, reg := map[], map[], 0, map[];
    }

    // Returns the key of the root of the set of i; every node on the way is
    // pointed straight at the root, and no other node is touched.
    method Find(i: nat, createIfMissing: bool) returns (r: Option<nat>, ghost path: set<nat>)
      requires Valid()
      modifies this
      ensures Valid() && reg == old(reg) && bound == old(bound)
      ensures r.Some? <==> i in old(forest) || createIfMissing
      ensures r.Some? ==> i in forest && r.value == root[i] && r.value in forest && forest[r.value].parent == r.value
      ensures i in old(forest) || !createIfMissing ==> root == old(root) && forest.Keys == old(forest.Keys)
      ensures i !in old(forest) && createIfMissing ==>
        root == old(root)[i := i] && forest == old(forest)[i := NewSet(i)]
      ensures forall k | k in old(forest) :: k in forest && forest[k] == old(forest)[k].(parent := forest[k].parent)
      ensures r.Some? ==> Flattened(old(forest), forest, path, i, r.value)
      decreases if i in forest then bound - forest[i].rank else 0
    {
      hide Flattened;
      if i !in forest {
        if !createIfMissing {
          return None, {};
        }
        AddSingleton(forest, root, bound, reg, i);
        forest, root := forest[i := NewSet(i)], root[i := i];
      }
      assert NodeOk(forest, root, bound, i);
      var parent := forest[i].parent;
      if parent == i {
        FlattenRoot(old(forest), i);
        return Some(i), {i};
      }
      assert NodeOk(forest, root, bound, parent);
      assert NodeOk(forest, root, bound, root[i]);
      r, path := Find(parent, true);
      FlattenOne(old(forest), forest, path, i, r.value);
      Compress(forest, root, bound, reg, i);
      forest, path := forest[i := forest[i].(parent := r.value)], path + {i};
    }

    // No node is kept for a number that is neither registered nor linked to.
    ghost predicate Tight()
      reads this
    {
      OnlyNeeded(forest.Keys, reg)
    }

    // Returns the key of the new root. The ghost results are the forest and
    // its roots after both look-ups, which is where the union starts from.
    method Merge(i: nat, j: nat) returns (top: nat, ghost forest1: Forest, ghost root1: map<nat, nat>)
      requires Valid()
      modifies this
      ensures reg == old(reg)
      ensures Represents(forest1, root1, old(bound), reg)
      ensures forest1.Keys == old(forest.Keys) + {i, j} && root1[i] in forest1 && root1[j] in forest1
      ensures if root1[i] != root1[j]
              then (forest, top) == Union(forest1, root1[i], root1[j])
                   && root == Merged(root1, root1[i], root1[j], top) && bound == old(bound) + 1
              else forest == forest1 && root == root1 && bound == old(bound) && top == root1[i]
    {
      hide Runs, Summaries, Union, Merged, NodeOk, Flattened;
      var foundI, _ := Find(i, true);
      var foundJ, _ := Find(j, true);
      forest1, root1 := forest, root;
      var rootI, rootJ := foundI.value, foundJ.value;
      assert rootI == root[i] && rootJ == root[j];
      if rootI != rootJ {
        var (merged, newRoot) := Union(forest, rootI, rootJ);
        forest, top := merged, newRoot;
        root, bound := Merged(root, rootI, rootJ, newRoot), bound + 1;
      } else {
        top := rootI;
      }
    }

    // Registers one part. The caller calls it once per part.
    method GotMessage(i: nat, first: bool, last: bool, size: nat)
      requires Valid() && i !in reg && i < SN_MAX
      modifies this
      ensures Valid() && (old(Tight()) ==> Tight())
      ensures reg == if first && last then old(reg) else old(reg)[i := Part(first, last, size)]
    {
      if first && last {
        return;
      }
      ghost var p := Part(first, last, size);
      if old(Tight()) {
        OnlyNeededAfter(forest.Keys, reg, i, p, forest.Keys + if last then {i} else {i, i + 1});
      }
      var top := RootFor(i, last, p);
      forest := forest[top := Record(forest[top], i, Part(first, last, size))];
      reg := reg[i := p];
    }

    // The set that part i belongs to: its own, merged with the next number's
    // unless the part is the last of its message.
    method RootFor(i: nat, last: bool, ghost p: Part) returns (top: nat)
      requires Valid() && i !in reg && i < SN_MAX && p.last == last
      modifies this
      ensures reg == old(reg)
      ensures top in forest && forest.Keys == old(forest.Keys) + if last then {i} else {i, i + 1}
      ensures Represents(forest[top := Record(forest[top], i, p)], root, bound, reg[i := p])
    {
      hide Linked, Joined, Runs, Summaries, IsCombined, Merged, NodeOk, Flattened;
      if last {
        var found, _ := Find(i, true);
        top := found.value;
        RecordLast(forest, root, bound, reg, i, p);
      } else {
        ghost var forest1, root1;
        ghost var bound1 := bound;
        top, forest1, root1 := Merge(i, i + 1);
        RecordMiddle(forest1, root1, bound1, reg, i, p);
        UnionCombines(forest1, root1[i], root1[i + 1], i, p);
      }
    }

    // Whether every part of the message of part i is registered, the largest
    // number registered in its set, and the bytes of the set.
    method GetMessageData(i: nat, first: bool, last: bool, size: nat)
      returns (complete: bool, largest: nat, total: nat)
      requires Valid()
      modifies this
      ensures Valid() && reg == old(reg)
      ensures old(Tight()) && i in reg ==> Tight()
      ensures first && last ==> complete && largest == i && total == size && forest == old(forest)
      ensures !(first && last) && i in reg ==> ReportedSet(reg, i, complete, largest, total)
    {
      hide Linked, Runs, Summaries, NodeOk, Flattened, ConsistentFlags;
      if first && last {
        return true, i, size;
      }
      var found, _ := Find(i, true);
      var n := forest[found.value];
      complete, largest, total := n.hasFirst && n.hasLast, n.lastMessage, n.size;
      if i in reg {
        SummaryReach(forest, root, bound, reg, i);
        if ConsistentFlags(reg) {
          CompleteIffWholeGroup(forest, root, bound, reg, i);
        }
      }
    }

    // Forgets the message of part i and everything older. The requirement is
    // the one the code asserts: a set that is present is complete.
    method RemoveMessageAndOlderMessages(i: nat)
      requires Valid()
      requires i in forest ==> forest[RootOf(i)].hasFirst && forest[RootOf(i)].hasLast
      modifies this
      ensures Valid() && (old(Tight()) ==> Tight())
      ensures reg == Above(old(reg), old(LastOf(i)))
    {
      hide Flattened;
      LastOfIsUnlinked(i);
      ghost var cut := LastOf(i);
      var found, _ := Find(i, false);
      var last := if found.Some? then forest[found.value].lastMessage else i;
      assert last == cut;
      CutAll(forest, root, bound, reg, last);
      forest := map k | k in forest && k > last :: forest[k];
      root, reg := Above(root, last), Above(reg, last);
    }

    // The first number registered in the set of i, or i when it has no set.
    method GetFirstSequenceNumberInSet(i: nat) returns (first: nat)
      requires Valid() && Tight()
      modifies this
      ensures Valid() && Tight() && reg == old(reg)
      ensures if i in reg || (i > 0 && Linked(reg, i - 1))
              then first <= i && first in reg && Joined(reg, first, i) && (first == 0 || !Linked(reg, first - 1))
              else first == i
    {
      hide Flattened;
      var found, _ := Find(i, false);
      if found.None? {
        return i;
      }
      assert i in forest.Keys;
      FirstOfSet(forest, root, bound, reg, i);
      first := forest[found.value].firstMessage;
    }

    ghost function RootOf(i: nat): (r: nat)
      requires Valid() && i in forest
      reads this
      ensures r in forest && r == root[i]
    {
      assert NodeOk(forest, root, bound, i);
      root[i]
    }

    // Where RemoveMessageAndOlderMessages cuts.
    ghost function LastOf(i: nat): nat
      requires Valid()
      reads this
    {
      if i in forest then forest[RootOf(i)].lastMessage else i
    }

    lemma LastOfIsUnlinked(i: nat)
      requires Valid()
      requires i in forest ==> forest[RootOf(i)].hasFirst && forest[RootOf(i)].hasLast
      ensures !Linked(reg, LastOf(i))
      ensures i in reg ==>
        forall lo: nat, hi: nat | WholeGroup(reg, lo, i, hi) && ConsistentFlags(reg) :: LastOf(i) == hi
    {
      if i in forest {
        var r := root[i];
        assert NodeOk(forest, root, bound, i);
        assert Summary(forest[r], root, reg, r);
        var b := forest[r].lastMessage;
        SummaryReach(forest, root, bound, reg, b);
        if i in reg && ConsistentFlags(reg) {
          CompleteIffWholeGroup(forest, root, bound, reg, i);
        }
      }
    }

    // Cutting at the last number of a whole message, or at a number that no
    // set contains, is allowed and cuts exactly there.
    lemma CutAtGroupEnd(i: nat, lo: nat)
      requires Valid() && Tight() && ConsistentFlags(reg)
      requires if i in reg then WholeGroup(reg, lo, i, i) else i == 0 || !Linked(reg, i - 1)
      ensures i in forest ==> forest[RootOf(i)].hasFirst && forest[RootOf(i)].hasLast
      ensures LastOf(i) == i
    {
      assert i in forest.Keys <==> i in reg;
      if i in reg {
        CompleteIffWholeGroup(forest, root, bound, reg, i);
      }
    }
  }
}
