/** The send queue of EmiSendQueue.h: the weighted priority iterator over its
    four queues, and the counter of bytes sent in the last ticks. */
module SendQueue {
  import opened NetUtil
  import SB = SenderBuffer

  type Msg = SB.Msg
  type Queues = seq<seq<Msg>>

  const NUM: nat := 4                 // EMI_NUMBER_OF_PRIORITIES

  predicate Shape(q: Queues, idx: seq<nat>) {
    |q| == NUM && |idx| == NUM && forall i | 0 <= i < NUM :: idx[i] <= |q[i]|
  }

  predicate Exhausted(q: Queues, idx: seq<nat>, i: nat)
    requires Shape(q, idx) && i < NUM
  {
    idx[i] == |q[i]|
  }

  // More than twice as many were sent of priority i as of the next one.
  predicate Ahead(idx: seq<nat>, i: nat)
    requires |idx| == NUM && i < NUM
  {
    i < NUM - 1 && idx[i] > idx[i + 1] * 2 + 1
  }

  predicate Ready(q: Queues, idx: seq<nat>, i: nat)
    requires Shape(q, idx) && i < NUM
  {
    !Exhausted(q, idx, i) && !Ahead(idx, i)
  }

  // Which priority is next: p is the first ready one; if none is ready, the
  // lowest one that has anything left; NUM if nothing is left.
  predicate IsNext(q: Queues, idx: seq<nat>, p: nat)
    requires Shape(q, idx)
  {
    if p >= NUM then p == NUM && forall i | 0 <= i < NUM :: Exhausted(q, idx, i)
    else if Ready(q, idx, p) then forall i | 0 <= i < p :: !Ready(q, idx, i)
    else
      && !Exhausted(q, idx, p)
      && (forall i | 0 <= i < NUM :: !Ready(q, idx, i))
      && (forall i | p < i < NUM :: Exhausted(q, idx, i))
  }

  lemma NextIsUnique(q: Queues, idx: seq<nat>, p: nat, p': nat)
    requires Shape(q, idx) && IsNext(q, idx, p) && IsNext(q, idx, p')
    ensures p == p'
  {
  }

  // The weights: between neighbouring priorities the number served is at most
  // two to one, plus two, as long as anything lower is left, and at least two
  // to one as long as the higher one has anything left.
  predicate Fair(q: Queues, idx: seq<nat>)
    requires Shape(q, idx)
  {
    forall i {:trigger idx[i]} | 0 <= i < NUM - 1 ::
      && (idx[i] <= 2 * idx[i + 1] + 2 || forall j | i < j < NUM :: Exhausted(q, idx, j))
      && (2 * idx[i + 1] <= idx[i] || Exhausted(q, idx, i))
  }

  lemma StepKeepsFair(q: Queues, idx: seq<nat>, p: nat)
    requires Shape(q, idx) && Fair(q, idx) && p < NUM && IsNext(q, idx, p)
    ensures Shape(q, idx[p := idx[p] + 1]) && Fair(q, idx[p := idx[p] + 1])
  {
    var idx' := idx[p := idx[p] + 1];
    forall i {:trigger idx'[i]} | 0 <= i < NUM - 1
      ensures idx'[i] <= 2 * idx'[i + 1] + 2 || forall j | i < j < NUM :: Exhausted(q, idx', j)
      ensures 2 * idx'[i + 1] <= idx'[i] || Exhausted(q, idx', i)
    {
      assert idx[i] <= 2 * idx[i + 1] + 2 || forall j | i < j < NUM :: Exhausted(q, idx, j);
      assert !Ready(q, idx, i) || i == p || p < i;
      assert forall j | i < j < NUM && j != p :: Exhausted(q, idx', j) <==> Exhausted(q, idx, j);
    }
  }

  // ----- the order in which messages are served

  // What was served of one priority, in order.
  ghost function OfPriority(visited: seq<(nat, Msg)>, p: nat): seq<Msg> {
    if visited == [] then []
    else
      var v := visited[|visited| - 1];
      OfPriority(visited[..|visited| - 1], p) + if v.0 == p then [v.1] else []
  }

  ghost function Count(visited: seq<(nat, Msg)>, p: nat): nat {
    |OfPriority(visited, p)|
  }

  ghost predicate AllServed(q: Queues, visited: seq<(nat, Msg)>, p: nat)
    requires |q| == NUM && p < NUM
  {
    Count(visited, p) >= |q[p]|
  }

  // v is the oldest message of its priority that has not been served; every higher
  // priority that has anything left has had exactly its share, two for every message
  // of the next one and two more; and its own priority has not, unless it is the
  // last one with anything left.
  ghost predicate InTurn(q: Queues, visited: seq<(nat, Msg)>, v: (nat, Msg))
    requires |q| == NUM
  {
    && v.0 < NUM && !AllServed(q, visited, v.0) && v.1 == q[v.0][Count(visited, v.0)]
    && (forall i | 0 <= i < v.0 :: AllServed(q, visited, i) || Count(visited, i) == 2 * Count(visited, i + 1) + 2)
    && (|| Count(visited, v.0) <= 2 * Count(visited, v.0 + 1) + 1
        || forall i | v.0 < i < NUM :: AllServed(q, visited, i))
  }

  ghost predicate AllInTurn(q: Queues, visited: seq<(nat, Msg)>)
    requires |q| == NUM
  {
    forall n | 0 <= n < |visited| :: InTurn(q, visited[..n], visited[n])
  }

  lemma TurnIsUnique(q: Queues, visited: seq<(nat, Msg)>, v: (nat, Msg), v': (nat, Msg))
    requires |q| == NUM && InTurn(q, visited, v) && InTurn(q, visited, v')
    ensures v == v'
  {
    hide Count;
    assert v.0 == v'.0;
  }

  // There is only one such order.
  lemma {:induction false} OneOrder(q: Queues, visited: seq<(nat, Msg)>, visited': seq<(nat, Msg)>)
    requires |q| == NUM && AllInTurn(q, visited) && AllInTurn(q, visited') && |visited| <= |visited'|
    ensures visited <= visited'
  {
    hide InTurn;
    if visited != [] {
      var n := |visited| - 1;
      AllInTurnPrefix(q, visited, n);
      OneOrder(q, visited[..n], visited');
      assert visited'[..n] == visited[..n];
      TurnIsUnique(q, visited[..n], visited[n], visited'[n]);
    }
  }

  lemma AllInTurnPrefix(q: Queues, visited: seq<(nat, Msg)>, n: nat)
    requires |q| == NUM && AllInTurn(q, visited) && n <= |visited|
    ensures AllInTurn(q, visited[..n])
  {
    forall k | 0 <= k < n
      ensures InTurn(q, visited[..n][..k], visited[..n][k])
    {
      assert visited[..n][..k] == visited[..k];
    }
  }

  lemma InTurnToo(q: Queues, visited: seq<(nat, Msg)>, v: (nat, Msg))
    requires |q| == NUM && AllInTurn(q, visited) && InTurn(q, visited, v)
    ensures AllInTurn(q, visited + [v])
  {
    hide InTurn;
    var visited' := visited + [v];
    forall n | 0 <= n < |visited'|
      ensures InTurn(q, visited'[..n], visited'[n])
    {
      assert visited'[..n] == visited[..n];
      assert visited[..|visited|] == visited;
    }
  }

  lemma ServedToo(visited: seq<(nat, Msg)>, v: (nat, Msg))
    ensures forall k :: OfPriority(visited + [v], k) == OfPriority(visited, k) + if k == v.0 then [v.1] else []
  {
    assert (visited + [v])[..|visited|] == visited;
  }

  // The rule of the iterator keeps to it.
  lemma NextIsInTurn(q: Queues, idx: seq<nat>, visited: seq<(nat, Msg)>, p: nat)
    requires Shape(q, idx) && Fair(q, idx) && p < NUM && IsNext(q, idx, p)
    requires forall k | 0 <= k < NUM :: Count(visited, k) == idx[k]
    ensures InTurn(q, visited, (p, q[p][idx[p]]))
  {
    hide OfPriority, Count;
    forall i | 0 <= i < p
      ensures AllServed(q, visited, i) || Count(visited, i) == 2 * Count(visited, i + 1) + 2
    {
      assert !Ready(q, idx, i) && !Exhausted(q, idx, p);
    }
    assert forall i | 0 <= i < NUM && Exhausted(q, idx, i) :: AllServed(q, visited, i);
  }

  function Left(q: Queues, idx: seq<nat>): nat
    requires Shape(q, idx)
  {
    (|q[0]| - idx[0]) + (|q[1]| - idx[1]) + (|q[2]| - idx[2]) + (|q[3]| - idx[3])
  }

  // ----- the iterator

  class Iterator {
    const queues: Queues
    var prioIndices: seq<nat>
    ghost var visited: seq<(nat, Msg)>     // what was served so far, with priorities

    // Of each priority, exactly the first messages have been served, in order,
    // and each in its turn.
    ghost predicate Valid()
      reads this
    {
      && Shape(queues, prioIndices)
      && Fair(queues, prioIndices)
      && AllInTurn(queues, visited)
      && (forall p | 0 <= p < NUM :: OfPriority(visited, p) == queues[p][..prioIndices[p]])
    }

    constructor (queues: Queues)
      requires |queues| == NUM
      ensures Valid() && this.queues == queues && prioIndices == [0, 0, 0, 0] && visited == []
    {
      this.queues := queues;
      prioIndices, visited := [0, 0, 0, 0], [];
    }

    method CurrentPriority() returns (p: nat)
      requires Shape(queues, prioIndices)
      ensures IsNext(queues, prioIndices, p)
    {
      var possibleResult: nat := NUM;
      for i := 0 to NUM
        invariant forall k | 0 <= k < i :: !Ready(queues, prioIndices, k)
        invariant possibleResult == NUM || possibleResult < i
        invariant possibleResult < NUM ==> !Exhausted(queues, prioIndices, possibleResult)
        invariant forall k | 0 <= k < i && (possibleResult == NUM || possibleResult < k) ::
          Exhausted(queues, prioIndices, k)
      {
        if prioIndices[i] >= |queues[i]| {
          continue;
        }
        if i < NUM - 1 && prioIndices[i] > prioIndices[i + 1] * 2 + 1 {
          possibleResult := i;
          continue;
        }
        return i;
      }
      return possibleResult;
    }

    method IsAtEnd() returns (end: bool)
      requires Shape(queues, prioIndices)
      ensures end <==> forall i | 0 <= i < NUM :: Exhausted(queues, prioIndices, i)
    {
      var p := CurrentPriority();
      end := p == NUM;
    }

    // operator* followed by operator++.
    method Next() returns (msg: Msg, ghost p: nat)
      requires Valid() && exists i :: 0 <= i < NUM && !Exhausted(queues, prioIndices, i)
      modifies this
      ensures Valid()
      ensures old(IsNext(queues, prioIndices, p)) && p < NUM
      ensures msg == queues[p][old(prioIndices)[p]]
      ensures prioIndices == old(prioIndices)[p := old(prioIndices)[p] + 1]
      ensures visited == old(visited) + [(p, msg)]
      ensures Left(queues, prioIndices) == old(Left(queues, prioIndices)) - 1
    {
      hide Fair, Ahead, InTurn, AllInTurn, OfPriority;
      var cp := CurrentPriority();
      p := cp;
      msg := queues[cp][prioIndices[cp]];
      StepKeepsFair(queues, prioIndices, cp);
      NextIsInTurn(queues, prioIndices, visited, cp);
      InTurnToo(queues, visited, (cp, msg));
      ServedToo(visited, (cp, msg));
      assert queues[cp][..prioIndices[cp] + 1] == queues[cp][..prioIndices[cp]] + [msg];
      visited := visited + [(cp, msg)];
      prioIndices := prioIndices[cp := prioIndices[cp] + 1];
    }
  }

  // A full iteration serves every queued message exactly once, in order within
  // each priority and each in its turn, and stops exactly when all queues are
  // exhausted. With OneOrder, the order is the only one of this kind.
  method IterateAll(queues: Queues) returns (iter: Iterator)
    requires |queues| == NUM
    ensures iter.Valid() && iter.queues == queues
    ensures forall p | 0 <= p < NUM :: OfPriority(iter.visited, p) == queues[p]
    ensures AllInTurn(queues, iter.visited)
    ensures |iter.visited| == |queues[0]| + |queues[1]| + |queues[2]| + |queues[3]|
  {
    iter := new Iterator(queues);
    var end := iter.IsAtEnd();
    while !end
      invariant fresh(iter) && iter.Valid() && iter.queues == queues
      invariant end <==> forall i | 0 <= i < NUM :: Exhausted(queues, iter.prioIndices, i)
      invariant |iter.visited| + Left(queues, iter.prioIndices) == |queues[0]| + |queues[1]| + |queues[2]| + |queues[3]|
      decreases Left(queues, iter.prioIndices)
    {
      var msg, p := iter.Next();
      end := iter.IsAtEnd();
    }
    forall p | 0 <= p < NUM
      ensures OfPriority(iter.visited, p) == queues[p]
    {
      assert Exhausted(queues, iter.prioIndices, p);
      assert queues[p][..|queues[p]|] == queues[p];
    }
    assert forall i | 0 <= i < NUM :: Exhausted(queues, iter.prioIndices, i);
    assert Exhausted(queues, iter.prioIndices, 0) && Exhausted(queues, iter.prioIndices, 1)
        && Exhausted(queues, iter.prioIndices, 2) && Exhausted(queues, iter.prioIndices, 3);
  }

  // ----- the queue

  function QueueBytes(q: Queues): nat
    requires |q| == NUM
  {
    SB.Bytes(q[0]) + SB.Bytes(q[1]) + SB.Bytes(q[2]) + SB.Bytes(q[3])
  }

  lemma {:induction false} BytesConcat(s: seq<Msg>, t: seq<Msg>)
    ensures SB.Bytes(s + t) == SB.Bytes(s) + SB.Bytes(t)
  {
    if s == [] {
      assert s + t == t;
    } else {
      BytesConcat(s[1..], t);
      assert (s + t)[1..] == s[1..] + t;
    }
  }

  lemma QueueBytesUpdate(q: Queues, i: nat, s: seq<Msg>)
    requires |q| == NUM && i < NUM
    ensures QueueBytes(q[i := s]) == QueueBytes(q) - SB.Bytes(q[i]) + SB.Bytes(s)
    ensures SB.Bytes(q[i]) <= QueueBytes(q)
  {
    hide SB.Bytes;
  }

  class SendQueue {
    var queues: Queues
    var queueSize: nat

    ghost predicate Valid()
      reads this
    {
      |queues| == NUM && queueSize == QueueBytes(queues)
    }

    constructor ()
      ensures Valid() && queues == [[], [], [], []]
    {
      queues, queueSize := [[], [], [], []], 0;
    }

    method Push(msg: Msg, priority: nat)
      requires Valid() && priority < NUM
      modifies this
      ensures Valid()
      ensures queues == old(queues)[priority := old(queues)[priority] + [msg]]
    {
      hide QueueBytes;
      BytesConcat(queues[priority], [msg]);
      QueueBytesUpdate(queues, priority, queues[priority] + [msg]);
      queues := queues[priority := queues[priority] + [msg]];
      queueSize := queueSize + SB.MsgSize(msg);
    }

    // Only the byte count is looked at.
    method Empty() returns (empty: bool)
      requires Valid()
      ensures empty <==> forall p | 0 <= p < NUM :: queues[p] == []
    {
      empty := queueSize == 0;
    }

    method ReleaseFirst(queue: seq<Msg>, n: nat)
      requires n <= |queue| && queueSize >= SB.Bytes(queue[..n])
      modifies this`queueSize
      ensures queueSize == old(queueSize) - SB.Bytes(queue[..n])
    {
      ghost var size0 := queueSize;
      assert queue[..0] == [];
      for j := 0 to n
        invariant queueSize + SB.Bytes(queue[..j]) == size0
      {
        assert queue[..j + 1] == queue[..j] + [queue[j]];
        BytesConcat(queue[..j], [queue[j]]);
        assert queue[..n] == queue[..j + 1] + queue[j + 1..n];
        BytesConcat(queue[..j + 1], queue[j + 1..n]);
        queueSize := queueSize - SB.MsgSize(queue[j]);
      }
    }

    // Removes exactly what the iterator has served.
    method EraseUntil(iter: Iterator)
      requires Valid() && iter.Valid() && iter.queues == queues
      modifies this
      ensures Valid()
      ensures |queues| == NUM
      ensures forall p | 0 <= p < NUM :: old(queues)[p] == OfPriority(iter.visited, p) + queues[p]
    {
      hide QueueBytes, SB.Bytes, OfPriority, Fair;
      ghost var q := queues;
      for i := 0 to NUM
        invariant |queues| == NUM && queueSize == QueueBytes(queues)
        invariant forall p | 0 <= p < i :: queues[p] == q[p][iter.prioIndices[p]..]
        invariant forall p | i <= p < NUM :: queues[p] == q[p]
      {
        var queue := queues[i];
        var n := iter.prioIndices[i];
        assert queue == queue[..n] + queue[n..];
        BytesConcat(queue[..n], queue[n..]);
        QueueBytesUpdate(queues, i, queue[n..]);
        ReleaseFirst(queue, n);
        queues := queues[i := queue[n..]];
      }
      forall p | 0 <= p < NUM
        ensures q[p] == OfPriority(iter.visited, p) + queues[p]
      {
        assert q[p] == q[p][..iter.prioIndices[p]] + q[p][iter.prioIndices[p]..];
      }
    }
  }

  // ----- pending acknowledgements

  // What enqueueAck keeps for a channel after a series of acknowledgements.
  function Pending(acks: seq<Seq24>): Seq24
    requires acks != []
  {
    if |acks| == 1 then acks[0]
    else CyclicMax(Pending(acks[..|acks| - 1]), acks[|acks| - 1])
  }

  // It is always one that was enqueued, so it is as true as they are; and if
  // they span at most half the range, it is the newest of them, whatever their order.
  lemma {:induction false} PendingIsNewest(acks: seq<Seq24>)
    requires acks != []
    ensures Pending(acks) in acks
    ensures (forall i, j | 0 <= i < |acks| && 0 <= j < |acks| :: acks[i] - acks[j] <= HALF) ==>
      forall i | 0 <= i < |acks| :: acks[i] <= Pending(acks)
  {
    if |acks| > 1 {
      var front, last := acks[..|acks| - 1], acks[|acks| - 1];
      PendingIsNewest(front);
      assert Pending(acks) == last || Pending(acks) in front;
      CyclicMaxIsMax(Pending(front), last);
      var i :| 0 <= i < |front| && front[i] == Pending(front);
      assert acks[i] == Pending(front);
      assert forall k | 0 <= k < |front| :: front[k] == acks[k];
    }
  }

  // ----- bytes sent in the last ticks

  // The total of the last n entries of the history.
  ghost function SumLast(history: seq<nat>, n: nat): nat
    decreases n
  {
    if n == 0 || history == [] then 0
    else history[|history| - 1] + SumLast(history[..|history| - 1], n - 1)
  }

  class BytesSentTheLastNTicks {
    const buf: array<nat>
    var idx: nat
    var sum: nat
    ghost var history: seq<nat>       // bytes of every tick so far, the current one last

    // Where the bytes of k ticks ago are kept.
    ghost function Slot(k: nat): int
      reads this
    {
      if k <= idx then idx - k else idx - k + buf.Length
    }

    ghost function TicksAgo(k: nat): nat
      reads this
    {
      if k < |history| then history[|history| - 1 - k] else 0
    }

    ghost predicate Valid()
      reads this, buf
    {
      && idx < buf.Length && history != []
      && (forall k | 0 <= k < buf.Length :: buf[Slot(k)] == TicksAgo(k))
      && sum == SumLast(history, buf.Length)
    }

    constructor (num: nat)
      requires num > 0
      ensures Valid() && history == [0] && buf.Length == num && fresh(buf)
    {
      buf := new nat[num](_ => 0);
      idx, sum, history := 0, 0, [0];
      new;
      forall k | 0 <= k < num
        ensures buf[Slot(k)] == TicksAgo(k)
      {
        assert 0 <= Slot(k) < num && buf[Slot(k)] == 0;
      }
      assert SumLast([], num - 1) == 0 && history[..0] == [];
    }

    method SendData(size: nat)
      requires Valid()
      modifies this, buf
      ensures Valid()
      ensures history == old(history)[..|old(history)| - 1] + [old(history)[|old(history)| - 1] + size]
    {
      assert Slot(0) == idx;
      sum := sum + size;
      buf[idx] := buf[idx] + size;
      ghost var front := history[..|history| - 1];
      history := front + [history[|history| - 1] + size];
      assert history[..|history| - 1] == front;
      forall k | 0 <= k < buf.Length
        ensures buf[Slot(k)] == TicksAgo(k)
      {
        assert old(buf[Slot(k)]) == old(TicksAgo(k));
        assert k > 0 ==> Slot(k) != idx;
      }
    }

    // Exactly the bytes of the current tick and the buf.Length - 1 before it.
    method BytesSent() returns (bytes: nat)
      requires Valid()
      ensures bytes == SumLast(history, buf.Length)
    {
      bytes := sum;
    }

    method BytesSentSinceLastTick() returns (bytes: nat)
      requires Valid()
      ensures bytes == history[|history| - 1]
    {
      assert Slot(0) == idx && TicksAgo(0) == history[|history| - 1];
      bytes := buf[idx];
    }

    method Tick()
      requires Valid()
      modifies this, buf
      ensures Valid() && history == old(history) + [0]
    {
      ghost var h, n := history, buf.Length;
      var next := (idx + 1) % buf.Length;
      assert Slot(n - 1) == next;
      DropOldest(h, n);
      assert buf[next] == TicksAgo(n - 1);
      idx := next;
      sum := sum - buf[idx];
      buf[idx] := 0;
      history := history + [0];
      assert history[..|history| - 1] == h;
      forall k | 0 <= k < n
        ensures buf[Slot(k)] == TicksAgo(k)
      {
        if k > 0 {
          assert Slot(k) == old(Slot(k - 1));
          assert old(buf[Slot(k - 1)]) == old(TicksAgo(k - 1));
        }
      }
    }
  }

  lemma {:induction false} DropOldest(h: seq<nat>, n: nat)
    requires n > 0
    ensures SumLast(h, n) == SumLast(h, n - 1) + if n - 1 < |h| then h[|h| - n] else 0
    decreases n
  {
    if n > 1 && h != [] {
      DropOldest(h[..|h| - 1], n - 1);
    }
  }
}
