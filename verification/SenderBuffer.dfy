/** The sender buffer of EmiSenderBuffer.h: the unacknowledged reliable
    messages in one tree ordered by channel and number, and the messages to
    retransmit in another ordered by registration time. */
module SenderBuffer {
  import opened Options
  import opened Streams

  // What a message is for: a data part, or one of the control messages.
  datatype Kind = DataPart(first: bool, last: bool) | Syn | SynRst | PrxAck | Rst

  datatype Msg = Msg(channel: int, sn: nat, kind: Kind, data: Data)

  datatype Key = Key(channel: int, sn: nat)

  type Times = map<Key, real>

  // EMI_MESSAGE_HEADER_MIN_LENGTH + 3 + 3
  const MAXIMAL_HEADER_SIZE: nat := 10

  function KeyOf(m: Msg): Key { Key(m.channel, m.sn) }

  function MsgSize(m: Msg): nat { |m.data| + MAXIMAL_HEADER_SIZE }

  // ----- ordered sequences stand for std::set

  ghost predicate Ordered(s: seq<Msg>, lt: (Msg, Msg) -> bool) {
    forall i, j | 0 <= i < j < |s| :: lt(s[i], s[j])
  }

  function Insert(s: seq<Msg>, x: Msg, lt: (Msg, Msg) -> bool): (r: seq<Msg>)
    ensures |r| == |s| + 1
    ensures forall y :: y in r <==> y == x || y in s
  {
    if s == [] then [x]
    else if lt(x, s[0]) then [x] + s
    else
      var r := Insert(s[1..], x, lt);
      assert forall y :: y in s <==> y == s[0] || y in s[1..];
      [s[0]] + r
  }

  lemma {:induction false} InsertOrdered(s: seq<Msg>, x: Msg, lt: (Msg, Msg) -> bool)
    requires Ordered(s, lt)
    requires forall y | y in s :: lt(x, y) || lt(y, x)
    requires forall y, z | y in s && z in s :: lt(x, y) && lt(y, z) ==> lt(x, z)
    ensures Ordered(Insert(s, x, lt), lt)
  {
    if s != [] && !lt(x, s[0]) {
      InsertOrdered(s[1..], x, lt);
      var r := Insert(s[1..], x, lt);
      forall y | y in r
        ensures lt(s[0], y)
      {
        if y != x {
          var k :| 0 <= k < |s[1..]| && s[1..][k] == y;
          assert s[k + 1] == y;
        }
      }
    } else if s != [] {
      assert forall k | 0 <= k < |s| :: s[k] in s;
    }
  }

  function Erase(s: seq<Msg>, x: Msg): (r: seq<Msg>)
    ensures forall y :: y in r <==> y in s && y != x
  {
    if s == [] then []
    else
      assert forall y :: y in s <==> y == s[0] || y in s[1..];
      if s[0] == x then Erase(s[1..], x) else [s[0]] + Erase(s[1..], x)
  }

  lemma {:induction false} EraseOrdered(s: seq<Msg>, x: Msg, lt: (Msg, Msg) -> bool)
    requires Ordered(s, lt)
    ensures Ordered(Erase(s, x), lt)
  {
    if s != [] {
      EraseOrdered(s[1..], x, lt);
      var r := Erase(s[1..], x);
      forall y | y in r
        ensures lt(s[0], y)
      {
        var k :| 0 <= k < |s[1..]| && s[1..][k] == y;
        assert s[k + 1] == y;
      }
    }
  }

  // ----- the two orders

  predicate LessKey(a: Msg, b: Msg) {
    a.channel < b.channel || (a.channel == b.channel && a.sn < b.sn)
  }

  function TimeOf(times: Times, m: Msg): real {
    if KeyOf(m) in times then times[KeyOf(m)] else 0.0
  }

  predicate LessTime(times: Times, a: Msg, b: Msg) {
    TimeOf(times, a) < TimeOf(times, b) || (TimeOf(times, a) == TimeOf(times, b) && LessKey(a, b))
  }

  function ByTime(times: Times): (Msg, Msg) -> bool {
    (a, b) => LessTime(times, a, b)
  }

  function LowerBound(s: seq<Msg>, channel: int, sn: nat): (i: nat)
    ensures i <= |s|
    ensures forall k | 0 <= k < i :: s[k].channel < channel || (s[k].channel == channel && s[k].sn < sn)
    ensures i < |s| ==> !(s[i].channel < channel || (s[i].channel == channel && s[i].sn < sn))
  {
    if s != [] && (s[0].channel < channel || (s[0].channel == channel && s[0].sn < sn))
    then 1 + LowerBound(s[1..], channel, sn)
    else 0
  }

  function Bytes(s: seq<Msg>): nat {
    if s == [] then 0 else MsgSize(s[0]) + Bytes(s[1..])
  }

  lemma {:induction false} BytesInsert(s: seq<Msg>, x: Msg, lt: (Msg, Msg) -> bool)
    ensures Bytes(Insert(s, x, lt)) == Bytes(s) + MsgSize(x)
  {
    if s != [] && !lt(x, s[0]) {
      BytesInsert(s[1..], x, lt);
      assert Insert(s, x, lt)[1..] == Insert(s[1..], x, lt);
    } else {
      assert Insert(s, x, lt)[1..] == s;
    }
  }

  lemma {:induction false} EraseAbsent(s: seq<Msg>, x: Msg)
    requires x !in s
    ensures Erase(s, x) == s
  {
    if s != [] {
      EraseAbsent(s[1..], x);
    }
  }

  lemma {:induction false} BytesErase(s: seq<Msg>, x: Msg)
    requires Ordered(s, LessKey) && x in s
    ensures Bytes(Erase(s, x)) == Bytes(s) - MsgSize(x)
  {
    assert Ordered(s[1..], LessKey);
    if s[0] == x {
      forall k | 0 <= k < |s[1..]|
        ensures s[1..][k] != x
      {
        assert LessKey(s[0], s[k + 1]);
      }
      EraseAbsent(s[1..], x);
    } else {
      BytesErase(s[1..], x);
      assert Erase(s, x)[1..] == Erase(s[1..], x);
    }
  }

  // ----- what the operations do to the set of unacknowledged messages

  ghost predicate HasKey(buf: set<Msg>, channel: int, sn: nat) {
    exists m :: m in buf && m.channel == channel && m.sn == sn
  }

  ghost predicate HasAtOrAbove(buf: set<Msg>, channel: int, sn: nat) {
    exists m :: m in buf && m.channel == channel && m.sn >= sn
  }

  ghost function AfterRegister(buf: set<Msg>, m: Msg): set<Msg> {
    if HasKey(buf, m.channel, m.sn) then buf else buf + {m}
  }

  // Deregistering removes the channel's messages up to sn, but only when the
  // channel still has a message numbered sn or higher.
  ghost function AfterDeregister(buf: set<Msg>, channel: int, sn: nat): (left: set<Msg>)
    ensures left <= buf
  {
    if HasAtOrAbove(buf, channel, sn)
    then set m | m in buf && !(m.channel == channel && m.sn <= sn)
    else buf
  }

  // Everything up to sn is deregistered, as documented, if and only if the
  // channel has a message at or above sn, or has none up to sn anyway.
  lemma DeregistersAsDocumented(buf: set<Msg>, channel: int, sn: nat)
    ensures AfterDeregister(buf, channel, sn) == (set m | m in buf && !(m.channel == channel && m.sn <= sn))
      <==> HasAtOrAbove(buf, channel, sn) || forall m | m in buf && m.channel == channel :: m.sn > sn
  {
    var left := set m | m in buf && !(m.channel == channel && m.sn <= sn);
    if !HasAtOrAbove(buf, channel, sn) {
      if m :| m in buf && m.channel == channel && m.sn <= sn {
        assert m in buf && m !in left;
      } else {
        assert left == buf;
      }
    }
  }

  // A message stays when only a later number is deregistered.
  lemma LaterNumberRemovesNothing(m: Msg)
    ensures AfterDeregister({m}, m.channel, m.sn + 1) == {m}
  {
  }

  // m is the channel's first message at or above sn.
  ghost predicate FirstFrom(buf: set<Msg>, channel: int, sn: nat, m: Msg) {
    && m in buf && m.channel == channel && m.sn >= sn
    && forall x | x in buf && x.channel == channel && x.sn >= sn :: m.sn <= x.sn
  }

  // m is the newest message of its channel.
  ghost predicate Newest(buf: set<Msg>, m: Msg) {
    m in buf && forall x | x in buf && x.channel == m.channel :: x.sn <= m.sn
  }

  // What the documentation says of the index: at most one message per channel.
  ghost predicate OnePerChannel(next: seq<Msg>) {
    forall x, y | x in next && y in next && x.channel == y.channel :: x == y
  }

  // Registering keeps that if and only if the message is rejected, or its
  // channel has one at or above it, or its channel has none at all.
  lemma RegisterKeepsOnePerChannel(send: seq<Msg>, next: seq<Msg>, times: Times, next': seq<Msg>, msg: Msg, ok: bool)
    requires TreesAgree(send, next, times) && OnePerChannel(next)
    requires forall m :: m in next' <==>
      m in next || (m == msg && ok && !HasAtOrAbove(ToSet(send), msg.channel, msg.sn))
    ensures OnePerChannel(next') <==>
      !ok || HasAtOrAbove(ToSet(send), msg.channel, msg.sn) || forall m | m in send :: m.channel != msg.channel
  {
    if m :| m in send && m.channel == msg.channel {
      var top := NewestOf(send, m);
      assert top in next;
    }
  }

  // A channel that has a message has a newest one.
  lemma NewestOf(send: seq<Msg>, m: Msg) returns (top: Msg)
    requires m in send
    ensures Newest(ToSet(send), top) && top.channel == m.channel
  {
    top := m;
    var i := 0;
    while i < |send|
      invariant i <= |send| && top in send && top.channel == m.channel
      invariant forall k | 0 <= k < i && send[k].channel == m.channel :: send[k].sn <= top.sn
    {
      if send[i].channel == m.channel && send[i].sn > top.sn {
        top := send[i];
      }
      i := i + 1;
    }
  }

  // Two messages sent in order on one channel are both indexed.
  lemma TwoIndexedExample()
    ensures var m1, m2 := Msg(0, 1, DataPart(true, true), [1]), Msg(0, 2, DataPart(true, true), [2]);
      var times := map[KeyOf(m1) := 0.0];
      && TreesAgree([m1], [m1], times) && OnePerChannel([m1])
      && !HasAtOrAbove(ToSet([m1]), 0, 2)
      && !OnePerChannel(Insert([m1], m2, ByTime(times[KeyOf(m2) := 0.0])))
  {
    var m1, m2 := Msg(0, 1, DataPart(true, true), [1]), Msg(0, 2, DataPart(true, true), [2]);
    var next := Insert([m1], m2, ByTime(map[KeyOf(m1) := 0.0, KeyOf(m2) := 0.0]));
    assert m1 in next && m2 in next && m1 != m2;
  }

  ghost function ToSet(s: seq<Msg>): set<Msg> {
    set m | m in s
  }

  // The two trees agree: what is up for retransmission is unacknowledged, and
  // the newest message of every channel is up for retransmission.
  ghost predicate TreesAgree(send: seq<Msg>, next: seq<Msg>, times: Times) {
    && Ordered(send, LessKey)
    && Ordered(next, ByTime(times))
    && (forall m | m in next :: m in send)
    && (forall m {:trigger Newest(ToSet(send), m)} | Newest(ToSet(send), m) :: m in next)
    && (forall m | m in send :: KeyOf(m) in times)
  }

  lemma SearchPosition(send: seq<Msg>, channel: int, sn: nat)
    requires Ordered(send, LessKey)
    ensures var i := LowerBound(send, channel, sn);
      && (HasKey(ToSet(send), channel, sn) <==> i < |send| && KeyOf(send[i]) == Key(channel, sn))
      && (forall k | i < k < |send| :: LessKey(send[i], send[k]))
  {
  }

  lemma SameTimes(s: seq<Msg>, times: Times, k: Key, now: real)
    requires Ordered(s, ByTime(times))
    requires forall m | m in s :: KeyOf(m) != k
    ensures Ordered(s, ByTime(times[k := now]))
  {
  }

  // Registering a message that is not in the buffer.
  lemma RegisterAgrees(send: seq<Msg>, next: seq<Msg>, times: Times, msg: Msg, now: real)
    requires TreesAgree(send, next, times) && !HasKey(ToSet(send), msg.channel, msg.sn)
    ensures var send', times' := Insert(send, msg, LessKey), times[KeyOf(msg) := now];
      && ToSet(send') == ToSet(send) + {msg}
      && TreesAgree(send', Insert(next, msg, ByTime(times')), times')
      && (HasAtOrAbove(ToSet(send), msg.channel, msg.sn) ==> TreesAgree(send', next, times'))
  {
    var send', times' := Insert(send, msg, LessKey), times[KeyOf(msg) := now];
    assert ToSet(send') == ToSet(send) + {msg};
    forall m | m in send
      ensures KeyOf(m) != KeyOf(msg)
    {
      assert m in ToSet(send);
    }
    InsertOrdered(send, msg, LessKey);
    SameTimes(next, times, KeyOf(msg), now);
    InsertOrdered(next, msg, ByTime(times'));
    forall m | Newest(ToSet(send'), m) && m != msg
      ensures m in next
    {
      assert Newest(ToSet(send), m);
    }
    if x :| x in ToSet(send) && x.channel == msg.channel && x.sn >= msg.sn {
      assert !Newest(ToSet(send'), msg);
    }
  }

  // The newest message of a channel that keeps any message is not deregistered.
  lemma NewestSurvives(buf: set<Msg>, channel: int, sn: nat, m: Msg)
    requires Newest(AfterDeregister(buf, channel, sn), m)
    ensures Newest(buf, m)
  {
  }

  // What is left after deregistering still agrees.
  lemma DeregisterAgrees(send: seq<Msg>, next: seq<Msg>, times: Times, send': seq<Msg>, next': seq<Msg>,
                         channel: int, sn: nat)
    requires TreesAgree(send, next, times)
    requires Ordered(send', LessKey) && Ordered(next', ByTime(times))
    requires ToSet(send') == AfterDeregister(ToSet(send), channel, sn)
    requires forall m :: m in next' <==> m in next && m in send'
    ensures TreesAgree(send', next', times)
  {
    forall m | m in send'
      ensures m in send
    {
      assert m in ToSet(send');
    }
    forall m | Newest(ToSet(send'), m)
      ensures m in next'
    {
      NewestSurvives(ToSet(send), channel, sn, m);
    }
  }

  lemma IndexAgrees(send: seq<Msg>, next: seq<Msg>, times: Times, m: Msg)
    requires TreesAgree(send, next, times) && m in send && m !in next
    ensures TreesAgree(send, Insert(next, m, ByTime(times)), times)
  {
    forall y | y in next
      ensures LessTime(times, m, y) || LessTime(times, y, m)
    {
      DistinctKeys(send, m, y);
    }
    InsertOrdered(next, m, ByTime(times));
  }

  // The tree is ordered by time, so the messages that are old enough come first.
  lemma VisitedAreOld(send: seq<Msg>, next: seq<Msg>, times: Times, now: real, rto: real, iter: nat)
    requires TreesAgree(send, next, times) && iter <= |next|
    requires forall k | 0 <= k < iter :: now - TimeOf(times, next[k]) >= rto
    requires iter < |next| ==> rto > now - TimeOf(times, next[iter])
    ensures forall m :: m in next[..iter] <==> m in next && now - TimeOf(times, m) >= rto
    ensures forall i, j | 0 <= i < j < iter :: next[i] != next[j]
  {
  }

  // Taking a message out of the time order, changing its time and putting it back.
  lemma Restamp(send: seq<Msg>, next: seq<Msg>, times: Times, msg: Msg, now: real)
    requires TreesAgree(send, next, times) && msg in next
    ensures var times' := times[KeyOf(msg) := now];
      && TreesAgree(send, Insert(Erase(next, msg), msg, ByTime(times')), times')
      && times'.Keys == times.Keys
      && (forall m :: m in Insert(Erase(next, msg), msg, ByTime(times')) <==> m in next)
      && forall m | m in send :: TimeOf(times', m) == if m == msg then now else TimeOf(times, m)
  {
    var times' := times[KeyOf(msg) := now];
    var rest := Erase(next, msg);
    EraseOrdered(next, msg, ByTime(times));
    forall m | m in send && m != msg
      ensures KeyOf(m) != KeyOf(msg)
    {
      DistinctKeys(send, m, msg);
    }
    SameTimes(rest, times, KeyOf(msg), now);
    forall y | y in rest
      ensures LessTime(times', msg, y) || LessTime(times', y, msg)
    {
      DistinctKeys(send, msg, y);
    }
    InsertOrdered(rest, msg, ByTime(times'));
  }

  lemma NothingAbove(send: seq<Msg>, channel: int, sn: nat)
    requires LowerBound(send, channel, sn) == |send|
    ensures !HasAtOrAbove(ToSet(send), channel, sn)
  {
  }

  lemma FirstIsUnique(send: seq<Msg>, channel: int, sn: nat, first: Msg)
    requires Ordered(send, LessKey) && FirstFrom(ToSet(send), channel, sn, first)
    ensures forall m :: FirstFrom(ToSet(send), channel, sn, m) <==> m == first
  {
    forall m | FirstFrom(ToSet(send), channel, sn, m)
      ensures m == first
    {
      if m != first {
        DistinctKeys(send, m, first);
      }
    }
  }

  ghost predicate KeysSorted(send: seq<Msg>) {
    forall i, j | 0 <= i < j < |send| :: LessKey(send[i], send[j])
  }

  lemma TreesSorted(send: seq<Msg>, next: seq<Msg>, times: Times)
    requires TreesAgree(send, next, times)
    ensures KeysSorted(send)
  {
  }

  // Walking down from the position of (channel, sn) over the entries of the
  // channel passes just those that are to be deregistered.
  lemma Collected(send: seq<Msg>, channel: int, sn: nat, top: nat, iter: nat, removed: seq<Msg>)
    requires KeysSorted(send) && top < |send| && top == LowerBound(send, channel, sn) && iter <= top + 1
    requires forall k | iter <= k <= top :: send[k].channel == channel
    requires iter > 0 ==> send[iter - 1].channel != channel
    requires forall m :: m in removed <==> m in send[iter..top + 1] && m.sn <= sn
    ensures forall m :: m in removed <==> m in ToSet(send) && m !in AfterDeregister(ToSet(send), channel, sn)
  {
    hide LowerBound, KeysSorted;
    SortedAround(send, top);
    if send[top].channel == channel {
      assert send[top] in ToSet(send);
      if iter > 0 {
        SortedAround(send, iter - 1);
      }
      forall m | m in send && m.channel == channel && m.sn <= sn
        ensures m in send[iter..top + 1]
      {
        var k :| 0 <= k < |send| && send[k] == m;
        assert iter <= k <= top;
        assert send[iter..top + 1][k - iter] == send[k];
      }
    } else {
      assert forall m | m in send :: !(m.channel == channel && m.sn >= sn);
    }
  }

  lemma SortedAround(send: seq<Msg>, i: nat)
    requires KeysSorted(send) && i < |send|
    ensures forall k | 0 <= k < i :: LessKey(send[k], send[i])
    ensures forall k | i < k < |send| :: LessKey(send[i], send[k])
  {
  }

  lemma DistinctKeys(send: seq<Msg>, x: Msg, y: Msg)
    requires Ordered(send, LessKey) && x in send && y in send && x != y
    ensures KeyOf(x) != KeyOf(y)
  {
  }

  lemma {:induction false} HeadersInBytes(s: seq<Msg>)
    ensures |s| * MAXIMAL_HEADER_SIZE <= Bytes(s)
  {
    if s != [] {
      HeadersInBytes(s[1..]);
    }
  }

  // With the numbers lo..t of a channel outstanding, t is not among the first
  // t - lo messages.
  lemma {:induction false} RankOf(s: seq<Msg>, channel: int, lo: nat, t: nat) returns (k: nat)
    requires Ordered(s, LessKey) && lo <= t && forall u | lo <= u <= t :: HasKey(ToSet(s), channel, u)
    ensures t - lo <= k < |s| && KeyOf(s[k]) == Key(channel, t)
    decreases t
  {
    assert HasKey(ToSet(s), channel, t);
    var m :| m in s && m.channel == channel && m.sn == t;
    k :| 0 <= k < |s| && s[k] == m;
    if lo < t {
      var j := RankOf(s, channel, lo, t - 1);
      assert k < j ==> LessKey(s[k], s[j]);
    }
  }

  // So numbers that are outstanding together fit into the buffer together.
  lemma OutstandingBytes(s: seq<Msg>, channel: int, lo: nat, hi: nat)
    requires Ordered(s, LessKey) && lo <= hi && forall t | lo <= t < hi :: HasKey(ToSet(s), channel, t)
    ensures (hi - lo) * MAXIMAL_HEADER_SIZE <= Bytes(s)
  {
    HeadersInBytes(s);
    if lo < hi {
      var k := RankOf(s, channel, lo, hi - 1);
    }
  }

  // The order leaves one sequence for each set of messages.
  lemma {:induction false} OneOrder(s: seq<Msg>, t: seq<Msg>)
    requires Ordered(s, LessKey) && Ordered(t, LessKey) && ToSet(s) == ToSet(t)
    ensures s == t
  {
    assert s != [] ==> s[0] in ToSet(s);
    assert t != [] ==> t[0] in ToSet(t);
    if s != [] && t != [] {
      var j, k :| 0 <= j < |s| && s[j] == t[0] && 0 <= k < |t| && t[k] == s[0];
      assert j > 0 ==> LessKey(s[0], t[0]);
      assert k > 0 ==> LessKey(t[0], s[0]);
      forall m
        ensures m in s[1..] <==> m in ToSet(s) && m != s[0]
        ensures m in t[1..] <==> m in ToSet(t) && m != t[0]
      {
        TailMembers(s, m);
        TailMembers(t, m);
      }
      assert ToSet(s[1..]) == ToSet(t[1..]);
      OneOrder(s[1..], t[1..]);
    }
  }

  lemma TailMembers(s: seq<Msg>, m: Msg)
    requires Ordered(s, LessKey) && s != []
    ensures m in s[1..] <==> m in s && m != s[0]
  {
    if m in s[1..] {
      var k :| 0 <= k < |s[1..]| && s[1..][k] == m;
      assert LessKey(s[0], s[k + 1]);
    }
  }

  // So taking out one message takes its bytes.
  lemma BytesOfOneLess(s: seq<Msg>, t: seq<Msg>, m: Msg)
    requires Ordered(s, LessKey) && Ordered(t, LessKey) && m in s && ToSet(t) == ToSet(s) - {m}
    ensures Bytes(t) == Bytes(s) - MsgSize(m)
  {
    EraseOrdered(s, m, LessKey);
    assert ToSet(Erase(s, m)) == ToSet(t);
    OneOrder(Erase(s, m), t);
    BytesErase(s, m);
  }

  // ----- the class

  class SenderBuffer {
    const size: nat
    var nextMsgTree: seq<Msg>       // ordered by registration time
    var sendBuffer: seq<Msg>        // ordered by channel and number
    var sendBufferSize: nat
    var registrationTime: Times     // the messages' registrationTime fields

    ghost function Contents(): set<Msg>
      reads this
    {
      ToSet(sendBuffer)
    }

    ghost predicate Valid()
      reads this
    {
      && TreesAgree(sendBuffer, nextMsgTree, registrationTime)
      && sendBufferSize == Bytes(sendBuffer) <= size
    }

    // Every unacknowledged message is up for retransmission.
    ghost predicate AllIndexed()
      reads this
    {
      forall m | m in sendBuffer :: m in nextMsgTree
    }

    constructor (size: nat)
      ensures Valid() && AllIndexed() && Contents() == {} && this.size == size && sendBufferSize == 0
      ensures registrationTime == map[]
    {
      this.size := size;
      nextMsgTree, sendBuffer, sendBufferSize, registrationTime := [], [], 0, map[];
    }

    // The first message at or above number sn on the channel, if any.
    method MessageSearch(channel: int, sn: nat) returns (found: Option<Msg>)
      requires Ordered(sendBuffer, LessKey)
      ensures found.None? <==> !HasAtOrAbove(Contents(), channel, sn)
      ensures found.Some? ==>
        FirstFrom(Contents(), channel, sn, found.value)
    {
      hide LowerBound, Bytes, Newest, HasKey;
      var iter := LowerBound(sendBuffer, channel, sn);
      ghost var lb := iter;
      SearchPosition(sendBuffer, channel, sn);
      var i := 0;
      while iter < |sendBuffer| && i < 2
        invariant lb <= iter <= |sendBuffer| && iter == lb + i && i <= 2
        invariant forall k | lb <= k < iter :: sendBuffer[k].channel > channel
      {
        if sendBuffer[iter].channel == channel {
          return Some(sendBuffer[iter]);
        }
        iter, i := iter + 1, i + 1;
      }
      return None;
    }

    function FitsIntoBuffer(dataSize: nat, numMessages: nat): bool
      reads this
    {
      size >= sendBufferSize + dataSize + numMessages * MAXIMAL_HEADER_SIZE
    }

    // The buffer is reported empty exactly when nothing is unacknowledged,
    // although only the retransmission tree is looked at.
    method Empty() returns (empty: bool)
      requires Valid()
      ensures empty <==> Contents() == {}
      ensures empty ==> sendBufferSize == 0
    {
      empty := nextMsgTree == [];
      assert nextMsgTree == [] || nextMsgTree[0] in nextMsgTree;
      assert sendBuffer == [] || sendBuffer[0] in Contents();
      if sendBuffer != [] {
        var m := sendBuffer[|sendBuffer| - 1];
        assert Newest(Contents(), m) by {
          forall x | x in Contents() && x.channel == m.channel
            ensures x.sn <= m.sn
          {
            var k :| 0 <= k < |sendBuffer| && sendBuffer[k] == x;
            assert k < |sendBuffer| - 1 ==> LessKey(sendBuffer[k], m);
          }
        }
      }
    }

    // Returns false, and changes nothing, if there is no room for the message.
    method RegisterReliableMessage(msg: Msg, now: real) returns (ok: bool)
      requires Valid()
      modifies this
      ensures Valid()
      ensures ok <==> old(sendBufferSize) + MsgSize(msg) <= size
      ensures Contents() == if ok then AfterRegister(old(Contents()), msg) else old(Contents())
      ensures if ok && !HasKey(old(Contents()), msg.channel, msg.sn)
              then sendBufferSize == old(sendBufferSize) + MsgSize(msg)
              else unchanged(this)
      // It is up for retransmission unless its channel has a message at or above it.
      ensures forall m :: m in nextMsgTree <==>
        m in old(nextMsgTree) || (m == msg && ok && !HasAtOrAbove(old(Contents()), msg.channel, msg.sn))
      // Registered in ascending order, every message is up for retransmission.
      ensures old(AllIndexed()) && !HasAtOrAbove(old(Contents()), msg.channel, msg.sn) ==> AllIndexed()
    {
      hide LowerBound, Insert, Newest, Ordered;
      var msgSize := |msg.data| + MAXIMAL_HEADER_SIZE;
      if sendBufferSize + msgSize > size {
        return false;
      }
      ok := true;
      var found := MessageSearch(msg.channel, msg.sn);
      var i := LowerBound(sendBuffer, msg.channel, msg.sn);
      SearchPosition(sendBuffer, msg.channel, msg.sn);
      var wasInserted := !(i < |sendBuffer| && KeyOf(sendBuffer[i]) == KeyOf(msg));
      if wasInserted {
        RegisterAgrees(sendBuffer, nextMsgTree, registrationTime, msg, now);
        BytesInsert(sendBuffer, msg, LessKey);
        registrationTime := registrationTime[KeyOf(msg) := now];
        if found.None? {
          nextMsgTree := Insert(nextMsgTree, msg, ByTime(registrationTime));
        }
        sendBuffer := Insert(sendBuffer, msg, LessKey);
        sendBufferSize := sendBufferSize + msgSize;
      }
    }

    // Deregisters the channel's messages numbered up to sn.
    method DeregisterReliableMessages(channel: int, sn: nat)
      requires Valid()
      modifies this
      ensures Valid()
      ensures Contents() == AfterDeregister(old(Contents()), channel, sn)
      ensures registrationTime == old(registrationTime) && sendBufferSize <= old(sendBufferSize)
      ensures forall m | m in old(Contents()) && m !in Contents() :: sendBufferSize <= old(sendBufferSize) - MsgSize(m)
      // If the index lost a message, the channel's first one from sn on is indexed again.
      ensures forall m :: m in nextMsgTree <==>
        && m in Contents()
        && (|| m in old(nextMsgTree)
            || (FirstFrom(Contents(), channel, sn, m) && exists x :: x in old(nextMsgTree) && x !in Contents()))
      ensures old(AllIndexed()) ==> AllIndexed()
    {
      hide Ordered, Newest, ByTime, LowerBound, Bytes;
      var iter := LowerBound(sendBuffer, channel, sn);
      if iter == |sendBuffer| {
        NothingAbove(sendBuffer, channel, sn);
        return;
      }
      var toBeRemoved := CollectDown(channel, sn, iter);
      ghost var buf := Contents();
      var wasInReliableTree := RemoveAll(toBeRemoved);
      assert Contents() == AfterDeregister(buf, channel, sn);
      assert forall m :: m in sendBuffer <==> m in Contents();
      assert forall m :: m in buf <==> m in old(sendBuffer);
      DeregisterAgrees(old(sendBuffer), old(nextMsgTree), registrationTime, sendBuffer, nextMsgTree, channel, sn);
      if wasInReliableTree {
        Reindex(channel, sn);
      }
    }

    // Makes sure that the channel's first message at or above sn is indexed.
    method Reindex(channel: int, sn: nat)
      requires Valid()
      modifies this`nextMsgTree
      ensures Valid()
      ensures forall m :: m in nextMsgTree <==> m in old(nextMsgTree) || FirstFrom(Contents(), channel, sn, m)
    {
      var newMsg := MessageSearch(channel, sn);
      if newMsg.Some? {
        FirstIsUnique(sendBuffer, channel, sn, newMsg.value);
        if newMsg.value !in nextMsgTree {
          IndexAgrees(sendBuffer, nextMsgTree, registrationTime, newMsg.value);
          nextMsgTree := Insert(nextMsgTree, newMsg.value, ByTime(registrationTime));
        }
      }
    }

    // Takes the messages out of both trees; tells whether any of them was up
    // for retransmission.
    method RemoveAll(toBeRemoved: seq<Msg>) returns (wasInReliableTree: bool)
      requires Valid()
      requires forall i, j | 0 <= i < j < |toBeRemoved| :: toBeRemoved[i] != toBeRemoved[j]
      requires forall m | m in toBeRemoved :: m in sendBuffer
      modifies this
      ensures registrationTime == old(registrationTime)
      ensures Contents() == old(Contents()) - ToSet(toBeRemoved)
      ensures Ordered(sendBuffer, LessKey) && Ordered(nextMsgTree, ByTime(registrationTime))
      ensures sendBufferSize == Bytes(sendBuffer) <= old(sendBufferSize)
      ensures forall m | m in toBeRemoved :: sendBufferSize <= old(sendBufferSize) - MsgSize(m)
      ensures forall m :: m in nextMsgTree <==> m in old(nextMsgTree) && m !in toBeRemoved
      ensures wasInReliableTree <==> exists m :: m in toBeRemoved && m in old(nextMsgTree)
    {
      hide Ordered, Erase, Bytes, Newest, ByTime;
      wasInReliableTree := false;
      for v := 0 to |toBeRemoved|
        invariant registrationTime == old(registrationTime)
        invariant Ordered(sendBuffer, LessKey) && Ordered(nextMsgTree, ByTime(registrationTime))
        invariant sendBufferSize == Bytes(sendBuffer) <= old(sendBufferSize)
        invariant forall m :: m in sendBuffer <==> m in old(sendBuffer) && m !in toBeRemoved[..v]
        invariant forall m :: m in nextMsgTree <==> m in old(nextMsgTree) && m !in toBeRemoved[..v]
        invariant forall m | m in toBeRemoved[..v] :: sendBufferSize <= old(sendBufferSize) - MsgSize(m)
        invariant wasInReliableTree <==> exists m :: m in toBeRemoved[..v] && m in old(nextMsgTree)
      {
        var msg := toBeRemoved[v];
        assert msg in toBeRemoved && msg !in toBeRemoved[..v];
        EraseOrdered(sendBuffer, msg, LessKey);
        EraseOrdered(nextMsgTree, msg, ByTime(registrationTime));
        BytesErase(sendBuffer, msg);
        assert toBeRemoved[..v + 1] == toBeRemoved[..v] + [msg];
        sendBuffer := Erase(sendBuffer, msg);
        sendBufferSize := sendBufferSize - MsgSize(msg);
        wasInReliableTree := wasInReliableTree || msg in nextMsgTree;
        nextMsgTree := Erase(nextMsgTree, msg);
      }
      assert toBeRemoved[..|toBeRemoved|] == toBeRemoved;
    }

    // Walks down from position top over the channel's entries.
    method CollectDown(channel: int, sn: nat, top: nat) returns (toBeRemoved: seq<Msg>)
      requires Valid() && top < |sendBuffer| && top == LowerBound(sendBuffer, channel, sn)
      ensures forall i, j | 0 <= i < j < |toBeRemoved| :: toBeRemoved[i] != toBeRemoved[j]
      ensures forall m :: m in toBeRemoved <==>
        m in Contents() && m !in AfterDeregister(Contents(), channel, sn)
    {
      hide TreesAgree, Newest, LowerBound, KeysSorted;
      TreesSorted(sendBuffer, nextMsgTree, registrationTime);
      toBeRemoved := [];
      var iter := top + 1;
      while iter > 0 && sendBuffer[iter - 1].channel == channel
        invariant 0 <= iter <= top + 1
        invariant forall k | iter <= k <= top :: sendBuffer[k].channel == channel
        invariant forall m :: m in toBeRemoved <==> m in sendBuffer[iter..top + 1] && m.sn <= sn
        invariant forall i, j | 0 <= i < j < |toBeRemoved| :: toBeRemoved[i] != toBeRemoved[j]
      {
        iter := iter - 1;
        var msg := sendBuffer[iter];
        assert sendBuffer[iter..top + 1] == [msg] + sendBuffer[iter + 1..top + 1];
        SortedAround(sendBuffer, iter);
        assert msg !in sendBuffer[iter + 1..top + 1];
        if msg.sn <= sn {
          toBeRemoved := toBeRemoved + [msg];
        }
      }
      Collected(sendBuffer, channel, sn, top, iter, toBeRemoved);
    }

    // Visits the messages that were sent at least one RTO ago, oldest first,
    // and stamps them with the current time.
    method EachCurrentMessage(now: real, rto: real) returns (visited: seq<Msg>)
      requires Valid()
      modifies this
      ensures Valid() && sendBuffer == old(sendBuffer) && sendBufferSize == old(sendBufferSize)
      ensures forall i, j | 0 <= i < j < |visited| :: visited[i] != visited[j]
      ensures visited <= old(nextMsgTree)
      ensures forall m :: m in visited <==>
        m in old(nextMsgTree) && now - old(TimeOf(registrationTime, m)) >= rto
      ensures forall m :: m in nextMsgTree <==> m in old(nextMsgTree)
      ensures registrationTime.Keys == old(registrationTime.Keys)
      ensures forall m | m in sendBuffer ::
        TimeOf(registrationTime, m) == if m in visited then now else old(TimeOf(registrationTime, m))
    {
      hide Insert, Erase, TimeOf, TreesAgree;
      var iter := 0;
      while iter < |nextMsgTree|
        invariant iter <= |nextMsgTree|
        invariant forall k | 0 <= k < iter :: now - TimeOf(registrationTime, nextMsgTree[k]) >= rto
      {
        if rto > now - TimeOf(registrationTime, nextMsgTree[iter]) {
          break;
        }
        iter := iter + 1;
      }
      visited := nextMsgTree[..iter];
      VisitedAreOld(sendBuffer, nextMsgTree, registrationTime, now, rto, iter);
      for v := 0 to |visited|
        invariant TreesAgree(sendBuffer, nextMsgTree, registrationTime)
        invariant sendBuffer == old(sendBuffer) && sendBufferSize == old(sendBufferSize)
        invariant forall m :: m in nextMsgTree <==> m in old(nextMsgTree)
        invariant registrationTime.Keys == old(registrationTime.Keys)
        invariant forall m | m in sendBuffer ::
          TimeOf(registrationTime, m) == if m in visited[..v] then now else old(TimeOf(registrationTime, m))
      {
        var msg := visited[v];
        assert msg in visited && msg in nextMsgTree;
        Restamp(sendBuffer, nextMsgTree, registrationTime, msg, now);
        nextMsgTree := Erase(nextMsgTree, msg);
        registrationTime := registrationTime[KeyOf(msg) := now];
        nextMsgTree := Insert(nextMsgTree, msg, ByTime(registrationTime));
        assert visited[..v + 1] == visited[..v] + [msg];
      }
      assert visited[..|visited|] == visited;
    }
  }
}
