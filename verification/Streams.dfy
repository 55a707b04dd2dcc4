/** What is sent on one channel: messages, and the fragments they are split
    into. This is the simple description that the receiver is measured against. */
module Streams {

  type Byte = n: int | 0 <= n < 256
  type Data = seq<Byte>

  // One fragment with its two split flags (first: not EMI_SPLIT_NOT_FIRST_FLAG,
  // last: not EMI_SPLIT_NOT_LAST_FLAG).
  datatype Fragment = Fragment(first: bool, last: bool, data: Data)

  // EMI_MINIMAL_MTU - EMI_UDP_HEADER_SIZE - EMI_PACKET_HEADER_MAX_LENGTH - maximalHeaderSize()
  const MAX_MESSAGE_LENGTH: nat := 576 - 8 - 21 - 10

  predicate WellFormed(s: seq<Fragment>) {
    && (forall k | 0 <= k < |s| :: 0 < |s[k].data| <= MAX_MESSAGE_LENGTH)
    && (forall k {:trigger Adjacent(s, k)} | 0 <= k < |s| - 1 :: Adjacent(s, k))
    && (s != [] ==> s[0].first && s[|s| - 1].last)
  }

  // A message ends just where the next one starts.
  predicate Adjacent(s: seq<Fragment>, k: nat)
    requires k < |s| - 1
  {
    s[k].last <==> s[k + 1].first
  }

  // Where the message that fragment k belongs to starts; the end of the
  // stream is a start of its own.
  function GroupStart(s: seq<Fragment>, k: nat): (g: nat)
    requires k <= |s|
    ensures g <= k
  {
    if k == 0 || k == |s| || s[k].first then k else GroupStart(s, k - 1)
  }

  // The data of fragments a..b, b excluded.
  function Payload(s: seq<Fragment>, a: nat, b: nat): Data
    requires b <= |s|
  {
    if a >= b then [] else Payload(s, a, b - 1) + s[b - 1].data
  }

  // The messages that lie wholly in the first k fragments, k being a start.
  function Messages(s: seq<Fragment>, k: nat): seq<Data>
    requires k <= |s|
  {
    if k == 0 then []
    else
      var g := GroupStart(s, k - 1);
      Messages(s, g) + [Payload(s, g, k)]
  }

  // ----- splitting

  function NumMessages(length: nat): (n: nat)
    ensures n >= 1
    ensures length > 0 ==> (n - 1) * MAX_MESSAGE_LENGTH < length <= n * MAX_MESSAGE_LENGTH
  {
    if length == 0 then 1 else (length - 1) / MAX_MESSAGE_LENGTH + 1
  }

  function Part(data: Data, i: nat): (f: Fragment)
    requires data != [] && i < NumMessages(|data|)
    ensures 0 < |f.data| <= MAX_MESSAGE_LENGTH
  {
    var n := NumMessages(|data|);
    PartBounds(|data|, i);
    Fragment(i == 0, i == n - 1,
             data[i * MAX_MESSAGE_LENGTH .. if i == n - 1 then |data| else (i + 1) * MAX_MESSAGE_LENGTH])
  }

  lemma PartBounds(length: nat, i: nat)
    requires length > 0 && i < NumMessages(length)
    ensures i * MAX_MESSAGE_LENGTH < length
    ensures i < NumMessages(length) - 1 ==> (i + 1) * MAX_MESSAGE_LENGTH <= length
    ensures i == NumMessages(length) - 1 ==> length <= (i + 1) * MAX_MESSAGE_LENGTH
  {
  }

  function Split(data: Data): (s: seq<Fragment>)
    requires data != []
    ensures |s| == NumMessages(|data|)
  {
    seq(NumMessages(|data|), i requires 0 <= i < NumMessages(|data|) => Part(data, i))
  }

  predicate NonEmpty(msgs: seq<Data>) {
    forall i | 0 <= i < |msgs| :: msgs[i] != []
  }

  function Stream(msgs: seq<Data>): seq<Fragment>
    requires NonEmpty(msgs)
  {
    if msgs == [] then []
    else Stream(msgs[..|msgs| - 1]) + Split(msgs[|msgs| - 1])
  }

  // ----- facts about groups

  lemma {:induction false} GroupStartIs(s: seq<Fragment>, k: nat)
    requires WellFormed(s) && k <= |s|
    ensures var g := GroupStart(s, k);
      && (k < |s| ==> s[g].first)
      && (k == |s| ==> g == k)
      && (g > 0 ==> s[g - 1].last)
      && (forall j | g < j <= k && j < |s| :: !s[j].first)
      && (forall j | g <= j < k :: !s[j].last)
  {
    if 0 < k < |s| {
      assert Adjacent(s, k - 1);
      if !s[k].first {
        GroupStartIs(s, k - 1);
      }
    }
  }

  lemma {:induction false} GroupStartUnique(s: seq<Fragment>, g: nat, k: nat)
    requires WellFormed(s) && g <= k < |s| && s[g].first
    requires forall j | g < j <= k :: !s[j].first
    ensures GroupStart(s, k) == g
  {
    if k != g {
      GroupStartUnique(s, g, k - 1);
    }
  }

  // A whole message from g to l adds exactly its payload.
  lemma MessagesStep(s: seq<Fragment>, g: nat, l: nat)
    requires WellFormed(s) && g <= l < |s| && s[g].first
    requires forall j | g <= j < l :: !s[j].last
    ensures Messages(s, l + 1) == Messages(s, g) + [Payload(s, g, l + 1)]
  {
    forall j | g < j <= l
      ensures !s[j].first
    {
      assert Adjacent(s, j - 1);
    }
    GroupStartUnique(s, g, l);
  }

  // ----- splitting and joining are inverse

  lemma {:induction false} PayloadOfSplit(data: Data, s: seq<Fragment>, a: nat, n: nat)
    requires data != [] && n <= NumMessages(|data|)
    requires a + NumMessages(|data|) <= |s|
    requires s[a .. a + NumMessages(|data|)] == Split(data)
    ensures n * MAX_MESSAGE_LENGTH <= |data| || n == NumMessages(|data|)
    ensures Payload(s, a, a + n) == data[.. if n == NumMessages(|data|) then |data| else n * MAX_MESSAGE_LENGTH]
  {
    if n > 0 {
      PayloadOfSplit(data, s, a, n - 1);
      PartBounds(|data|, n - 1);
      assert s[a + n - 1] == s[a .. a + NumMessages(|data|)][n - 1] == Part(data, n - 1);
    }
  }

  // Only the first part has the first flag, and only the last part the last one.
  lemma SplitFlags(data: Data)
    requires data != []
    ensures var t := Split(data);
      forall j | 0 <= j < |t| :: (t[j].first <==> j == 0) && (t[j].last <==> j == |t| - 1)
  {
  }

  lemma SplitWellFormed(data: Data)
    requires data != []
    ensures WellFormed(Split(data))
  {
  }

  lemma ConcatWellFormed(s: seq<Fragment>, t: seq<Fragment>)
    requires WellFormed(s) && WellFormed(t)
    ensures WellFormed(s + t)
  {
    var u := s + t;
    forall k | 0 <= k < |u| - 1
      ensures Adjacent(u, k)
    {
      if k >= |s| {
        assert u[k] == t[k - |s|] && u[k + 1] == t[k - |s| + 1];
        assert Adjacent(t, k - |s|);
      } else if k < |s| - 1 {
        assert Adjacent(s, k);
      }
    }
  }

  lemma {:induction false} StreamWellFormed(msgs: seq<Data>)
    requires NonEmpty(msgs)
    ensures WellFormed(Stream(msgs))
  {
    if msgs != [] {
      StreamWellFormed(msgs[..|msgs| - 1]);
      SplitWellFormed(msgs[|msgs| - 1]);
      ConcatWellFormed(Stream(msgs[..|msgs| - 1]), Split(msgs[|msgs| - 1]));
    }
  }

  lemma {:induction false} GroupStartExtends(s: seq<Fragment>, t: seq<Fragment>, k: nat)
    requires WellFormed(s + t) && k <= |s| && (k == |s| ==> WellFormed(s))
    ensures GroupStart(s + t, k) == GroupStart(s, k)
  {
    if k == |s| {
      if s != [] && t != [] {
        assert (s + t)[|s| - 1] == s[|s| - 1] && (s + t)[|s|] == t[0];
        assert Adjacent(s + t, |s| - 1);
      }
    } else {
      assert (s + t)[k] == s[k];
      if k > 0 && !s[k].first {
        GroupStartExtends(s, t, k - 1);
      }
    }
  }

  lemma {:induction false} PayloadExtends(s: seq<Fragment>, t: seq<Fragment>, a: nat, b: nat)
    requires b <= |s|
    ensures Payload(s + t, a, b) == Payload(s, a, b)
  {
    if a < b {
      PayloadExtends(s, t, a, b - 1);
    }
  }

  lemma {:induction false} MessagesExtend(s: seq<Fragment>, t: seq<Fragment>, k: nat)
    requires WellFormed(s) && WellFormed(s + t) && k <= |s|
    ensures Messages(s + t, k) == Messages(s, k)
  {
    if k > 0 {
      GroupStartExtends(s, t, k - 1);
      var g := GroupStart(s, k - 1);
      MessagesExtend(s, t, g);
      PayloadExtends(s, t, g, k);
    }
  }

  // Joining the parts of one more message gives that message.
  lemma AppendedMessage(s: seq<Fragment>, m: Data)
    requires WellFormed(s) && m != []
    ensures WellFormed(s + Split(m))
    ensures Messages(s + Split(m), |s + Split(m)|) == Messages(s, |s|) + [m]
  {
    hide Messages, Payload, GroupStart, Split, WellFormed;
    var t := Split(m);
    SplitWellFormed(m);
    SplitFlags(m);
    ConcatWellFormed(s, t);
    var u := s + t;
    MessagesExtend(s, t, |s|);
    assert u[|s| .. |s| + |t|] == t;
    PayloadOfSplit(m, u, |s|, |t|);
    forall j | |s| <= j < |u| - 1
      ensures !u[j].last
    {
      assert u[j] == t[j - |s|];
    }
    assert u[|s|] == t[0];
    MessagesStep(u, |s|, |u| - 1);
    assert m[..|m|] == m;
  }

  // Reading a stream of split messages back gives exactly those messages.
  lemma {:induction false} MessagesOfStream(msgs: seq<Data>)
    requires NonEmpty(msgs)
    ensures Messages(Stream(msgs), |Stream(msgs)|) == msgs
  {
    if msgs != [] {
      var front := msgs[..|msgs| - 1];
      StreamWellFormed(front);
      MessagesOfStream(front);
      AppendedMessage(Stream(front), msgs[|msgs| - 1]);
      assert msgs == front + [msgs[|msgs| - 1]];
    }
  }

  // How many whole messages the first p fragments hold.
  function WholeMessages(msgs: seq<Data>, p: nat): (j: nat)
    requires NonEmpty(msgs)
    ensures j <= |msgs|
    ensures |Stream(msgs[..j])| <= p
    ensures j < |msgs| ==> p < |Stream(msgs[..j + 1])|
  {
    if msgs == [] then 0
    else
      assert msgs[..|msgs|] == msgs;
      if |Stream(msgs)| <= p then |msgs|
      else
        var front := msgs[..|msgs| - 1];
        var j := WholeMessages(front, p);
        assert front[..j] == msgs[..j];
        assert j < |front| ==> front[..j + 1] == msgs[..j + 1];
        j
  }

  // The messages before the group that fragment p belongs to are the whole
  // messages among the first p fragments.
  lemma {:induction false} MessagesBefore(msgs: seq<Data>, p: nat)
    requires NonEmpty(msgs) && p <= |Stream(msgs)|
    ensures Messages(Stream(msgs), GroupStart(Stream(msgs), p)) == msgs[..WholeMessages(msgs, p)]
  {
    hide Messages, GroupStart, Split, WellFormed;
    StreamWellFormed(msgs);
    if p == |Stream(msgs)| {
      MessagesOfStream(msgs);
      assert msgs[..|msgs|] == msgs;
      GroupStartIs(Stream(msgs), p);
    } else if msgs != [] {
      var front, m := msgs[..|msgs| - 1], msgs[|msgs| - 1];
      var s, t := Stream(front), Split(m);
      StreamWellFormed(front);
      if p < |s| {
        MessagesBefore(front, p);
        GroupStartExtends(s, t, p);
        MessagesExtend(s, t, GroupStart(s, p));
        assert front[..WholeMessages(front, p)] == msgs[..WholeMessages(front, p)];
      } else {
        SplitFlags(m);
        forall j | |s| < j <= p
          ensures !(s + t)[j].first
        {
          assert (s + t)[j] == t[j - |s|];
        }
        assert (s + t)[|s|] == t[0];
        GroupStartUnique(s + t, |s|, p);
        MessagesExtend(s, t, |s|);
        MessagesOfStream(front);
        assert WholeMessages(front, p) == |front| by {
          assert front[..|front|] == front;
        }
        assert msgs[..|front|] == front;
      }
    }
  }
}
