/** The receiver buffer of EmiReceiverBuffer.h: the ordered tree of buffered
    fragments, the disjoint sets and the expected number, which together turn
    fragments arriving in any order into messages in the order sent. */
module ReceiverBuffer {
  import opened MessageSets
  import opened OrderedSpec
  import opened Streams
  import Bytes

  const TWO_32: nat := 0x1_0000_0000

  // A buffered fragment. The tree is ordered by channel, then by number.
  datatype Entry = Entry(channel: nat, sn: nat, first: bool, last: bool, headerLength: nat, data: Data)

  predicate Less(c: nat, sn: nat, e: Entry) {
    c < e.channel || (c == e.channel && sn < e.sn)
  }

  predicate Sorted(tree: seq<Entry>) {
    forall i, j | 0 <= i < j < |tree| :: Less(tree[i].channel, tree[i].sn, tree[j])
  }

  // std::set::lower_bound: the first entry not below the key.
  function LowerBound(tree: seq<Entry>, c: nat, sn: nat): (i: nat)
    ensures i <= |tree|
    ensures forall k | 0 <= k < i :: Less(tree[k].channel, tree[k].sn, Entry(c, sn, true, true, 0, []))
    ensures i < |tree| ==> !Less(tree[i].channel, tree[i].sn, Entry(c, sn, true, true, 0, []))
  {
    if tree != [] && (tree[0].channel < c || (tree[0].channel == c && tree[0].sn < sn))
    then 1 + LowerBound(tree[1..], c, sn)
    else 0
  }

  function EntrySize(e: Entry): nat {
    e.headerLength + |e.data|
  }

  function TreeBytes(tree: seq<Entry>): nat {
    if tree == [] then 0 else EntrySize(tree[0]) + TreeBytes(tree[1..])
  }

  lemma {:induction false} TreeBytesConcat(x: seq<Entry>, y: seq<Entry>)
    ensures TreeBytes(x + y) == TreeBytes(x) + TreeBytes(y)
  {
    if x == [] {
      assert x + y == y;
    } else {
      TreeBytesConcat(x[1..], y);
      assert (x + y)[1..] == x[1..] + y;
    }
  }

  function ConcatData(tree: seq<Entry>): Data {
    if tree == [] then [] else ConcatData(tree[..|tree| - 1]) + tree[|tree| - 1].data
  }

  // ----- the registered parts

  // Every registered part is a part of the stream.
  ghost predicate PartsOf(reg: Parts, c: Channel) {
    forall t {:trigger t in reg} | t in reg ::
      c.Has(t) && reg[t] == MessageSets.Part(c.At(t).first, c.At(t).last, |c.At(t).data|)
  }

  lemma FlagsConsistent(reg: Parts, c: Channel)
    requires c.Valid() && PartsOf(reg, c)
    ensures ConsistentFlags(reg)
  {
    forall k: nat
      ensures FlagsMeet(reg, k)
    {
      if k in reg && k + 1 in reg {
        assert Adjacent(c.s, k - c.base);
      }
    }
  }

  lemma {:induction false} SizeIsPayload(reg: Parts, c: Channel, x: nat, y: nat)
    requires PartsOf(reg, c) && c.base <= x <= y <= c.End() && forall k | x <= k < y :: k in reg
    ensures SizeSum(reg, x, y) == |Payload(c.s, x - c.base, y - c.base)|
    decreases y
  {
    if x < y {
      SizeIsPayload(reg, c, x, y - 1);
      assert y - 1 in reg;
    }
  }

  // ----- joining the parts of one message

  // Where the copying loop stops: it always takes the entry it starts at, and
  // goes on while numbers are at most largest. It does not look at channels.
  function ScanEnd(tree: seq<Entry>, from: nat, largest: nat): (n: nat)
    requires from < |tree|
    ensures from < n <= |tree|
    ensures forall k | from < k < n :: tree[k].sn <= largest
    ensures n < |tree| ==> tree[n].sn > largest
    decreases |tree| - from
  {
    if from + 1 < |tree| && tree[from + 1].sn <= largest then ScanEnd(tree, from + 1, largest)
    else from + 1
  }

  lemma {:induction false} ConcatDataGrows(tree: seq<Entry>, a: nat, b: nat, n: nat)
    requires a <= b <= n <= |tree|
    ensures |ConcatData(tree[a..b])| <= |ConcatData(tree[a..n])|
    decreases n - b
  {
    if b < n {
      ConcatDataGrows(tree, a, b, n - 1);
      assert tree[a..n][..n - a - 1] == tree[a..n - 1];
    }
  }

  lemma ConcatDataStep(tree: seq<Entry>, a: nat, b: nat)
    requires a <= b < |tree|
    ensures ConcatData(tree[a..b + 1]) == ConcatData(tree[a..b]) + tree[b].data
    ensures ConcatData(tree[a..a]) == []
  {
    assert tree[a..b + 1][..b - a] == tree[a..b];
  }

  // Fills buf with the data of the entries from iter on. The result ok is
  // false where the code's length assertions fire.
  method ProcessMessageSetData(tree: seq<Entry>, largest: nat, iter: nat, buf: array<Byte>)
    returns (ok: bool, end: nat)
    requires iter < |tree|
    modifies buf
    ensures ok <==> |ConcatData(tree[iter..ScanEnd(tree, iter, largest)])| == buf.Length
    ensures ok ==> end == ScanEnd(tree, iter, largest) && buf[..] == ConcatData(tree[iter..end])
  {
    hide ConcatData;
    ghost var stop := ScanEnd(tree, iter, largest);
    var bufPos: nat := 0;
    end := iter;
    ConcatDataStep(tree, iter, iter);
    while true
      invariant iter <= end < |tree| && end < stop
      invariant bufPos <= buf.Length
      invariant buf[..bufPos] == ConcatData(tree[iter..end])
      invariant end > iter ==> tree[end].sn <= largest
      invariant ScanEnd(tree, end, largest) == stop
      decreases |tree| - end
    {
      var data := tree[end].data;
      ConcatDataStep(tree, iter, end);
      if bufPos + |data| > buf.Length {
        ConcatDataGrows(tree, iter, end + 1, stop);
        return false, end;
      }
      Bytes.Store(buf, bufPos, data);
      bufPos := bufPos + |data|;
      assert buf[..bufPos] == ConcatData(tree[iter..end]) + data;
      end := end + 1;
      if !(end < |tree| && tree[end].sn <= largest) {
        break;
      }
    }
    assert buf[..bufPos] == ConcatData(tree[iter..end]);
    ok := bufPos == buf.Length;
  }

  // On several channels, the scan that joins the set tree[from..to] runs into
  // the next channel, and the length assertion fires, exactly when the next
  // entry in the tree has a number at or below the set's largest.
  lemma CrossChannelScan(tree: seq<Entry>, from: nat, to: nat, largest: nat)
    requires from < to <= |tree|
    requires forall k | from <= k < to :: tree[k].sn <= largest
    requires to < |tree| ==> tree[to].data != []
    ensures |ConcatData(tree[from..ScanEnd(tree, from, largest)])| == |ConcatData(tree[from..to])|
       <==> !(to < |tree| && tree[to].sn <= largest)
  {
    var n := ScanEnd(tree, from, largest);
    if to < |tree| && tree[to].sn <= largest {
      assert n > to;
      ConcatDataGrows(tree, from, to + 1, n);
      assert tree[from..to + 1][..to - from] == tree[from..to];
    } else {
      assert n == to;
    }
  }

  // Such a tree: a two-part message on channel 0xC0 next to a fragment with a
  // smaller number on channel 0xC1.
  lemma CrossChannelExample()
    ensures var tree := [Entry(0xC0, 7, true, false, 7, [1]), Entry(0xC0, 8, false, true, 7, [2]),
                         Entry(0xC1, 5, true, true, 7, [3])];
      Sorted(tree) && |ConcatData(tree[0..ScanEnd(tree, 0, 8)])| != |ConcatData(tree[0..2])|
  {
    var tree := [Entry(0xC0, 7, true, false, 7, [1]), Entry(0xC0, 8, false, true, 7, [2]),
                 Entry(0xC1, 5, true, true, 7, [3])];
    CrossChannelScan(tree, 0, 2, 8);
  }
}
