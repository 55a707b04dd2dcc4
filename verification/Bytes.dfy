/** Bytes, flag bits and fixed width numbers as they stand in a datagram
    (the readers and writers of EmiNetUtil.h, and the network byte order
    words of the two header formats). */
module Bytes {
  import opened NetUtil
  import opened Streams

  // Whether the flag, a power of two, is set in a flags byte.
  predicate Has(flags: Byte, flag: int)
    requires flag > 0
  {
    flags / flag % 2 == 1
  }

  lemma Middle(p: Data, x: Data, q: Data)
    ensures (p + x + q)[|p|..|p| + |x|] == x
  {
  }

  // read24 and write24 put the low byte first.
  function Bytes24(n: nat): (b: Data)
    ensures |b| == 3
  {
    [n % 256, n / 256 % 256, n / 65536 % 256]
  }

  function Read24(b: Data, at: nat): Seq24
    requires at + 3 <= |b|
  {
    b[at] as int + 256 * (b[at + 1] as int) + 65536 * (b[at + 2] as int)
  }

  lemma Digits(n: nat)
    ensures n % 256 + 256 * (n / 256 % 256) + 65536 * (n / 65536 % 256) == n % BLOCK
  {
    var a := n / 256;
    var b := a / 256;
    var q := b / 256;
    assert n / 65536 == b by {
      assert 65536 * b <= n < 65536 * (b + 1);
    }
    assert n % BLOCK == n - BLOCK * q by {
      assert 0 <= n - BLOCK * q < BLOCK;
    }
  }

  lemma Read24Inverts(b: Data, at: nat, n: nat)
    requires at + 3 <= |b| && b[at..at + 3] == Bytes24(n)
    ensures Read24(b, at) == Wrap(n)
  {
    var s := b[at..at + 3];
    assert b[at] == s[0] && b[at + 1] == s[1] && b[at + 2] == s[2];
    Digits(n);
  }

  lemma Read24After(x: Data, n: nat, z: Data)
    ensures Read24(x + Bytes24(n) + z, |x|) == Wrap(n)
  {
    Middle(x, Bytes24(n), z);
    Read24Inverts(x + Bytes24(n) + z, |x|, n);
  }

  lemma Bytes24Inverts(b: Data, at: nat)
    requires at + 3 <= |b|
    ensures Bytes24(Read24(b, at)) == b[at..at + 3]
  {
    var n := Read24(b, at);
    assert n % 256 == b[at];
    assert n / 256 == b[at + 1] as int + 256 * (b[at + 2] as int);
  }

  // Words in network byte order; htons cuts its argument to 16 bits.
  function Bytes16(n: nat): (b: Data)
    ensures |b| == 2
  {
    [n / 256 % 256, n % 256]
  }

  function Read16(b: Data, at: nat): (n: nat)
    requires at + 2 <= |b|
    ensures n < 65536
  {
    256 * (b[at] as int) + b[at + 1] as int
  }

  lemma Read16Inverts(b: Data, at: nat, n: nat)
    requires at + 2 <= |b| && b[at..at + 2] == Bytes16(n)
    ensures Read16(b, at) == n % 65536
  {
    var s := b[at..at + 2];
    assert b[at] == s[0] && b[at + 1] == s[1];
  }

  type Word32 = n: int | 0 <= n < 0x1_0000_0000

  function Bytes32(n: Word32): (b: Data)
    ensures |b| == 4
  {
    [n / 0x100_0000, n / 65536 % 256, n / 256 % 256, n % 256]
  }

  function Read32(b: Data, at: nat): Word32
    requires at + 4 <= |b|
  {
    0x100_0000 * (b[at] as int) + 65536 * (b[at + 1] as int) + 256 * (b[at + 2] as int) + b[at + 3] as int
  }

  lemma Read32Inverts(b: Data, at: nat, n: Word32)
    requires at + 4 <= |b| && b[at..at + 4] == Bytes32(n)
    ensures Read32(b, at) == n
  {
    var s := b[at..at + 4];
    assert b[at] == s[0] && b[at + 1] == s[1] && b[at + 2] == s[2] && b[at + 3] == s[3];
    assert n / 65536 == 256 * (n / 0x100_0000) + n / 65536 % 256;
    assert n / 256 == 256 * (n / 65536) + n / 256 % 256;
  }

  // Copies bytes into a buffer, as memcpy does.
  method Store(buf: array<Byte>, at: nat, bytes: Data)
    requires at + |bytes| <= buf.Length
    modifies buf
    ensures buf[..] == old(buf[..at]) + bytes + old(buf[at + |bytes|..])
  {
    var i := 0;
    while i < |bytes|
      invariant i <= |bytes|
      invariant buf[..] == old(buf[..at]) + bytes[..i] + old(buf[at + i..])
    {
      buf[at + i] := bytes[i];
      i := i + 1;
    }
  }

  method Write24(buf: array<Byte>, at: nat, n: nat)
    requires at + 3 <= buf.Length
    modifies buf
    ensures buf[..] == old(buf[..at]) + Bytes24(n) + old(buf[at + 3..])
  {
    buf[at] := n % 256;
    buf[at + 1] := n / 256 % 256;
    buf[at + 2] := n / 65536 % 256;
  }

  // Writing y right behind x, both from offset o of the buffer was.
  lemma Spliced(was: Data, o: nat, x: Data, y: Data, before: Data, after: Data)
    requires o + |x| + |y| <= |was| == |before|
    requires before == was[..o] + x + was[o + |x|..]
    requires after == before[..o + |x|] + y + before[o + |x| + |y|..]
    ensures after == was[..o] + (x + y) + was[o + |x + y|..]
  {
  }

  // The writers build up their output x behind offset o of the buffer was and
  // move a cursor along.
  method Append(buf: array<Byte>, pos: nat, y: Data, ghost was: Data, ghost o: nat, ghost x: Data) returns (pos': nat)
    requires buf.Length == |was| && pos == o + |x| && pos + |y| <= buf.Length
    requires buf[..] == was[..o] + x + was[pos..]
    modifies buf
    ensures pos' == pos + |y|
    ensures buf[..] == was[..o] + (x + y) + was[pos'..]
  {
    ghost var before := buf[..];
    Store(buf, pos, y);
    Spliced(was, o, x, y, before, buf[..]);
    pos' := pos + |y|;
  }

  method Append24(buf: array<Byte>, pos: nat, n: nat, ghost was: Data, ghost o: nat, ghost x: Data) returns (pos': nat)
    requires buf.Length == |was| && pos == o + |x| && pos + 3 <= buf.Length
    requires buf[..] == was[..o] + x + was[pos..]
    modifies buf
    ensures pos' == pos + 3
    ensures buf[..] == was[..o] + (x + Bytes24(n)) + was[pos'..]
  {
    ghost var before := buf[..];
    Write24(buf, pos, n);
    Spliced(was, o, x, Bytes24(n), before, buf[..]);
    pos' := pos + 3;
  }
}
