/** Cyclic 24 bit sequence number arithmetic and the three places that use it
    to recover a non-wrapping number from a wrapped one.

    Two moduli are in play: numbers are cut to 24 bits, that is modulo BLOCK,
    while the cyclic difference works modulo MASK == BLOCK - 1. */
module NetUtil {

  const BLOCK: int := 0x100_0000
  const MASK: int := 0xFF_FFFF
  const HALF: int := 0x7F_FFFF
  const TWO_64: int := 0x1_0000_0000_0000_0000

  type Seq24 = n: int | 0 <= n < BLOCK

  function Wrap(n: nat): Seq24 {
    n % BLOCK
  }

  function CyclicDifference(a: Seq24, b: Seq24): (d: Seq24)
    ensures (a - b - d) % MASK == 0
  {
    (if a >= b then a - b else MASK - b + a) % BLOCK
  }

  function CyclicDifferenceSigned(a: Seq24, b: Seq24): (d: int) {
    var res := CyclicDifference(a, b);
    if res > MASK / 2 then res - MASK else res
  }

  function CyclicMax(a: Seq24, b: Seq24): (m: Seq24)
  {
    if CyclicDifferenceSigned(a, b) > 0 then a else b
  }

  // The signed difference is the one residue of a - b modulo MASK that lies
  // in the balanced range -HALF..HALF.
  lemma SignedIsBalancedResidue(a: Seq24, b: Seq24, d: int)
    ensures d == CyclicDifferenceSigned(a, b) <==> -HALF <= d <= HALF && (a - b - d) % MASK == 0
  {
  }

  lemma SignedIsAntisymmetric(a: Seq24, b: Seq24)
    ensures CyclicDifferenceSigned(a, b) == -CyclicDifferenceSigned(b, a)
  {
  }

  // The cyclic maximum is the larger number unless the two are more than half
  // the range apart; the pair (0, MASK) is the one exception.
  lemma CyclicMaxIsMax(a: Seq24, b: Seq24)
    ensures CyclicMax(a, b) == (if a >= b then a else b)
       <==> -HALF <= a - b <= HALF || (a == 0 && b == MASK)
  {
  }

  // The receiver buffer and the loss list guess the non-wrapping number that
  // is nearest to the one they expect, and never guess a negative number.
  function Unwrap(expected: nat, sn: Seq24): (g: nat)
  {
    var diff := CyclicDifferenceSigned(Wrap(expected), sn);
    if diff > 0 && diff > expected then sn else expected - diff
  }

  // What a sender can check of t against the number the receiver expects.
  predicate InWindow(expected: nat, t: nat) {
    || -HALF <= expected - t <= HALF
    || (expected < BLOCK && expected + HALF < t < MASK)
  }

  // Unwrapping returns the number that was sent exactly for the numbers in the
  // window that lie in the block of 2^24 numbers of the expected one.
  lemma UnwrapExact(expected: nat, t: nat)
    ensures Unwrap(expected, Wrap(t)) == t <==> expected / BLOCK == t / BLOCK && InWindow(expected, t)
  {
    var p, q := expected / BLOCK, t / BLOCK;
    var x := Wrap(expected) - Wrap(t);
    assert expected == p * BLOCK + Wrap(expected) && t == q * BLOCK + Wrap(t);
    var d := CyclicDifferenceSigned(Wrap(expected), Wrap(t));
    assert d == x || d == x - MASK || d == x + MASK;
    assert expected - t == (p - q) * BLOCK + x;
    if p != q {
      assert (p - q) * BLOCK >= BLOCK || (p - q) * BLOCK <= -BLOCK;
      assert expected - d != t;
      assert d > expected ==> p == 0;
    } else {
      assert q >= 1 ==> expected >= BLOCK;
    }
  }

  // Across a block boundary the two moduli disagree: the last number of block
  // zero, received as stale by a receiver five into block one, is off by one.
  lemma UnwrapFailsAcrossBlocks()
    ensures Unwrap(BLOCK + 5, Wrap(BLOCK - 1)) == BLOCK
  {
  }

  // Recovers an acknowledged number from the newest number sent so far.
  function GuessFromReference(reference: nat, sn: Seq24): (g: nat)
    requires reference < TWO_64
  {
    var wrapped := Wrap(reference);
    ((reference - wrapped) + sn - (if sn > wrapped then MASK else 0)) % TWO_64
  }

  // Of the numbers that can have been acknowledged, those at or below the
  // reference, exactly those in the reference's own block are recovered.
  lemma AckUnwrapExact(reference: nat, t: nat)
    requires t <= reference < TWO_64
    ensures GuessFromReference(reference, Wrap(t)) == t <==> t / BLOCK == reference / BLOCK
  {
    var q, p := reference / BLOCK, t / BLOCK;
    assert reference == q * BLOCK + Wrap(reference) && t == p * BLOCK + Wrap(t);
    assert p <= q;
    if p < q {
      assert (q - p) * BLOCK >= BLOCK;
      assert q * BLOCK >= BLOCK;
    }
  }
}
