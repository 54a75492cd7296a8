/**
 Stripe parity of a 4096-byte data block: eight 512-byte stripes whose exclusive or is kept elsewhere, and
 a damaged stripe rebuilt from the other seven.
 */
module Parity {
  import opened Common

  const STRIPE: nat := 512
  const STRIPES: nat := 8
  const BLOCK: nat := 4096

  // ---------------------------------------------------------------- exclusive or

  lemma XorComm(a: Byte, b: Byte)
    ensures a ^ b == b ^ a
  {
  }

  lemma XorAssoc(a: Byte, b: Byte, c: Byte)
    ensures (a ^ b) ^ c == a ^ (b ^ c)
  {
  }

  lemma XorSelf(a: Byte)
    ensures a ^ a == 0 && a ^ 0 == a && 0 ^ a == a
  {
  }

  function Xor(a: seq<Byte>, b: seq<Byte>): (r: seq<Byte>)
    requires |a| == |b|
    ensures |r| == |a|
  {
    seq(|a|, i requires 0 <= i < |a| => a[i] ^ b[i])
  }

  /** The exclusive or of the first `n` stripes at byte `j`. */
  function Column(block: seq<Byte>, j: nat, n: nat): Byte
    requires |block| == BLOCK && j < STRIPE && n <= STRIPES
  {
    if n == 0 then 0 else Column(block, j, n - 1) ^ block[(n - 1) * STRIPE + j]
  }

  function ParityOf(block: seq<Byte>): (r: seq<Byte>)
    requires |block| == BLOCK
    ensures |r| == STRIPE
  {
    seq(STRIPE, j requires 0 <= j < STRIPE => Column(block, j, STRIPES))
  }

  function Stripe(block: seq<Byte>, k: nat): (r: seq<Byte>)
    requires |block| == BLOCK && k < STRIPES
    ensures |r| == STRIPE
  {
    block[k * STRIPE..(k + 1) * STRIPE]
  }

  function WithStripe(block: seq<Byte>, k: nat, s: seq<Byte>): (r: seq<Byte>)
    requires |block| == BLOCK && k < STRIPES && |s| == STRIPE
    ensures |r| == BLOCK
  {
    block[..k * STRIPE] + s + block[(k + 1) * STRIPE..]
  }

  lemma WithStripeAt(block: seq<Byte>, k: nat, s: seq<Byte>, m: nat, j: nat)
    requires |block| == BLOCK && k < STRIPES && |s| == STRIPE && m < STRIPES && j < STRIPE
    ensures WithStripe(block, k, s)[m * STRIPE + j] == if m == k then s[j] else block[m * STRIPE + j]
  {
  }

  /** Changing one stripe changes a column by the old and the new byte. */
  lemma {:induction false} ColumnChange(block: seq<Byte>, k: nat, s: seq<Byte>, j: nat, n: nat)
    requires |block| == BLOCK && k < STRIPES && |s| == STRIPE && j < STRIPE && n <= STRIPES
    ensures Column(WithStripe(block, k, s), j, n) ==
            if k < n then (Column(block, j, n) ^ block[k * STRIPE + j]) ^ s[j] else Column(block, j, n)
  {
    if n > 0 {
      ColumnChange(block, k, s, j, n - 1);
      WithStripeAt(block, k, s, n - 1, j);
      var c, old', new' := Column(block, j, n - 1), block[k * STRIPE + j], s[j];
      if k == n - 1 {
        XorAssoc(c, old', old');
        XorSelf(old');
        XorSelf(c);
      } else if k < n - 1 {
        Shuffle(c, old', new', block[(n - 1) * STRIPE + j]);
      }
    }
  }

  lemma Shuffle(c: Byte, x: Byte, y: Byte, z: Byte)
    ensures ((c ^ x) ^ y) ^ z == ((c ^ z) ^ x) ^ y
  {
    XorAssoc(c ^ x, y, z);
    XorComm(y, z);
    XorAssoc(c ^ x, z, y);
    XorAssoc(c, x, z);
    XorComm(x, z);
    XorAssoc(c, z, x);
  }

  lemma {:induction false} ColumnSame(a: seq<Byte>, b: seq<Byte>, j: nat, n: nat)
    requires |a| == |b| == BLOCK && j < STRIPE && n <= STRIPES
    requires forall m: nat | m < n :: a[m * STRIPE + j] == b[m * STRIPE + j]
    ensures Column(a, j, n) == Column(b, j, n)
  {
    if n > 0 { ColumnSame(a, b, j, n - 1); }
  }

  // ---------------------------------------------------------------- rebuilding a stripe

  /** The stripe computed from the parity and the other seven stripes. */
  function Rebuilt(block: seq<Byte>, parity: seq<Byte>, k: nat): (r: seq<Byte>)
    requires |block| == BLOCK && |parity| == STRIPE && k < STRIPES
    ensures |r| == STRIPE
  {
    ParityOf(WithStripe(block, k, parity))
  }

  /** With `i` good bytes at the start of the damaged stripe. */
  function Candidate(block: seq<Byte>, parity: seq<Byte>, k: nat, bad: seq<Byte>, i: nat): (r: seq<Byte>)
    requires |block| == BLOCK && |parity| == STRIPE && |bad| == STRIPE && k < STRIPES && i <= STRIPE
    ensures |r| == STRIPE
  {
    bad[..i] + Rebuilt(block, parity, k)[i..]
  }

  /** Where the other stripes hold their original bytes, so does the rebuilt one. */
  lemma RebuiltAt(original: seq<Byte>, block: seq<Byte>, k: nat, j: nat)
    requires |original| == |block| == BLOCK && k < STRIPES && j < STRIPE
    requires forall m: nat | m < STRIPES && m != k :: block[m * STRIPE + j] == original[m * STRIPE + j]
    ensures Rebuilt(block, ParityOf(original), k)[j] == original[k * STRIPE + j]
  {
    var p := ParityOf(original);
    var a, b := WithStripe(block, k, p), WithStripe(original, k, p);
    forall m: nat | m < STRIPES ensures a[m * STRIPE + j] == b[m * STRIPE + j] {
      WithStripeAt(block, k, p, m, j);
      WithStripeAt(original, k, p, m, j);
    }
    ColumnSame(a, b, j, STRIPES);
    ColumnChange(original, k, p, j, STRIPES);
    var c, x := Column(original, j, STRIPES), original[k * STRIPE + j];
    XorComm(c, x);
    XorAssoc(x, c, c);
    XorSelf(c);
    XorSelf(x);
  }

  /** The damage lies within `[k * 512 + i, (k + 1) * 512 + i)`: no longer than a stripe, over at most two. */
  ghost predicate Scribbled(original: seq<Byte>, block: seq<Byte>, k: nat, i: nat)
    requires |original| == |block| == BLOCK && k < STRIPES
  {
    forall b: nat | b < BLOCK && !(k * STRIPE + i <= b < (k + 1) * STRIPE + i) :: block[b] == original[b]
  }

  /** The candidate that keeps the bytes before the damage is the original stripe. */
  lemma CandidateIsOriginal(original: seq<Byte>, block: seq<Byte>, k: nat, i: nat)
    requires |original| == |block| == BLOCK && k < STRIPES && i < STRIPE && Scribbled(original, block, k, i)
    ensures Candidate(block, ParityOf(original), k, Stripe(block, k), i) == Stripe(original, k)
  {
    var c, s := Candidate(block, ParityOf(original), k, Stripe(block, k), i), Stripe(original, k);
    forall j: nat | j < STRIPE ensures c[j] == s[j] {
      if j < i {
        assert block[k * STRIPE + j] == original[k * STRIPE + j];
      } else {
        forall m: nat | m < STRIPES && m != k ensures block[m * STRIPE + j] == original[m * STRIPE + j] {
        }
        RebuiltAt(original, block, k, j);
      }
    }
  }

  // ---------------------------------------------------------------- the checksum decides

  predicate Matches(crc: seq<Byte> -> nat, s: seq<Byte>, csum0: nat, csum1: nat) {
    crc(s) == csum0 || crc(s) == csum1
  }

  ghost predicate CollisionFree(crc: seq<Byte> -> nat) {
    forall a, b | |a| == |b| == STRIPE && crc(a) == crc(b) :: a == b
  }

  /** A stored checksum is right, or damaged beyond being taken for that of any stripe. */
  ghost predicate Sound(crc: seq<Byte> -> nat, s: seq<Byte>, csum: nat) {
    csum == crc(s) || forall x | |x| == STRIPE :: crc(x) != csum
  }

  /** How many good bytes at the start recovery supposes at most. */
  function Tries(k: nat, nvmmerr: bool): nat { if nvmmerr || k == STRIPES - 1 then 1 else STRIPE }

  /** The first candidate that the checksums accept. */
  ghost predicate Accepts(crc: seq<Byte> -> nat, block: seq<Byte>, parity: seq<Byte>, k: nat, bad: seq<Byte>, nvmmerr: bool, csum0: nat, csum1: nat, i: nat)
    requires |block| == BLOCK && |parity| == STRIPE && |bad| == STRIPE && k < STRIPES
  {
    && i < Tries(k, nvmmerr) <= STRIPE
    && Matches(crc, Candidate(block, parity, k, bad, i), csum0, csum1)
    && forall j: nat | j < i :: !Matches(crc, Candidate(block, parity, k, bad, j), csum0, csum1)
  }

  /** Without collisions nothing but the original is ever accepted. */
  lemma AcceptedIsOriginal(crc: seq<Byte> -> nat, original: seq<Byte>, block: seq<Byte>, k: nat, nvmmerr: bool, csum0: nat, csum1: nat, n: nat)
    requires |original| == |block| == BLOCK && k < STRIPES && CollisionFree(crc)
    requires Sound(crc, Stripe(original, k), csum0) && Sound(crc, Stripe(original, k), csum1)
    requires Accepts(crc, block, ParityOf(original), k, Stripe(block, k), nvmmerr, csum0, csum1, n)
    ensures Candidate(block, ParityOf(original), k, Stripe(block, k), n) == Stripe(original, k)
  {
  }

  /** Such a scribble is always repaired: some candidate is accepted. */
  lemma ScribbleAccepted(crc: seq<Byte> -> nat, original: seq<Byte>, block: seq<Byte>, k: nat, i: nat, nvmmerr: bool, csum0: nat, csum1: nat)
    requires |original| == |block| == BLOCK && k < STRIPES && Scribbled(original, block, k, i)
    requires i < if nvmmerr || k == STRIPES - 1 then 1 else STRIPE
    requires csum0 == crc(Stripe(original, k)) || csum1 == crc(Stripe(original, k))
    ensures exists n: nat :: Accepts(crc, block, ParityOf(original), k, Stripe(block, k), nvmmerr, csum0, csum1, n)
  {
    CandidateIsOriginal(original, block, k, i);
    var n := FirstMatch(crc, block, ParityOf(original), k, Stripe(block, k), csum0, csum1, i);
    assert Accepts(crc, block, ParityOf(original), k, Stripe(block, k), nvmmerr, csum0, csum1, n);
  }

  lemma {:induction false} FirstMatch(crc: seq<Byte> -> nat, block: seq<Byte>, parity: seq<Byte>, k: nat, bad: seq<Byte>, csum0: nat, csum1: nat, i: nat)
    returns (n: nat)
    requires |block| == BLOCK && |parity| == STRIPE && |bad| == STRIPE && k < STRIPES && i < STRIPE
    requires Matches(crc, Candidate(block, parity, k, bad, i), csum0, csum1)
    ensures n <= i && Matches(crc, Candidate(block, parity, k, bad, n), csum0, csum1)
    ensures forall j: nat | j < n :: !Matches(crc, Candidate(block, parity, k, bad, j), csum0, csum1)
    decreases i
  {
    if j: nat :| j < i && Matches(crc, Candidate(block, parity, k, bad, j), csum0, csum1) {
      n := FirstMatch(crc, block, parity, k, bad, csum0, csum1, j);
    } else {
      n := i;
    }
  }

  /** A scribble over two stripes is undone by recovering first the one, then the other. */
  lemma BothStripes(original: seq<Byte>, block: seq<Byte>, k: nat, i: nat)
    requires |original| == |block| == BLOCK && k + 1 < STRIPES && i < STRIPE && Scribbled(original, block, k, i)
    ensures var once := WithStripe(block, k, Candidate(block, ParityOf(original), k, Stripe(block, k), i));
            WithStripe(once, k + 1, Candidate(once, ParityOf(original), k + 1, Stripe(once, k + 1), 0)) == original
  {
    CandidateIsOriginal(original, block, k, i);
    var once := WithStripe(block, k, Stripe(original, k));
    assert Scribbled(original, once, k + 1, 0);
    CandidateIsOriginal(original, once, k + 1, 0);
    assert WithStripe(once, k + 1, Stripe(original, k + 1)) == original;
  }
}
