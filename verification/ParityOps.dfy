/** Computing, storing and using the parity, in place. */
module ParityOps {
  import opened Common
  import opened Parity

  const QWORD: nat := 8

  /** Parity by words of `width` bytes: 8, or 16 with vector instructions. */
  method CalculateBlockParity(block: seq<Byte>, width: nat, parity: array<Byte>)
    requires |block| == BLOCK && parity.Length == STRIPE && (width == 8 || width == 16)
    modifies parity
    ensures parity[..] == ParityOf(block)
  {
    hide Column;
    var i := 0;
    while i < STRIPE
      invariant 0 <= i <= STRIPE && i % width == 0
      invariant forall j: nat | j < i :: parity[j] == Column(block, j, STRIPES)
    {
      var xor := XorStripes(block, i, width);
      forall x | 0 <= x < width {
        parity[i + x] := xor[x];
      }
      i := i + width;
    }
  }

  /** The word at `i` of the first stripe, combined with those of the others. */
  method XorStripes(block: seq<Byte>, i: nat, width: nat) returns (xor: seq<Byte>)
    requires |block| == BLOCK && i + width <= STRIPE
    ensures |xor| == width && forall x: nat | x < width :: xor[x] == Column(block, i + x, STRIPES)
  {
    xor := block[i..i + width];
    forall x: nat | x < width ensures xor[x] == Column(block, i + x, 1) {
      XorSelf(block[i + x]);
      assert Column(block, i + x, 0) == 0;
    }
    var strp := 1;
    while strp < STRIPES
      invariant 1 <= strp <= STRIPES && |xor| == width
      invariant forall x: nat | x < width :: xor[x] == Column(block, i + x, strp)
    {
      var j := strp * STRIPE + i;
      xor := Xor(xor, block[j..j + width]);
      strp := strp + 1;
    }
  }

  function Qword(block: seq<Byte>, at: nat): (r: seq<Byte>)
    requires at + QWORD <= |block|
    ensures |r| == QWORD
  {
    block[at..at + QWORD]
  }

  /** The eight words of one round of the unrolled loop, combined from the left. */
  function Combine(block: seq<Byte>, at: nat): (r: seq<Byte>)
    requires at + 7 * STRIPE + QWORD <= |block|
    ensures |r| == QWORD
  {
    Xor(Xor(Xor(Xor(Xor(Xor(Xor(Qword(block, at), Qword(block, at + STRIPE)), Qword(block, at + 2 * STRIPE)), Qword(block, at + 3 * STRIPE)),
                    Qword(block, at + 4 * STRIPE)), Qword(block, at + 5 * STRIPE)), Qword(block, at + 6 * STRIPE)), Qword(block, at + 7 * STRIPE))
  }

  /** The `n`-th word of a round holds the column's next byte. */
  lemma ColumnNext(block: seq<Byte>, at: nat, x: nat, n: nat)
    requires |block| == BLOCK && at + QWORD <= STRIPE && x < QWORD && n < STRIPES
    ensures Column(block, at + x, n + 1) == Column(block, at + x, n) ^ Qword(block, at + n * STRIPE)[x]
  {
  }

  lemma ColumnOne(block: seq<Byte>, at: nat, x: nat)
    requires |block| == BLOCK && at + QWORD <= STRIPE && x < QWORD
    ensures Column(block, at + x, 1) == Qword(block, at)[x]
  {
    XorSelf(block[at + x]);
    assert Column(block, at + x, 0) == 0;
  }

  lemma CombineIsColumn(block: seq<Byte>, at: nat, x: nat)
    requires |block| == BLOCK && at + QWORD <= STRIPE && x < QWORD
    ensures Combine(block, at)[x] == Column(block, at + x, STRIPES)
  {
    hide Column, Qword;
    ColumnOne(block, at, x);
    ColumnNext(block, at, x, 1);
    ColumnNext(block, at, x, 2);
    ColumnNext(block, at, x, 3);
    ColumnNext(block, at, x, 4);
    ColumnNext(block, at, x, 5);
    ColumnNext(block, at, x, 6);
    ColumnNext(block, at, x, 7);
  }

  /** The loop unrolled by eight; `at` is how far it has moved the block pointer. */
  method UnrolledParity(block: seq<Byte>, parity: array<Byte>) returns (at: nat)
    requires |block| == BLOCK && parity.Length == STRIPE
    modifies parity
    ensures parity[..] == ParityOf(block)
    ensures at == STRIPE
  {
    at := 0;
    var i := 0;
    while i < STRIPE / QWORD
      invariant 0 <= i <= STRIPE / QWORD && at == QWORD * i
      invariant forall j: nat | j < at :: parity[j] == Column(block, j, STRIPES)
    {
      var xor := Combine(block, at);
      forall x: nat | x < QWORD ensures xor[x] == Column(block, at + x, STRIPES) { CombineIsColumn(block, at, x); }
      forall x | 0 <= x < QWORD {
        parity[QWORD * i + x] := xor[x];
      }
      at := at + QWORD;
      i := i + 1;
    }
  }

  /** How many stripes `bytes` bytes from `offset` on touch. */
  function NumStripes(offset: nat, bytes: nat): nat
    requires bytes > 0
  {
    (offset % STRIPE + bytes - 1) / STRIPE + 1
  }

  function StripeOf(b: nat): nat { b / STRIPE }

  /** Stripe `s` holds a byte that was written. */
  ghost predicate Touched(s: nat, offset: nat, bytes: nat) {
    exists b: nat :: offset <= b < offset + bytes && StripeOf(b) == s
  }

  ghost predicate AllTouched(offset: nat, bytes: nat) {
    forall s: nat | s < STRIPES :: Touched(s, offset, bytes)
  }

  /** The stripes counted from the first are those written to. */
  lemma TouchedAre(s: nat, offset: nat, bytes: nat)
    requires bytes > 0
    ensures Touched(s, offset, bytes) <==> offset / STRIPE <= s < offset / STRIPE + NumStripes(offset, bytes)
  {
    if offset / STRIPE <= s < offset / STRIPE + NumStripes(offset, bytes) {
      var b := if s == offset / STRIPE then offset else s * STRIPE;
      assert offset <= b < offset + bytes && StripeOf(b) == s;
    }
  }

  /** Stripe `s` of what starts `at` bytes into the buffer. */
  function StripeFrom(buf: seq<Byte>, at: nat, s: nat): (r: seq<Byte>)
    requires |buf| == BLOCK + STRIPE && at <= STRIPE && s < STRIPES
    ensures |r| == STRIPE
  {
    buf[at + s * STRIPE..at + (s + 1) * STRIPE]
  }

  /**
   Stores parity and checksums after a write.  `buf` is the block and the 512 bytes of memory behind it.
   The unrolled loop moves the block pointer, and where the processor cannot compute checksums in that
   loop they are computed after it, from the pointer as it then stands.
   */
  method UpdateBlockCsumParity(crc: seq<Byte> -> nat, buf: seq<Byte>, offset: nat, bytes: nat, sse42: bool,
                               dataCsum: bool, dataParity: bool, csums: array<nat>, parity: array<Byte>)
    requires |buf| == BLOCK + STRIPE && bytes > 0 && offset + bytes <= BLOCK
    requires csums.Length == STRIPES && parity.Length == STRIPE
    modifies csums, parity
    ensures dataParity ==> parity[..] == ParityOf(buf[..BLOCK])
    ensures !dataParity ==> parity[..] == old(parity[..])
    ensures forall s: nat | s < STRIPES ::
      csums[s] == if dataCsum && Touched(s, offset, bytes)
                  then crc(StripeFrom(buf, Moved(offset, bytes, sse42), s)) else old(csums[s])
  {
    var block, at := buf[..BLOCK], 0;
    var unrollParity := NumStripes(offset, bytes) == 8;
    var unrollCsum := unrollParity && sse42;
    StripesFit(offset, bytes);
    forall s: nat ensures Touched(s, offset, bytes) <==> offset / STRIPE <= s < offset / STRIPE + NumStripes(offset, bytes) {
      TouchedAre(s, offset, bytes);
    }
    hide Touched, AllTouched;
    if unrollParity {
      var strip := new Byte[STRIPE];
      at := UnrolledParity(block, strip);
      if dataCsum && unrollCsum {
        UpdateStripeCsums(crc, buf, 0, 0, STRIPES, csums);
      }
      if dataParity {
        forall i | 0 <= i < STRIPE { parity[i] := strip[i]; }
        assert parity[..] == strip[..];
      }
    }
    if dataCsum && !unrollCsum {
      UpdateStripeCsums(crc, buf, at, offset / STRIPE, NumStripes(offset, bytes), csums);
    }
    if dataParity && !unrollParity {
      CalculateBlockParity(block, 8, parity);
    }
  }

  /** How far the block pointer has moved when the checksums are computed. */
  ghost function Moved(offset: nat, bytes: nat, sse42: bool): (at: nat)
    ensures at <= STRIPE
  {
    if AllTouched(offset, bytes) && !sse42 then STRIPE else 0
  }

  lemma StripesFit(offset: nat, bytes: nat)
    requires bytes > 0 && offset + bytes <= BLOCK
    ensures offset / STRIPE + NumStripes(offset, bytes) <= STRIPES
    ensures NumStripes(offset, bytes) == 8 ==> offset / STRIPE == 0
    ensures NumStripes(offset, bytes) == 8 <==> AllTouched(offset, bytes)
  {
    forall s: nat ensures Touched(s, offset, bytes) <==> offset / STRIPE <= s < offset / STRIPE + NumStripes(offset, bytes) {
      TouchedAre(s, offset, bytes);
    }
    StripesEnd(offset, bytes);
    if AllTouched(offset, bytes) { assert Touched(0, offset, bytes) && Touched(7, offset, bytes); }
  }

  lemma StripesEnd(offset: nat, bytes: nat)
    requires bytes > 0 && offset + bytes <= BLOCK
    ensures offset / STRIPE + NumStripes(offset, bytes) <= STRIPES
  {
  }

  method UpdateStripeCsums(crc: seq<Byte> -> nat, buf: seq<Byte>, at: nat, first: nat, n: nat, csums: array<nat>)
    requires |buf| == BLOCK + STRIPE && at <= STRIPE && first + n <= STRIPES == csums.Length
    modifies csums
    ensures forall s: nat | s < STRIPES :: csums[s] == if first <= s < first + n then crc(StripeFrom(buf, at, s)) else old(csums[s])
  {
    var s := first;
    while s < first + n
      invariant first <= s <= first + n
      invariant forall m: nat | m < STRIPES :: csums[m] == if first <= m < s then crc(StripeFrom(buf, at, m)) else old(csums[m])
    {
      csums[s] := crc(StripeFrom(buf, at, s));
      s := s + 1;
    }
  }

  /** The checksums an update stores are those of the stripes written to. */
  ghost predicate CsumsStored(crc: seq<Byte> -> nat, buf: seq<Byte>, offset: nat, bytes: nat, sse42: bool)
    requires |buf| == BLOCK + STRIPE
  {
    forall s: nat | s < STRIPES && Touched(s, offset, bytes) ::
      crc(StripeFrom(buf, Moved(offset, bytes, sse42), s)) == crc(Stripe(buf[..BLOCK], s))
  }

  /** A checksum that tells 0 from 1 in the first byte. */
  function FirstByte(s: seq<Byte>): nat {
    if s == [] then 0 else s[0] as nat
  }

  /** A block whose first stripe differs from its second. */
  function FirstApart(): (buf: seq<Byte>)
    ensures |buf| == BLOCK + STRIPE
  {
    [1] + seq(BLOCK + STRIPE - 1, _ => 0)
  }

  /** Where the whole block is written and the processor cannot checksum in the loop, stripe 0 gets that of stripe 1. */
  lemma CsumsWrong(offset: nat, bytes: nat, sse42: bool)
    requires AllTouched(offset, bytes) && !sse42
    ensures FirstByte(StripeFrom(FirstApart(), Moved(offset, bytes, sse42), 0)) == 0
    ensures FirstByte(Stripe(FirstApart()[..BLOCK], 0)) == 1
    ensures !CsumsStored(FirstByte, FirstApart(), offset, bytes, sse42)
  {
    assert StripeFrom(FirstApart(), Moved(offset, bytes, sse42), 0)[0] == 0;
    assert Stripe(FirstApart()[..BLOCK], 0)[0] == 1;
    assert Touched(0, offset, bytes);
  }

  /** A write stores the right checksums, whatever they are and whatever it writes, unless it touches every stripe without the instruction. */
  lemma CsumsRight(offset: nat, bytes: nat, sse42: bool)
    ensures (forall crc: seq<Byte> -> nat, buf: seq<Byte> | |buf| == BLOCK + STRIPE :: CsumsStored(crc, buf, offset, bytes, sse42))
            <==> (!AllTouched(offset, bytes) || sse42)
  {
    if !AllTouched(offset, bytes) || sse42 {
      forall crc: seq<Byte> -> nat, buf: seq<Byte> | |buf| == BLOCK + STRIPE ensures CsumsStored(crc, buf, offset, bytes, sse42) {
        forall s: nat | s < STRIPES ensures StripeFrom(buf, 0, s) == Stripe(buf[..BLOCK], s) {
        }
      }
    } else {
      CsumsWrong(offset, bytes, sse42);
    }
  }

  /** Repairs stripe `k` of the block in place, if a candidate has one of the given checksums. */
  method RestoreData(crc: seq<Byte> -> nat, nvmm: array<Byte>, parity: seq<Byte>, k: nat, bad: seq<Byte>, nvmmerr: bool,
                     csum0: nat, csum1: nat) returns (ok: bool, csumGood: nat)
    requires nvmm.Length == BLOCK && |parity| == STRIPE && |bad| == STRIPE && k < STRIPES
    modifies nvmm
    ensures ok ==> exists n: nat | n < if nvmmerr || k == STRIPES - 1 then 1 else STRIPE ::
      && Accepts(crc, old(nvmm[..]), parity, k, bad, nvmmerr, csum0, csum1, n)
      && nvmm[..] == WithStripe(old(nvmm[..]), k, Candidate(old(nvmm[..]), parity, k, bad, n))
      && csumGood == crc(Candidate(old(nvmm[..]), parity, k, bad, n))
    ensures !ok ==> nvmm[..] == old(nvmm[..])
    ensures !ok ==> forall n: nat :: !Accepts(crc, old(nvmm[..]), parity, k, bad, nvmmerr, csum0, csum1, n)
  {
    hide Candidate, Rebuilt, Matches, WithStripe;
    ghost var was := nvmm[..];
    var block := GatherStripes(nvmm, parity, k);
    var strip := new Byte[STRIPE];
    CalculateBlockParity(block, 8, strip);
    RebuiltIs(was, parity, k);
    ok, csumGood := false, 0;
    var i := 0;
    while i < STRIPE
      invariant 0 <= i <= STRIPE && nvmm[..] == was && !ok && strip.Length == STRIPE
      invariant strip[..] == if i == 0 then Rebuilt(was, parity, k) else Candidate(was, parity, k, bad, i - 1)
      invariant i > 0 ==> Tries(k, nvmmerr) == STRIPE
      invariant forall j: nat | j < i :: !Matches(crc, Candidate(was, parity, k, bad, j), csum0, csum1)
    {
      KeepGood(strip, bad, i);
      CandidateNext(was, parity, k, bad, i);
      csumGood := crc(strip[..]);
      MatchIs(crc, strip[..], csum0, csum1);
      if csumGood == csum0 || csumGood == csum1 {
        ok := true;
        break;
      }
      if nvmmerr || k == STRIPES - 1 { break; }
      i := i + 1;
    }
    if ok {
      Put(nvmm, k, strip);
      assert Accepts(crc, was, parity, k, bad, nvmmerr, csum0, csum1, i);
    }
  }

  lemma RebuiltIs(block: seq<Byte>, parity: seq<Byte>, k: nat)
    requires |block| == BLOCK && |parity| == STRIPE && k < STRIPES
    ensures ParityOf(WithStripe(block, k, parity)) == Rebuilt(block, parity, k)
  {
  }

  lemma MatchIs(crc: seq<Byte> -> nat, s: seq<Byte>, csum0: nat, csum1: nat)
    ensures Matches(crc, s, csum0, csum1) <==> crc(s) == csum0 || crc(s) == csum1
  {
  }

  /** One more good byte at a time. */
  lemma CandidateNext(block: seq<Byte>, parity: seq<Byte>, k: nat, bad: seq<Byte>, i: nat)
    requires |block| == BLOCK && |parity| == STRIPE && |bad| == STRIPE && k < STRIPES && i < STRIPE
    ensures bad[..i] + (if i == 0 then Rebuilt(block, parity, k) else Candidate(block, parity, k, bad, i - 1))[i..]
         == Candidate(block, parity, k, bad, i)
  {
  }

  method KeepGood(strip: array<Byte>, bad: seq<Byte>, n: nat)
    requires strip.Length == |bad| == STRIPE && n <= STRIPE
    modifies strip
    ensures strip[..] == bad[..n] + old(strip[..])[n..]
  {
    forall x | 0 <= x < n { strip[x] := bad[x]; }
  }

  method Put(nvmm: array<Byte>, k: nat, strip: array<Byte>)
    requires nvmm.Length == BLOCK && strip.Length == STRIPE && k < STRIPES && nvmm != strip
    modifies nvmm
    ensures nvmm[..] == WithStripe(old(nvmm[..]), k, strip[..])
  {
    forall x | 0 <= x < STRIPE { nvmm[k * STRIPE + x] := strip[x]; }
  }

  lemma GatherNext(block: seq<Byte>, parity: seq<Byte>, k: nat, i: nat)
    requires |block| == BLOCK && |parity| == STRIPE && k < STRIPES && i < STRIPES
    ensures WithStripe(block, k, parity)[..(i + 1) * STRIPE]
         == WithStripe(block, k, parity)[..i * STRIPE] + if i == k then parity else block[i * STRIPE..i * STRIPE + STRIPE]
  {
  }

  /** A copy of the block with the parity in place of the bad stripe. */
  method GatherStripes(nvmm: array<Byte>, parity: seq<Byte>, k: nat) returns (block: seq<Byte>)
    requires nvmm.Length == BLOCK && |parity| == STRIPE && k < STRIPES
    ensures block == WithStripe(nvmm[..], k, parity)
  {
    block := [];
    var i := 0;
    while i < STRIPES
      invariant 0 <= i <= STRIPES && block == WithStripe(nvmm[..], k, parity)[..i * STRIPE]
    {
      var offset := i * STRIPE;
      GatherNext(nvmm[..], parity, k, i);
      block := block + if i == k then parity else nvmm[offset..offset + STRIPE];
      i := i + 1;
    }
  }

  /** Recovering a scribble of at most a stripe's length writes back exactly the original stripe. */
  method RecoverScribble(crc: seq<Byte> -> nat, nvmm: array<Byte>, k: nat, csum0: nat, csum1: nat, ghost original: seq<Byte>, ghost i: nat,
                         parity: seq<Byte>) returns (ok: bool, csumGood: nat)
    requires nvmm.Length == |original| == BLOCK && k < STRIPES && parity == ParityOf(original) && CollisionFree(crc)
    requires i < (if k == STRIPES - 1 then 1 else STRIPE) && Scribbled(original, nvmm[..], k, i)
    requires Sound(crc, Stripe(original, k), csum0) && Sound(crc, Stripe(original, k), csum1)
    requires csum0 == crc(Stripe(original, k)) || csum1 == crc(Stripe(original, k))
    modifies nvmm
    ensures ok && csumGood == crc(Stripe(original, k)) && nvmm[..] == WithStripe(old(nvmm[..]), k, Stripe(original, k))
  {
    ghost var was := nvmm[..];
    ScribbleAccepted(crc, original, was, k, i, false, csum0, csum1);
    var bad := nvmm[k * STRIPE..(k + 1) * STRIPE];
    assert bad == Stripe(was, k);
    ok, csumGood := RestoreData(crc, nvmm, parity, k, bad, false, csum0, csum1);
    ghost var n: nat :| n < STRIPE
      && Accepts(crc, was, parity, k, bad, false, csum0, csum1, n)
      && nvmm[..] == WithStripe(was, k, Candidate(was, parity, k, bad, n))
      && csumGood == crc(Candidate(was, parity, k, bad, n));
    AcceptedIsOriginal(crc, original, was, k, false, csum0, csum1, n);
  }
}
