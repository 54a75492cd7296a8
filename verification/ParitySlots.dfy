/**
 How the blocks of a device are dealt out to the per-CPU lists, and where the parity stripe and the
 checksums of a block are kept.
 */
module ParitySlots {
  import opened Common
  import opened Arith

  const PAGE: nat := 4096
  const STRIPE: nat := 512
  const CSUM: nat := 4

  /** What is left of a list's share for allocation, and the areas cut off its ends. */
  datatype Layout = Layout(
    start: int, end: int, csumStart: int, numCsum: int, replicaCsum: int, parityStart: int, numParity: int)

  datatype Device = Device(initsize: nat, cpus: nat, head: nat, tail: nat)
  {
    predicate Valid() { cpus > 0 && NumBlocks() >= cpus }

    function NumBlocks(): nat { initsize / PAGE }

    function PerList(): nat
      requires cpus > 0
    {
      NumBlocks() / cpus
    }

    function CsumBlocks(): nat { initsize / STRIPE * CSUM / PAGE }

    /** One stripe for eight blocks, themselves among those to be shared out. */
    function ParityBlocks(): nat { Ceil(NumBlocks(), PAGE / STRIPE + 1) }
  }

  function Ceil(x: nat, n: nat): nat
    requires n > 0
  {
    x / n + if x % n != 0 then 1 else 0
  }

  lemma CeilCovers(x: nat, n: nat)
    requires n > 0
    ensures x <= Ceil(x, n) * n
  {
    DivBounds(x, n);
    MulDistr(x / n, 1, n);
  }

  class FreeListBounds {
    var blockStart: int
    var blockEnd: int
    var csumStart: int
    var numCsum: int
    var replicaCsum: int
    var parityStart: int
    var numParity: int

    function View(): Layout
      reads this
    {
      Layout(blockStart, blockEnd, csumStart, numCsum, replicaCsum, parityStart, numParity)
    }

    method DataCsumInit(d: Device)
      requires d.Valid()
      modifies this
      ensures View() == Csummed(old(View()), d)
    {
      var n := d.CsumBlocks();
      csumStart := blockStart;
      blockStart := blockStart + n / d.cpus;
      if n % d.cpus != 0 { blockStart := blockStart + 1; }
      numCsum := blockStart - csumStart;
      replicaCsum := blockEnd + 1 - numCsum;
      blockEnd := blockEnd - numCsum;
    }

    method DataParityInit(d: Device)
      requires d.Valid()
      modifies this
      ensures View() == Paritied(old(View()), d)
    {
      var total := d.NumBlocks();
      var n := total / (PAGE / STRIPE + 1);
      if total % (PAGE / STRIPE + 1) != 0 { n := n + 1; }
      parityStart := blockStart;
      blockStart := blockStart + n / d.cpus;
      if n % d.cpus != 0 { blockStart := blockStart + 1; }
      numParity := blockStart - parityStart;
    }

    method InitFreeList(d: Device, index: nat)
      requires d.Valid() && index < d.cpus
      modifies this
      ensures View() == LayoutOf(d, index)
    {
      var per := d.NumBlocks() / d.cpus;
      blockStart := per * index;
      blockEnd := blockStart + per - 1;
      if index == 0 { blockStart := blockStart + d.head; }
      if index == d.cpus - 1 { blockEnd := blockEnd - d.tail; }
      DataCsumInit(d);
      DataParityInit(d);
    }
  }

  function Csummed(l: Layout, d: Device): Layout
    requires d.cpus > 0
  {
    var n := Ceil(d.CsumBlocks(), d.cpus);
    l.(csumStart := l.start, start := l.start + n, numCsum := n, replicaCsum := l.end + 1 - n, end := l.end - n)
  }

  function Paritied(l: Layout, d: Device): Layout
    requires d.cpus > 0
  {
    var n := Ceil(d.ParityBlocks(), d.cpus);
    l.(parityStart := l.start, start := l.start + n, numParity := n)
  }

  function LayoutOf(d: Device, index: nat): Layout
    requires d.Valid() && index < d.cpus
  {
    var first := d.PerList() * index;
    var start := first + if index == 0 then d.head else 0;
    var end := first + d.PerList() - 1 - if index == d.cpus - 1 then d.tail else 0;
    Paritied(Csummed(Layout(start, end, 0, 0, 0, 0, 0), d), d)
  }

  predicate Allocatable(d: Device, index: nat, b: nat)
    requires d.Valid() && index < d.cpus
  {
    LayoutOf(d, index).start <= b <= LayoutOf(d, index).end
  }

  // ---------------------------------------------------------------- the parity slot of a block

  function GetParityAddr(d: Device, b: nat): Option<int>
    requires d.Valid()
  {
    var index := b / d.PerList();
    if index >= d.cpus then None
    else
      var l := LayoutOf(d, index);
      if b < l.start || (b - l.start) / (PAGE / STRIPE) >= l.numParity then None
      else Some(l.parityStart * PAGE + (b - l.start) * STRIPE)
  }

  /** The share of a list holds at most nine blocks for each of its parity blocks. */
  lemma NineToOne(d: Device)
    requires d.Valid()
    ensures d.PerList() <= 9 * Ceil(d.ParityBlocks(), d.cpus)
  {
    var n, p := d.NumBlocks(), d.ParityBlocks();
    var c := Ceil(p, d.cpus);
    CeilCovers(n, 9);
    CeilCovers(p, d.cpus);
    DivBounds(n, d.cpus);
    MulAssoc(9, c, d.cpus);
    assert d.PerList() * d.cpus <= n <= 9 * p <= 9 * (c * d.cpus);
    if 9 * c < d.PerList() {
      MulMono(9 * c + 1, d.PerList(), d.cpus);
      MulDistr(9 * c, 1, d.cpus);
    }
  }

  lemma InShare(d: Device, index: nat, b: nat)
    requires d.Valid() && index < d.cpus && Allocatable(d, index, b)
    ensures b / d.PerList() == index
    ensures d.PerList() * index <= LayoutOf(d, index).csumStart
    ensures LayoutOf(d, index).end + LayoutOf(d, index).numCsum < d.PerList() * (index + 1)
    ensures LayoutOf(d, index).numCsum >= 0 && LayoutOf(d, index).numParity >= 0
  {
    var per := d.PerList();
    DivPos(d.NumBlocks(), d.cpus);
    assert per * (index + 1) == per * index + per;
    Commute(per, index);
    MulDistr(index, 1, per);
    Multiples(b, index, per);
  }

  /** The areas at its front keep the first block of a share from being dealt out, so no run crosses shares. */
  lemma NeverFirst(d: Device, index: nat, b: nat)
    requires d.Valid() && index < d.cpus && Allocatable(d, index, b)
    ensures b / d.PerList() == index && b % d.PerList() != 0
  {
    hide Allocatable, Device.PerList;
    InShare(d, index, b);
    PastParity(d, index, b);
    DivPos(d.NumBlocks(), d.cpus);
    PastStart(b, d.PerList(), index);
  }

  lemma PastStart(b: nat, per: nat, index: nat)
    requires per > 0 && b / per == index && per * index < b
    ensures b % per != 0
  {
  }

  lemma PastParity(d: Device, index: nat, b: nat)
    requires d.Valid() && index < d.cpus && Allocatable(d, index, b)
    ensures d.PerList() > 0 && d.PerList() * index < b
  {
    hide Device.PerList;
    InShare(d, index, b);
    PerListPos(d);
    HasParity(d);
  }

  lemma PerListPos(d: Device)
    requires d.Valid()
    ensures d.PerList() > 0
  {
    DivPos(d.NumBlocks(), d.cpus);
  }

  lemma HasParity(d: Device)
    requires d.Valid()
    ensures Ceil(d.ParityBlocks(), d.cpus) > 0
  {
    CeilCovers(d.NumBlocks(), 9);
    CeilCovers(d.ParityBlocks(), d.cpus);
  }

  lemma DivPos(x: nat, n: nat)
    requires n > 0 && x >= n
    ensures x / n > 0
  {
  }

  lemma Commute(a: int, b: int)
    ensures a * b == b * a
  {
  }

  /** Every allocatable block has a slot inside the parity area of its list, in front of what may be allocated. */
  lemma ParitySlot(d: Device, index: nat, b: nat)
    requires d.Valid() && index < d.cpus && Allocatable(d, index, b)
    ensures var l := LayoutOf(d, index);
            GetParityAddr(d, b) == Some(l.parityStart * PAGE + (b - l.start) * STRIPE) &&
            l.parityStart * PAGE <= GetParityAddr(d, b).value &&
            GetParityAddr(d, b).value + STRIPE <= (l.parityStart + l.numParity) * PAGE &&
            l.parityStart + l.numParity == l.start
  {
    var l := LayoutOf(d, index);
    InShare(d, index, b);
    NineToOne(d);
    Commute(d.PerList(), index);
    assert d.PerList() * (index + 1) == d.PerList() * index + d.PerList();
    assert b - l.start < 8 * l.numParity;
  }

  /** Different blocks have slots that do not overlap, whichever lists they belong to. */
  lemma SlotsDistinct(d: Device, i: nat, b: nat, j: nat, c: nat)
    requires d.Valid() && i < d.cpus && j < d.cpus && Allocatable(d, i, b) && Allocatable(d, j, c) && b < c
    ensures GetParityAddr(d, b).Some? && GetParityAddr(d, c).Some?
    ensures GetParityAddr(d, b).value + STRIPE <= GetParityAddr(d, c).value
  {
    ParitySlot(d, i, b);
    ParitySlot(d, j, c);
    if i != j { SharesApart(d, i, b, j, c); }
  }

  /** A list's areas and its blocks lie before those of the next list. */
  lemma SharesApart(d: Device, i: nat, b: nat, j: nat, c: nat)
    requires d.Valid() && i < d.cpus && j < d.cpus && i != j && Allocatable(d, i, b) && Allocatable(d, j, c) && b < c
    ensures i < j && LayoutOf(d, i).start <= LayoutOf(d, i).end + LayoutOf(d, i).numCsum < LayoutOf(d, j).csumStart <= LayoutOf(d, j).parityStart
  {
    InShare(d, i, b);
    InShare(d, j, c);
    DivPos(d.NumBlocks(), d.cpus);
    DivMono(b, c, d.PerList());
    Commute(d.PerList(), i + 1);
    Commute(d.PerList(), j);
    MulMono(i + 1, j, d.PerList());
  }

  /** No allocatable block lies in any list's parity area. */
  lemma ParityNeverAllocated(d: Device, i: nat, b: nat, j: nat, c: nat)
    requires d.Valid() && i < d.cpus && j < d.cpus && Allocatable(d, i, b) && Allocatable(d, j, c)
    ensures var l := LayoutOf(d, i); !(l.parityStart <= c < l.parityStart + l.numParity)
    ensures var l := LayoutOf(d, i); !(l.csumStart <= c < l.csumStart + l.numCsum)
    ensures var l := LayoutOf(d, i); !(l.replicaCsum <= c < l.replicaCsum + l.numCsum)
  {
    InShare(d, i, b);
    InShare(d, j, c);
    if i != j {
      if b < c { SharesApart(d, i, b, j, c); } else { SharesApart(d, j, c, i, b); }
    }
  }

  // ---------------------------------------------------------------- the checksum slot of a stripe

  /** Where the checksum of stripe `s` is kept, and its replica. */
  function GetCsumAddr(d: Device, s: nat, replica: bool): Option<int>
    requires d.Valid()
  {
    var index := s / (PAGE / STRIPE) / d.PerList();
    if index >= d.cpus then None
    else
      var l := LayoutOf(d, index);
      var local := s - index * d.PerList() * (PAGE / STRIPE);
      if local < 0 || CSUM * local / PAGE >= l.numCsum then None
      else Some(CsumStart(l, replica) * PAGE + CSUM * local)
  }

  /** The stripes of a block have room for their checksums exactly while the list's checksum blocks reach that far. */
  lemma CsumSlots(d: Device, index: nat, b: nat, replica: bool)
    requires d.Valid() && index < d.cpus && Allocatable(d, index, b)
    ensures (forall s: nat | b * 8 <= s < (b + 1) * 8 :: GetCsumAddr(d, s, replica).Some?) <==> b - index * d.PerList() < 128 * LayoutOf(d, index).numCsum
  {
    InShare(d, index, b);
    var first := index * d.PerList();
    Commute(index, d.PerList());
    forall s: nat | b * 8 <= s < (b + 1) * 8
      ensures GetCsumAddr(d, s, replica).Some? <==> b - first < 128 * LayoutOf(d, index).numCsum
    {
      assert s / 8 == b;
    }
    if forall s: nat | b * 8 <= s < (b + 1) * 8 :: GetCsumAddr(d, s, replica).Some? {
      assert GetCsumAddr(d, b * 8, replica).Some?;
    }
  }

  predicate StripeOf(s: nat, b: nat) { b * 8 <= s < (b + 1) * 8 }

  /** A checksum's slot lies in the list's area for checksums, or for their replicas. */
  lemma CsumSlotInArea(d: Device, index: nat, b: nat, s: nat, replica: bool)
    requires d.Valid() && index < d.cpus && Allocatable(d, index, b) && StripeOf(s, b) && GetCsumAddr(d, s, replica).Some?
    ensures var l := LayoutOf(d, index);
            var area := CsumStart(l, replica);
            && GetCsumAddr(d, s, replica).value == area * PAGE + CSUM * (s - 8 * (index * d.PerList()))
            && area * PAGE <= GetCsumAddr(d, s, replica).value && GetCsumAddr(d, s, replica).value + CSUM <= (area + l.numCsum) * PAGE
  {
    InShare(d, index, b);
    hide Allocatable, LayoutOf, Device.PerList;
    assert s / 8 == b;
    SlotFits(s - index * d.PerList() * 8, LayoutOf(d, index).numCsum);
    EightTimes(index, d.PerList());
  }

  lemma SlotFits(local: int, n: int)
    requires local >= 0 && CSUM * local / PAGE < n
    ensures CSUM * local + CSUM <= n * PAGE
  {
  }

  lemma EightTimes(index: nat, per: nat)
    ensures index * per * 8 == 8 * (index * per)
  {
  }

  /** The two areas of a list that has anything to allocate lie apart, within the share of the list. */
  lemma CsumAreas(d: Device, index: nat, b: nat)
    requires d.Valid() && index < d.cpus && Allocatable(d, index, b)
    ensures var l := LayoutOf(d, index); l.csumStart + l.numCsum <= l.replicaCsum
    ensures var l := LayoutOf(d, index); d.PerList() * index <= l.csumStart && l.replicaCsum + l.numCsum <= d.PerList() * (index + 1)
  {
    InShare(d, index, b);
  }

  /** Different stripes, or a checksum and its replica, have slots that do not overlap, whichever lists they belong to. */
  lemma CsumSlotsDistinct(d: Device, i: nat, b: nat, s: nat, j: nat, c: nat, t: nat, replica: bool, other: bool)
    requires d.Valid() && i < d.cpus && j < d.cpus && Allocatable(d, i, b) && Allocatable(d, j, c)
    requires StripeOf(s, b) && StripeOf(t, c) && (s < t || (s == t && !replica && other))
    requires GetCsumAddr(d, s, replica).Some? && GetCsumAddr(d, t, other).Some?
    ensures var v, w := GetCsumAddr(d, s, replica).value, GetCsumAddr(d, t, other).value; v + CSUM <= w || w + CSUM <= v
  {
    CsumSlotInArea(d, i, b, s, replica);
    CsumSlotInArea(d, j, c, t, other);
    if i == j {
      CsumAreas(d, i, b);
      hide GetCsumAddr, LayoutOf, Device.PerList, Allocatable;
      assert replica == other ==> s < t;
    } else {
      CsumArea(d, i, b, replica);
      CsumArea(d, j, c, other);
      OtherShare(d, i, b, j, c);
      hide GetCsumAddr, LayoutOf, Device.PerList, Allocatable;
      AreasApart(d.PerList(), i, j, CsumStart(LayoutOf(d, i), replica), LayoutOf(d, i).numCsum, CsumStart(LayoutOf(d, j), other), LayoutOf(d, j).numCsum,
                 GetCsumAddr(d, s, replica).value, GetCsumAddr(d, t, other).value);
    }
  }

  function CsumStart(l: Layout, replica: bool): int { if replica then l.replicaCsum else l.csumStart }

  lemma CsumArea(d: Device, index: nat, b: nat, replica: bool)
    requires d.Valid() && index < d.cpus && Allocatable(d, index, b)
    ensures var l := LayoutOf(d, index);
            d.PerList() * index <= CsumStart(l, replica) && CsumStart(l, replica) + l.numCsum <= d.PerList() * (index + 1)
  {
    CsumAreas(d, index, b);
    InShare(d, index, b);
  }

  lemma AreasApart(per: nat, i: nat, j: nat, a: int, n: int, b: int, m: int, v: int, w: int)
    requires per * i <= a && a + n <= per * (i + 1) && per * j <= b && b + m <= per * (j + 1)
    requires per * (i + 1) <= per * j || per * (j + 1) <= per * i
    requires a * PAGE <= v && v + CSUM <= (a + n) * PAGE && b * PAGE <= w && w + CSUM <= (b + m) * PAGE
    ensures v + CSUM <= w || w + CSUM <= v
  {
  }

  lemma OtherShare(d: Device, i: nat, b: nat, j: nat, c: nat)
    requires d.Valid() && i < d.cpus && j < d.cpus && i != j && Allocatable(d, i, b) && Allocatable(d, j, c)
    ensures d.PerList() * (i + 1) <= d.PerList() * j || d.PerList() * (j + 1) <= d.PerList() * i
  {
    DivPos(d.NumBlocks(), d.cpus);
    if i < j { MulMono(i + 1, j, d.PerList()); } else { MulMono(j + 1, i, d.PerList()); }
    Commute(d.PerList(), i + 1);
    Commute(d.PerList(), j);
    Commute(d.PerList(), j + 1);
    Commute(d.PerList(), i);
  }

  /** The areas and the blocks to allocate tile a share, but for what is reserved at the ends of the device. */
  lemma ShareTiled(d: Device, index: nat)
    requires d.Valid() && index < d.cpus
    ensures var l := LayoutOf(d, index);
            && l.csumStart == d.PerList() * index + (if index == 0 then d.head else 0)
            && l.parityStart == l.csumStart + l.numCsum && l.start == l.parityStart + l.numParity && l.end + 1 == l.replicaCsum
            && l.replicaCsum + l.numCsum == d.PerList() * (index + 1) - (if index == d.cpus - 1 then d.tail else 0)
    ensures var l := LayoutOf(d, index);
            && d.CsumBlocks() <= l.numCsum * d.cpus < d.CsumBlocks() + d.cpus
            && d.ParityBlocks() <= l.numParity * d.cpus < d.ParityBlocks() + d.cpus
  {
    CeilIs(d.CsumBlocks(), d.cpus);
    CeilIs(d.ParityBlocks(), d.cpus);
    NextShare(d.PerList(), index);
  }

  /** The counts the layout rests on: whole blocks, equal shares, four bytes for each stripe, one block in nine. */
  lemma DeviceCounts(d: Device)
    requires d.Valid()
    ensures d.NumBlocks() * PAGE <= d.initsize < (d.NumBlocks() + 1) * PAGE
    ensures d.PerList() * d.cpus <= d.NumBlocks() < d.PerList() * d.cpus + d.cpus
    ensures d.CsumBlocks() * PAGE <= CSUM * (d.initsize / STRIPE) < (d.CsumBlocks() + 1) * PAGE
    ensures d.NumBlocks() <= 9 * d.ParityBlocks() < d.NumBlocks() + 9
  {
    DivBounds(d.NumBlocks(), d.cpus);
    CeilIs(d.NumBlocks(), 9);
  }

  lemma NextShare(per: nat, index: nat)
    ensures per * (index + 1) == per * index + per
  {
  }

  /** No more blocks are set aside than the next multiple takes. */
  lemma CeilIs(x: nat, n: nat)
    requires n > 0
    ensures x <= Ceil(x, n) * n < x + n
  {
    DivBounds(x, n);
    MulDistr(x / n, 1, n);
  }

  /** On a device of 64 MB or more they always do. */
  lemma CsumSlotsSuffice(d: Device, index: nat, b: nat, s: nat, replica: bool)
    requires d.Valid() && d.NumBlocks() >= 128 * 128 && index < d.cpus && Allocatable(d, index, b) && b * 8 <= s < (b + 1) * 8
    ensures GetCsumAddr(d, s, replica).Some?
  {
    var n, c := d.CsumBlocks(), LayoutOf(d, index).numCsum;
    InShare(d, index, b);
    CeilCovers(n, d.cpus);
    DivBounds(d.NumBlocks(), d.cpus);
    assert 129 * n >= d.NumBlocks();
    MulAssoc(129, c, d.cpus);
    if 129 * c < d.PerList() {
      MulMono(129 * c + 1, d.PerList(), d.cpus);
      MulDistr(129 * c, 1, d.cpus);
    }
    Commute(index, d.PerList());
    CsumSlots(d, index, b, replica);
  }

  /** On a smaller one they need not: here the number of checksum blocks is rounded down. */
  lemma CsumSlotMissing()
    ensures var d := Device(255 * PAGE, 1, 64, 2); d.Valid() && Allocatable(d, 0, 200) && GetCsumAddr(d, 200 * 8, false) == GetCsumAddr(d, 200 * 8, true) == None
  {
  }
}
