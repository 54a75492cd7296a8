/**
 PMFS's block allocator: one sorted list of the ranges in use, searched first fit for an aligned gap, and
 freed into with an optional hint of where to start looking.
 */
module PmfsBlocks {
  import opened Ranges
  import opened RangeEdits
  import opened Arith

  // ---------------------------------------------------------------- aligned gaps

  /** The first multiple of `n` above `high`. */
  function AlignUp(high: nat, n: nat): nat
    requires n > 0
  {
    (high + n) / n * n
  }

  lemma AlignUpIsNext(high: nat, n: nat)
    requires n > 0
    ensures AlignUp(high, n) > high && AlignUp(high, n) % n == 0
  {
    DivBounds(high + n, n);
    MultipleMod((high + n) / n, n);
  }

  lemma AlignUpIsLeast(high: nat, n: nat, a: nat)
    requires n > 0 && a > high && a % n == 0
    ensures AlignUp(high, n) <= a
  {
    var q := (high + n) / n;
    DivBounds(high + n, n);
    DivBounds(a, n);
    assert (a / n + 1) * n == a / n * n + n;
    MulLess(q, a / n + 1, n);
    MulMono(q, a / n, n);
  }

  /** `n` blocks from the multiple `a` of `n` on are free, above the first range in use and below `end`. */
  ghost predicate FreeRun(rs: seq<Range>, a: nat, n: nat, end: nat) {
    rs != [] && n > 0 && a % n == 0 && rs[0].low <= a && a + n <= end && Avoids(rs, a, a + n - 1)
  }

  /** Once a gap lies above the start of node `i`, it lies above its end. */
  lemma GapAbove(rs: seq<Range>, i: nat, a: nat, n: nat, end: nat)
    requires Canon(rs) && i < |rs| && FreeRun(rs, a, n, end) && rs[i].low <= a
    ensures rs[i].high < a && AlignUp(rs[i].high, n) <= a
  {
    assert !Has(rs, a);
    if a <= rs[i].high { HasAt(rs, i, a); }
    AlignUpIsLeast(rs[i].high, n, a);
  }

  /** A gap that does not fit before the next node lies above its start. */
  lemma GapBeyond(rs: seq<Range>, i: nat, a: nat, n: nat, end: nat)
    requires Canon(rs) && i + 1 < |rs| && FreeRun(rs, a, n, end) && rs[i].low <= a
    requires AlignUp(rs[i].high, n) + n - 1 >= rs[i + 1].low
    ensures rs[i + 1].low <= a
  {
    GapAbove(rs, i, a, n, end);
    if a < rs[i + 1].low {
      HasLow(rs, i + 1);
    }
  }

  lemma GapFound(rs: seq<Range>, i: nat, n: nat, start: nat, end: nat)
    requires Canon(rs) && i < |rs| && 0 < n && 0 < end && Within(rs, start, end - 1)
    requires AlignUp(rs[i].high, n) + n - 1 < if i + 1 < |rs| then rs[i + 1].low else end
    ensures FreeRun(rs, AlignUp(rs[i].high, n), n, end)
  {
    var a := AlignUp(rs[i].high, n);
    AlignUpIsNext(rs[i].high, n);
    forall b | a <= b <= a + n - 1 ensures !Has(rs, b) {
      forall k | 0 <= k < |rs| ensures !rs[k].Has(b) {
        assert if k <= i then rs[k].high <= rs[i].high else rs[i + 1].low <= rs[k].low;
      }
    }
  }

  lemma RunMeans(rs: seq<Range>, a: nat, n: nat, end: nat)
    requires FreeRun(rs, a, n, end)
    ensures a % n == 0 && a + n <= end && Avoids(rs, a, a + n - 1)
  {
  }

  lemma FirstGaps(rs: seq<Range>, n: nat, end: nat)
    ensures forall a: nat | FreeRun(rs, a, n, end) :: 0 < |rs| && rs[0].low <= a
  {
  }

  /** Past a node behind which the gap is too small. */
  lemma NextGaps(rs: seq<Range>, i: nat, n: nat, end: nat)
    requires Canon(rs) && i < |rs| && n > 0 && forall a: nat | FreeRun(rs, a, n, end) :: rs[i].low <= a
    requires AlignUp(rs[i].high, n) + n - 1 >= if i + 1 < |rs| then rs[i + 1].low else end
    ensures forall a: nat | FreeRun(rs, a, n, end) :: i + 1 < |rs| && rs[i + 1].low <= a
  {
    forall a: nat | FreeRun(rs, a, n, end) ensures i + 1 < |rs| && rs[i + 1].low <= a {
      GapAbove(rs, i, a, n, end);
      if i + 1 < |rs| { GapBeyond(rs, i, a, n, end); }
    }
  }

  lemma LowestHere(rs: seq<Range>, i: nat, n: nat, end: nat)
    requires Canon(rs) && i < |rs| && n > 0 && forall a: nat | FreeRun(rs, a, n, end) :: rs[i].low <= a
    ensures forall a: nat | FreeRun(rs, a, n, end) :: AlignUp(rs[i].high, n) <= a
  {
    forall a: nat | FreeRun(rs, a, n, end) ensures AlignUp(rs[i].high, n) <= a {
      GapAbove(rs, i, a, n, end);
    }
  }

  lemma BelowHint(rs: seq<Range>, i: nat, low: nat, high: nat)
    requires Canon(rs) && i < |rs| && rs[i].low <= low <= high
    ensures forall k :: 0 <= k < i ==> !(rs[k].low <= low && high <= rs[k].high)
  {
  }

  lemma WithinAt(rs: seq<Range>, i: nat, start: nat, end: nat)
    requires Within(rs, start, end) && i < |rs|
    ensures start <= rs[i].low && rs[i].high <= end
  {
  }

  lemma NoneAfter(mid: seq<Range>, k: nat, lo: nat, hi: nat)
    requires k <= |mid| <= 2 && (k > 0 ==> mid[0].high < lo) && k <= 1 && (k < |mid| ==> hi < mid[k].low)
    ensures After(mid, k, lo, hi)
  {
  }

  /** Node `p` is the first past `[lo, hi]`. */
  ghost predicate After(rs: seq<Range>, p: nat, lo: nat, hi: nat) {
    p <= |rs| && (forall i :: 0 <= i < p ==> rs[i].high < lo) && (p < |rs| ==> hi < rs[p].low)
  }

  lemma AfterSplice(rs: seq<Range>, p: nat, mid: seq<Range>, k: nat, lo: nat, hi: nat)
    requires p < |rs| && Canon(rs) && Leaves(rs[p], mid, lo, hi) && After(mid, k, lo, hi)
    ensures After(Splice(rs, p, p + 1, mid), p + k, lo, hi)
  {
    var s := Splice(rs, p, p + 1, mid);
    forall i | 0 <= i < |s|
      ensures s[i] == if i < p then rs[i] else if i < p + |mid| then mid[i - p] else rs[i - |mid| + 1]
    {
    }
  }

  // ---------------------------------------------------------------- the list

  class BlockNode {
    var low: nat
    var high: nat

    constructor (low: nat, high: nat)
      ensures this.low == low && this.high == high
    {
      this.low, this.high := low, high;
    }
  }

  class Blocks {
    var list: seq<BlockNode>
    const start: nat
    const end: nat
    var numFree: int
    var numNodes: int
    ghost var rs: seq<Range>

    ghost predicate Shape()
      reads this`list, this`rs, this`numNodes, list
    {
      && |rs| == |list| == numNodes
      && (forall i, j :: 0 <= i < j < |list| ==> list[i] != list[j])
      && (forall i :: 0 <= i < |list| ==> rs[i] == Range(list[i].low, list[i].high))
    }

    ghost predicate Valid()
      reads this, list
    {
      Shape() && Canon(rs) && start < end && Within(rs, start, end - 1) && numFree == end - start - Total(rs)
    }

    method SetNode(p: nat, low: nat, high: nat)
      requires Shape() && p < |list|
      modifies this`rs, list[p]
      ensures Shape() && rs == Splice(old(rs), p, p + 1, [Range(low, high)])
    {
      list[p].low, list[p].high := low, high;
      rs := Splice(rs, p, p + 1, [Range(low, high)]);
    }

    method AddNode(p: nat, node: BlockNode)
      requires Shape() && p <= |list| && node !in list
      modifies this`list, this`numNodes, this`rs
      ensures Shape() && rs == Splice(old(rs), p, p, [Range(node.low, node.high)])
      ensures list == old(list)[..p] + [node] + old(list)[p..]
    {
      list := list[..p] + [node] + list[p..];
      numNodes := numNodes + 1;
      rs := Splice(rs, p, p, [Range(node.low, node.high)]);
    }

    method DeleteNode(p: nat)
      requires Shape() && p < |list|
      modifies this`list, this`numNodes, this`rs
      ensures Shape() && rs == Splice(old(rs), p, p + 1, [])
      ensures list == old(list)[..p] + old(list)[p + 1..]
    {
      list := list[..p] + list[p + 1..];
      numNodes := numNodes - 1;
      rs := Splice(rs, p, p + 1, []);
    }

    /** `hint` is where the next search may start: the first node past what was freed, if there is one. */
    ghost predicate NextHint(hint: BlockNode?, lo: nat, hi: nat)
      requires Shape()
      reads this`list, this`rs, this`numNodes, list
    {
      exists p: nat | p <= |list| :: hint == (if p < |list| then list[p] else null) && After(rs, p, lo, hi)
    }

    /** Frees blocks that must all be in use, looking from `hint` on if that lies low enough. */
    method FreeBlock(blocknr: nat, num: nat, hint: BlockNode?) returns (ok: bool, hint': BlockNode?)
      requires Valid() && num > 0 && list != [] && (hint != null ==> hint in list)
      modifies this`list, this`numFree, this`numNodes, this`rs, list
      ensures Valid()
      ensures ok <==> Covers(old(rs), blocknr, blocknr + num - 1)
      ensures ok ==> Taken(old(rs), rs, blocknr, blocknr + num - 1) && NextHint(hint', blocknr, blocknr + num - 1)
      ensures !ok ==> rs == old(rs) && hint' == hint
      ensures forall n <- list :: n in old(list) || fresh(n)
    {
      hide Taken, Total, Within, Covers, After, Canon;
      var low, high := blocknr, blocknr + num - 1;
      CoveredByOne(rs, low, high);
      var i := 0;
      if hint != null && low >= hint.low {
        i :| 0 <= i < |list| && list[i] == hint;
        BelowHint(rs, i, low, high);
      }
      while i < |list|
        invariant 0 <= i <= |list| && Valid() && rs == old(rs) && list == old(list) && numFree == old(numFree)
        invariant forall k :: 0 <= k < i ==> !(rs[k].low <= low && high <= rs[k].high)
      {
        if list[i].low <= low && high <= list[i].high {
          hint' := FreeIn(i, low, high);
          TakenBounds(old(rs), rs, low, high, start, end - 1);
          numFree := numFree + num;
          return true, hint';
        }
        i := i + 1;
      }
      return false, hint;
    }

    /** The four ways a freed range can lie inside its node. */
    method FreeIn(p: nat, low: nat, high: nat) returns (hint: BlockNode?)
      requires Shape() && Canon(rs) && p < |list| && rs[p].low <= low <= high <= rs[p].high
      modifies this`list, this`numNodes, this`rs, list
      ensures Shape() && Taken(old(rs), rs, low, high) && NextHint(hint, low, high)
      ensures forall n <- list :: n in old(list) || fresh(n)
    {
      hide Taken, Leaves, Canon, Splice, After;
      var l, h := list[p].low, list[p].high;
      if low == l && high == h {
        LeavesNone(rs[p]);
        TakeOut(rs, p, [], low, high);
        NoneAfter([], 0, low, high);
        AfterSplice(rs, p, [], 0, low, high);
        DeleteNode(p);
        hint := if p < |list| then list[p] else null;
      } else if low == l {
        LeavesHigh(rs[p], high);
        TakeOut(rs, p, [Range(high + 1, h)], low, high);
        NoneAfter([Range(high + 1, h)], 0, low, high);
        AfterSplice(rs, p, [Range(high + 1, h)], 0, low, high);
        SetNode(p, high + 1, h);
        hint := list[p];
      } else if high == h {
        LeavesLow(rs[p], low);
        TakeOut(rs, p, [Range(l, low - 1)], low, high);
        NoneAfter([Range(l, low - 1)], 1, low, high);
        AfterSplice(rs, p, [Range(l, low - 1)], 1, low, high);
        SetNode(p, l, low - 1);
        hint := if p + 1 < |list| then list[p + 1] else null;
      } else {
        hint := FreeInside(p, low, high);
      }
    }

    method FreeInside(p: nat, low: nat, high: nat) returns (hint: BlockNode?)
      requires Shape() && Canon(rs) && p < |list| && rs[p].low < low <= high < rs[p].high
      modifies this`list, this`numNodes, this`rs, list
      ensures Shape() && Taken(old(rs), rs, low, high) && NextHint(hint, low, high)
      ensures forall n <- list :: n in old(list) || fresh(n)
    {
      hide Taken, Leaves, Canon, Splice, After;
      var l, h := list[p].low, list[p].high;
      ghost var a, b := [Range(l, low - 1)], [Range(high + 1, h)];
      LeavesBoth(rs[p], low, high);
      TakeOut(rs, p, a + b, low, high);
      NoneAfter(a + b, 1, low, high);
      AfterSplice(rs, p, a + b, 1, low, high);
      var node := new BlockNode(high + 1, h);
      SetNode(p, l, low - 1);
      ghost var mid := rs;
      SpliceLength(old(rs), p, p + 1, a);
      AddNode(p + 1, node);
      TwoSplices(old(rs), mid, p, a, b);
      hint := node;
    }

    /** The gap behind node `p` takes `[low, high]`, joining whatever it touches. */
    method UseGap(p: nat, low: nat, high: nat, nextLow: nat)
      requires Shape() && Canon(rs) && p < |list| && list[p].high < low <= high < nextLow
      requires nextLow == (if p + 1 < |list| then list[p + 1].low else end)
      modifies this`list, this`numNodes, this`rs, list
      ensures Shape() && Joined(old(rs), rs, low, high)
      ensures forall n <- list :: n in old(list) || fresh(n)
    {
      hide Joined, Splice, Total;
      CanonGaps(rs, p);
      if low == list[p].high + 1 && high == nextLow - 1 {
        if p + 1 < |list| {
          JoinBoth(rs, p + 1, low, high);
          FillGap(p);
        } else {
          JoinLeft(rs, p + 1, low, high);
          SetNode(p, list[p].low, high);
        }
      } else if low == list[p].high + 1 {
        JoinLeft(rs, p + 1, low, high);
        SetNode(p, list[p].low, high);
      } else if high == nextLow - 1 && p + 1 < |list| {
        JoinRight(rs, p + 1, low, high);
        SetNode(p + 1, low, list[p + 1].high);
      } else {
        JoinNone(rs, p + 1, low, high);
        var node := new BlockNode(low, high);
        AddNode(p + 1, node);
      }
    }

    method FillGap(p: nat)
      requires Shape() && p + 1 < |list|
      modifies this`list, this`numNodes, this`rs, list[p]
      ensures Shape() && rs == Splice(old(rs), p, p + 2, [Range(old(rs)[p].low, old(rs)[p + 1].high)])
      ensures forall n <- list :: n in old(list)
    {
      list[p].high := list[p + 1].high;
      list := list[..p + 1] + list[p + 2..];
      numNodes := numNodes - 1;
      rs := Splice(rs, p, p + 2, [Range(rs[p].low, rs[p + 1].high)]);
    }

    /** Allocates the lowest aligned gap of `num` blocks above the first range in use. */
    method NewBlock(num: nat) returns (ok: bool, blocknr: nat)
      requires Valid() && num > 0
      modifies this`list, this`numFree, this`numNodes, this`rs, list
      ensures Valid()
      ensures !ok ==> rs == old(rs) && forall a: nat :: !FreeRun(rs, a, num, end)
      ensures ok ==> FreeRun(old(rs), blocknr, num, end) && forall a: nat :: FreeRun(old(rs), a, num, end) ==> blocknr <= a
      ensures ok ==> blocknr % num == 0 && blocknr + num <= end && Avoids(old(rs), blocknr, blocknr + num - 1)
      ensures ok ==> Joined(old(rs), rs, blocknr, blocknr + num - 1) && numFree == old(numFree) - num
      ensures forall n <- list :: n in old(list) || fresh(n)
    {
      hide Joined, Total, FreeRun, AlignUp, Canon, Within;
      var i := 0;
      FirstGaps(rs, num, end);
      while i < |list|
        invariant 0 <= i <= |list| && Valid() && rs == old(rs) && list == old(list) && numFree == old(numFree)
        invariant forall a: nat | FreeRun(rs, a, num, end) :: i < |list| && rs[i].low <= a
      {
        var nextLow := if i + 1 < |list| then list[i + 1].low else end;
        var low := AlignUp(list[i].high, num);
        var high := low + num - 1;
        AlignUpIsNext(rs[i].high, num);
        if high < nextLow {
          GapFound(rs, i, num, start, end);
          RunMeans(rs, low, num, end);
          WithinAt(rs, i, start, end - 1);
          LowestHere(rs, i, num, end);
          UseGap(i, low, high, nextLow);
          JoinedBounds(old(rs), rs, low, high, start, end - 1);
          numFree := numFree - num;
          return true, low;
        }
        NextGaps(rs, i, num, end);
        i := i + 1;
      }
      return false, 0;
    }
  }

  // ---------------------------------------------------------------- what callers rely on

  /** With the first block of the device in use, "above the first range" loses nothing. */
  lemma NoGapBelow(rs: seq<Range>, a: nat, n: nat, start: nat, end: nat)
    requires Canon(rs) && rs != [] && rs[0].low == start && n > 0
    requires a % n == 0 && start <= a && a + n <= end && Avoids(rs, a, a + n - 1)
    ensures FreeRun(rs, a, n, end)
  {
  }

  /** The hint changes where the search starts, never the list it leaves. */
  lemma HintIsIrrelevant(rs: seq<Range>, with: seq<Range>, without: seq<Range>, lo: nat, hi: nat)
    requires Canon(rs) && Taken(rs, with, lo, hi) && Taken(rs, without, lo, hi)
    ensures with == without
  {
    CanonUnique(with, without);
  }

  /** Allocating and freeing the same blocks restores the list. */
  lemma FreeUndoesNew(rs: seq<Range>, rs': seq<Range>, rs'': seq<Range>, a: nat, n: nat, end: nat)
    requires Canon(rs) && FreeRun(rs, a, n, end) && Joined(rs, rs', a, a + n - 1) && Taken(rs', rs'', a, a + n - 1)
    ensures rs'' == rs
  {
    forall b ensures Has(rs'', b) <==> Has(rs, b) {
      assert Has(rs', b) <==> Has(rs, b) || a <= b <= a + n - 1;
    }
    CanonUnique(rs'', rs);
  }
}
