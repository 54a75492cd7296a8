/** What adding a range to a canonical list, or taking one out of it, does to the list. */
module RangeEdits {
  import opened Ranges

  lemma TotalOfNone(rs: seq<Range>)
    requires Canon(rs)
    ensures Total(rs) >= 0 && (Total(rs) == 0 <==> rs == [])
  {
    if rs != [] { TotalOfNone(rs[..|rs| - 1]); }
  }

  /** `[lo, hi]` was free and is taken out, leaving everything else. */
  ghost predicate Taken(rs: seq<Range>, rs': seq<Range>, lo: int, hi: int) {
    Covers(rs, lo, hi) && Canon(rs') && Removed(rs, rs', lo, hi) && Total(rs') == Total(rs) - (hi - lo + 1)
  }

  lemma CanonAt(rs: seq<Range>, i: nat)
    requires Canon(rs) && i < |rs|
    ensures rs[i].low <= rs[i].high
  {
  }

  lemma TwoHas(a: Range, b: Range, x: int)
    ensures Has([a] + [b], x) <==> a.Has(x) || b.Has(x)
  {
    HasConcat([a], [b], x);
    OneHas(a, x);
    OneHas(b, x);
  }

  lemma TwoSplices(rs: seq<Range>, mid: seq<Range>, i: nat, a: seq<Range>, b: seq<Range>)
    requires i < |rs| && |a| == 1 && mid == Splice(rs, i, i + 1, a)
    ensures Splice(mid, i + 1, i + 1, b) == Splice(rs, i, i + 1, a + b)
  {
    assert mid[..i + 1] == rs[..i] + a;
    assert mid[i + 1..] == rs[i + 1..];
  }

  lemma SpliceLength(rs: seq<Range>, i: nat, j: nat, mid: seq<Range>)
    requires i <= j <= |rs|
    ensures |Splice(rs, i, j, mid)| == |rs| - (j - i) + |mid|
  {
  }

  lemma ContainsCovers(rs: seq<Range>, i: nat, lo: nat, hi: nat)
    requires i < |rs| && rs[i].low <= lo && hi <= rs[i].high
    ensures Covers(rs, lo, hi)
  {
    forall b | lo <= b <= hi ensures Has(rs, b) { HasAt(rs, i, b); }
  }

  /** Without `[lo, hi]`, `mid` is left of `r`. */
  ghost predicate Leaves(r: Range, mid: seq<Range>, lo: nat, hi: nat) {
    && r.low <= lo <= hi <= r.high && Canon(mid)
    && Removed([r], mid, lo, hi) && Total(mid) == r.Size() - (hi - lo + 1)
    && forall k :: 0 <= k < |mid| ==> r.low <= mid[k].low && mid[k].high <= r.high
  }

  lemma LeavesFit(rs: seq<Range>, i: nat, mid: seq<Range>, lo: nat, hi: nat)
    requires i < |rs| && Canon(rs) && Leaves(rs[i], mid, lo, hi)
    ensures Fits(rs, i, i + 1, mid) && Canon(mid)
  {
  }

  /** Taking `[lo, hi]` out of node `i` and leaving `mid` of it. */
  lemma TakeOut(rs: seq<Range>, i: nat, mid: seq<Range>, lo: nat, hi: nat)
    requires i < |rs| && Canon(rs) && Leaves(rs[i], mid, lo, hi)
    ensures Taken(rs, Splice(rs, i, i + 1, mid), lo, hi)
  {
    hide Has, Removed, Canon, Total, Fits, Covers, Splice;
    ContainsCovers(rs, i, lo, hi);
    SpliceRemoves(rs, i, mid, lo, hi);
    LeavesFit(rs, i, mid, lo, hi);
    SpliceCanon(rs, i, i + 1, mid);
    SpliceTotal(rs, i, i + 1, mid);
    assert rs[i..i + 1] == [rs[i]];
    TotalOne(rs[i]);
  }

  lemma LeavesNone(r: Range)
    requires r.low <= r.high
    ensures Leaves(r, [], r.low, r.high)
  {
    forall x ensures Has([], x) <==> Has([r], x) && !(r.low <= x <= r.high) { OneHas(r, x); }
  }

  lemma LeavesLow(r: Range, lo: nat)
    requires r.low < lo <= r.high
    ensures Leaves(r, [Range(r.low, lo - 1)], lo, r.high)
  {
    var a := Range(r.low, lo - 1);
    TotalOne(a);
    forall x ensures Has([a], x) <==> Has([r], x) && !(lo <= x <= r.high) { OneHas(r, x); OneHas(a, x); }
  }

  lemma LeavesHigh(r: Range, hi: nat)
    requires r.low <= hi < r.high
    ensures Leaves(r, [Range(hi + 1, r.high)], r.low, hi)
  {
    var b := Range(hi + 1, r.high);
    TotalOne(b);
    forall x ensures Has([b], x) <==> Has([r], x) && !(r.low <= x <= hi) { OneHas(r, x); OneHas(b, x); }
  }

  lemma LeavesBoth(r: Range, lo: nat, hi: nat)
    requires r.low < lo <= hi < r.high
    ensures Leaves(r, [Range(r.low, lo - 1)] + [Range(hi + 1, r.high)], lo, hi)
  {
    var a, b := Range(r.low, lo - 1), Range(hi + 1, r.high);
    TotalConcat([a], [b]);
    TotalOne(a);
    TotalOne(b);
    forall x ensures Has([a] + [b], x) <==> Has([r], x) && !(lo <= x <= hi) { OneHas(r, x); TwoHas(a, b, x); }
  }

  lemma TakenBounds(rs: seq<Range>, rs': seq<Range>, lo: int, hi: int, start: nat, end: nat)
    requires Canon(rs) && Within(rs, start, end) && Taken(rs, rs', lo, hi)
    ensures Within(rs', start, end) && Canon(rs') && Total(rs') == Total(rs) - (hi - lo + 1)
  {
    WithinHas(rs, start, end);
    WithinHas(rs', start, end);
  }

  ghost predicate Joined(rs: seq<Range>, rs': seq<Range>, low: nat, high: nat) {
    Canon(rs') && Added(rs, rs', low, high) && Total(rs') == Total(rs) + (high - low + 1)
  }

  predicate Gap(rs: seq<Range>, p: nat, low: nat, high: nat) {
    && p <= |rs| && low <= high && (p > 0 ==> rs[p - 1].high < low) && (p < |rs| ==> high < rs[p].low)
  }

  lemma OneHas(r: Range, x: int)
    ensures Has([r], x) <==> r.Has(x)
  {
    if r.Has(x) { assert [r][0].Has(x); }
  }

  /** One range takes the place of nodes `i` to `j` and adds `[low, high]` to them. */
  lemma JoinAt(rs: seq<Range>, i: nat, j: nat, r: Range, low: nat, high: nat)
    requires i <= j <= |rs| && Canon(rs) && r.low <= r.high && low <= high
    requires (i > 0 ==> rs[i - 1].high + 1 < r.low) && (j < |rs| ==> r.high + 1 < rs[j].low)
    requires Added(rs[i..j], [r], low, high) && r.Size() == Total(rs[i..j]) + (high - low + 1)
    ensures Joined(rs, Splice(rs, i, j, [r]), low, high)
  {
    hide Has, Added, Splice, Total;
    SpliceAdds(rs, i, j, [r], low, high);
    SpliceCanon(rs, i, j, [r]);
    SpliceTotal(rs, i, j, [r]);
    TotalOne(r);
  }

  lemma CanonGaps(rs: seq<Range>, i: nat)
    requires Canon(rs) && i < |rs|
    ensures rs[i].low <= rs[i].high
    ensures i > 0 ==> rs[i - 1].high + 1 < rs[i].low
    ensures i + 1 < |rs| ==> rs[i].high + 1 < rs[i + 1].low
  {
  }

  lemma JoinBoth(rs: seq<Range>, p: nat, low: nat, high: nat)
    requires Canon(rs) && Gap(rs, p, low, high) && 0 < p < |rs| && rs[p - 1].high + 1 == low && high + 1 == rs[p].low
    ensures Joined(rs, Splice(rs, p - 1, p + 1, [Range(rs[p - 1].low, rs[p].high)]), low, high)
  {
    hide Has, Splice, Total, Joined, Canon;
    CanonGaps(rs, p - 1);
    CanonGaps(rs, p);
    var r := Range(rs[p - 1].low, rs[p].high);
    assert rs[p - 1..p + 1] == [rs[p - 1]] + [rs[p]];
    forall x ensures Has([r], x) <==> Has([rs[p - 1]] + [rs[p]], x) || low <= x <= high {
      OneHas(r, x);
      TwoHas(rs[p - 1], rs[p], x);
    }
    TotalConcat([rs[p - 1]], [rs[p]]);
    TotalOne(rs[p - 1]);
    TotalOne(rs[p]);
    JoinAt(rs, p - 1, p + 1, r, low, high);
  }

  lemma JoinLeft(rs: seq<Range>, p: nat, low: nat, high: nat)
    requires Canon(rs) && Gap(rs, p, low, high) && 0 < p && rs[p - 1].high + 1 == low && (p < |rs| ==> high + 1 < rs[p].low)
    ensures Joined(rs, Splice(rs, p - 1, p, [Range(rs[p - 1].low, high)]), low, high)
  {
    hide Has, Splice, Total, Joined, Canon;
    CanonGaps(rs, p - 1);
    var r := Range(rs[p - 1].low, high);
    assert rs[p - 1..p] == [rs[p - 1]];
    forall x ensures Has([r], x) <==> Has([rs[p - 1]], x) || low <= x <= high {
      OneHas(r, x);
      OneHas(rs[p - 1], x);
    }
    TotalOne(rs[p - 1]);
    JoinAt(rs, p - 1, p, r, low, high);
  }

  lemma JoinRight(rs: seq<Range>, p: nat, low: nat, high: nat)
    requires Canon(rs) && Gap(rs, p, low, high) && p < |rs| && high + 1 == rs[p].low && (p > 0 ==> rs[p - 1].high + 1 < low)
    ensures Joined(rs, Splice(rs, p, p + 1, [Range(low, rs[p].high)]), low, high)
  {
    hide Has, Splice, Total, Joined, Canon;
    CanonGaps(rs, p);
    var r := Range(low, rs[p].high);
    assert rs[p..p + 1] == [rs[p]];
    forall x ensures Has([r], x) <==> Has([rs[p]], x) || low <= x <= high {
      OneHas(r, x);
      OneHas(rs[p], x);
    }
    TotalOne(rs[p]);
    JoinAt(rs, p, p + 1, r, low, high);
  }

  lemma JoinNone(rs: seq<Range>, p: nat, low: nat, high: nat)
    requires Canon(rs) && Gap(rs, p, low, high) && (p > 0 ==> rs[p - 1].high + 1 < low) && (p < |rs| ==> high + 1 < rs[p].low)
    ensures Joined(rs, Splice(rs, p, p, [Range(low, high)]), low, high)
  {
    hide Splice, Joined;
    var r := Range(low, high);
    assert rs[p..p] == [];
    forall x ensures Has([r], x) <==> Has([], x) || low <= x <= high {
      OneHas(r, x);
    }
    JoinAt(rs, p, p, r, low, high);
  }

  lemma NextAbove(rs: seq<Range>, i: nat, low: nat, high: nat)
    requires Canon(rs) && i < |rs| && low < rs[i].low && Avoids(rs, low, high)
    ensures high < rs[i].low
  {
    if rs[i].low <= high { HasLow(rs, i); }
  }

  predicate Within(rs: seq<Range>, start: nat, end: nat) {
    forall i :: 0 <= i < |rs| ==> start <= rs[i].low && rs[i].high <= end
  }

  lemma WithinHas(rs: seq<Range>, start: nat, end: nat)
    requires Canon(rs)
    ensures Within(rs, start, end) <==> forall b :: Has(rs, b) ==> start <= b <= end
  {
    if forall b :: Has(rs, b) ==> start <= b <= end {
      forall i | 0 <= i < |rs| ensures start <= rs[i].low && rs[i].high <= end {
        HasLow(rs, i);
        HasAt(rs, i, rs[i].high);
      }
    }
  }

  lemma AddedInBounds(rs: seq<Range>, rs': seq<Range>, low: nat, high: nat, start: nat, end: nat)
    requires Canon(rs) && Canon(rs') && Within(rs, start, end) && Added(rs, rs', low, high) && start <= low && high <= end
    ensures Within(rs', start, end)
  {
    WithinHas(rs, start, end);
    WithinHas(rs', start, end);
  }

  lemma JoinedBounds(rs: seq<Range>, rs': seq<Range>, low: nat, high: nat, start: nat, end: nat)
    requires Canon(rs) && Within(rs, start, end) && Joined(rs, rs', low, high) && start <= low && high <= end
    ensures Canon(rs') && Within(rs', start, end) && Total(rs') == Total(rs) + (high - low + 1)
  {
    AddedInBounds(rs, rs', low, high, start, end);
  }

  /** In a sorted list without touching ranges, blocks in use that follow each other share a range. */
  lemma {:induction false} CoveredByOne(rs: seq<Range>, lo: nat, hi: nat)
    requires Canon(rs) && lo <= hi
    ensures Covers(rs, lo, hi) <==> exists i :: 0 <= i < |rs| && rs[i].low <= lo && hi <= rs[i].high
    decreases hi - lo
  {
    if i :| 0 <= i < |rs| && rs[i].low <= lo && hi <= rs[i].high {
      ContainsCovers(rs, i, lo, hi);
    }
    if Covers(rs, lo, hi) {
      if lo == hi {
        assert Has(rs, lo);
      } else {
        assert Covers(rs, lo, hi - 1);
        CoveredByOne(rs, lo, hi - 1);
        var i :| 0 <= i < |rs| && rs[i].low <= lo && hi - 1 <= rs[i].high;
        assert Has(rs, hi);
        var k :| 0 <= k < |rs| && rs[k].Has(hi);
        assert k == i;
      }
    }
  }
}
