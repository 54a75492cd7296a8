/**
 Where a search for a block in a tree of free ranges can end.  The tree is known by the order of its nodes
 alone, so a search may meet any node of the stretch it is confined to, and the results hold for every
 balancing.
 */
module FreeSearch {
  import opened Common
  import opened Ranges
  import opened RangeEdits

  /** `key` lies in the gap right after or right before node `i`. */
  predicate Beside(rs: seq<Range>, i: nat, key: nat) {
    && i < |rs|
    && if rs[i].high < key then (i + 1 < |rs| ==> key < rs[i + 1].low) else key < rs[i].low && (i > 0 ==> rs[i - 1].high < key)
  }

  /** The search among the nodes `lo` to `hi`, having met `last` before, may end at `end`. */
  ghost predicate Descends(rs: seq<Range>, key: nat, lo: nat, hi: nat, last: Option<nat>, end: Option<nat>)
    requires lo <= hi <= |rs|
    decreases hi - lo
  {
    if lo == hi then end == last else exists root: nat | lo <= root < hi :: Turns(rs, key, lo, hi, root, end)
  }

  /** It may end there by way of node `root`. */
  ghost predicate Turns(rs: seq<Range>, key: nat, lo: nat, hi: nat, root: nat, end: Option<nat>)
    requires lo <= root < hi <= |rs|
    decreases hi - lo, 0
  {
    if key < rs[root].low then Descends(rs, key, lo, root, Some(root), end)
    else if key > rs[root].high then Descends(rs, key, root + 1, hi, Some(root), end)
    else end == Some(root)
  }

  ghost predicate MayEnd(rs: seq<Range>, key: nat, end: Option<nat>) {
    Descends(rs, key, 0, |rs|, None, end)
  }

  /** Every search ends at the node that has the key, or beside its gap. */
  lemma {:induction false} EndsBeside(rs: seq<Range>, key: nat, lo: nat, hi: nat, last: Option<nat>, end: Option<nat>)
    requires Canon(rs) && lo <= hi <= |rs| && Descends(rs, key, lo, hi, last, end)
    requires (forall i :: 0 <= i < lo ==> rs[i].high < key) && (forall i :: hi <= i < |rs| ==> key < rs[i].low)
    requires if last.None? then lo == 0 && hi == |rs| else last.value == lo - 1 || last.value == hi < |rs|
    ensures end.None? <==> |rs| == 0
    ensures end.Some? ==> end.value < |rs| && (rs[end.value].Has(key) || (!Has(rs, key) && Beside(rs, end.value, key)))
    decreases hi - lo
  {
    if lo < hi {
      var root: nat :| lo <= root < hi && Turns(rs, key, lo, hi, root, end);
      if key < rs[root].low {
        EndsBeside(rs, key, lo, root, Some(root), end);
      } else if key > rs[root].high {
        EndsBeside(rs, key, root + 1, hi, Some(root), end);
      }
    }
  }

  /** And every node beside the gap is where some search ends: it depends on the shape of the tree. */
  lemma BesideReached(rs: seq<Range>, key: nat, i: nat)
    requires Canon(rs) && !Has(rs, key) && Beside(rs, i, key)
    ensures MayEnd(rs, key, Some(i))
  {
    var n := |rs|;
    if rs[i].high < key {
      if i + 1 < n {
        assert Descends(rs, key, i + 1, i + 1, Some(i), Some(i));
        assert Turns(rs, key, 0, i + 1, i, Some(i));
        assert Descends(rs, key, 0, i + 1, Some(i + 1), Some(i));
        assert Turns(rs, key, 0, n, i + 1, Some(i));
      } else {
        assert Descends(rs, key, n, n, Some(i), Some(i));
        assert Turns(rs, key, 0, n, i, Some(i));
      }
    } else if i > 0 {
      assert Descends(rs, key, i, i, Some(i), Some(i));
      assert Turns(rs, key, i, n, i, Some(i));
      assert Descends(rs, key, i, n, Some(i - 1), Some(i));
      assert Turns(rs, key, 0, n, i - 1, Some(i));
    } else {
      assert Descends(rs, key, 0, 0, Some(0), Some(0));
      assert Turns(rs, key, 0, n, 0, Some(0));
    }
  }

  // ---------------------------------------------------------------- is an overlap noticed?

  /** The range is refused if the search for its first block ends at `end`. */
  predicate Refuses(rs: seq<Range>, low: nat, high: nat, end: Option<nat>) {
    end.Some? && end.value < |rs| && low <= rs[end.value].high && rs[end.value].low <= high
  }

  predicate NoneBelow(rs: seq<Range>, low: nat) {
    forall i :: 0 <= i < |rs| ==> low <= rs[i].high
  }

  /** What makes every search refuse a range: its first block is free, or it overlaps and no node lies below it. */
  ghost predicate Noticed(rs: seq<Range>, low: nat, high: nat) {
    Has(rs, low) || (!Avoids(rs, low, high) && NoneBelow(rs, low))
  }

  /** A range is refused whatever the shape of the tree if and only if the overlap is of this kind. */
  lemma RefusedAlways(rs: seq<Range>, low: nat, high: nat)
    requires Canon(rs) && low <= high
    ensures (forall end :: MayEnd(rs, low, end) ==> Refuses(rs, low, high, end)) <==> Noticed(rs, low, high)
  {
    if Noticed(rs, low, high) {
      forall end | MayEnd(rs, low, end) ensures Refuses(rs, low, high, end) {
        NoticedRefused(rs, low, high, end);
      }
    } else {
      var end := AcceptingEnd(rs, low, high);
    }
  }

  lemma NoticedRefused(rs: seq<Range>, low: nat, high: nat, end: Option<nat>)
    requires Canon(rs) && low <= high && Noticed(rs, low, high) && MayEnd(rs, low, end)
    ensures Refuses(rs, low, high, end)
  {
    EndsBeside(rs, low, 0, |rs|, None, end);
    if Has(rs, low) {
      var k :| 0 <= k < |rs| && rs[k].Has(low);
    } else {
      var b :| low <= b <= high && Has(rs, b);
      var k :| 0 <= k < |rs| && rs[k].Has(b);
      assert end.value <= k;
    }
  }

  /** A search that accepts the range. */
  lemma AcceptingEnd(rs: seq<Range>, low: nat, high: nat) returns (end: Option<nat>)
    requires Canon(rs) && low <= high && !Noticed(rs, low, high)
    ensures MayEnd(rs, low, end) && !Refuses(rs, low, high, end)
  {
    if rs == [] {
      end := None;
      assert Descends(rs, low, 0, 0, None, None);
    } else if NoneBelow(rs, low) {
      HasFree(rs, low, 0);
      assert Beside(rs, 0, low);
      BesideReached(rs, low, 0);
      end := Some(0);
      if rs[0].low <= high { HasLow(rs, 0); }
    } else {
      var i := LastBelow(rs, low);
      BesideReached(rs, low, i);
      end := Some(i);
    }
  }

  lemma HasFree(rs: seq<Range>, low: nat, i: nat)
    requires i < |rs| && !Has(rs, low) && low <= rs[i].high
    ensures low < rs[i].low
  {
    if rs[i].low <= low { HasAt(rs, i, low); }
  }

  /** The last of the nodes below. */
  lemma LastBelow(rs: seq<Range>, low: nat) returns (i: nat)
    requires Canon(rs) && !Has(rs, low) && !NoneBelow(rs, low)
    ensures i < |rs| && rs[i].high < low && Beside(rs, i, low)
  {
    i :| i < |rs| && rs[i].high < low;
    while i + 1 < |rs| && rs[i + 1].high < low
      invariant i < |rs| && rs[i].high < low
      decreases |rs| - i
    {
      i := i + 1;
    }
    if i + 1 < |rs| { HasFree(rs, low, i + 1); }
  }

  /** With [0, 1] and [5, 8] free, 3 to 6 may be freed unnoticed or refused, as the tree happens to stand. */
  lemma OverlapUnnoticed()
    ensures var rs := [Range(0, 1), Range(5, 8)];
            Canon(rs) && !Avoids(rs, 3, 6) &&
            MayEnd(rs, 3, Some(0)) && !Refuses(rs, 3, 6, Some(0)) &&
            MayEnd(rs, 3, Some(1)) && Refuses(rs, 3, 6, Some(1))
  {
    var rs := [Range(0, 1), Range(5, 8)];
    HasAt(rs, 1, 5);
    assert !Has(rs, 3);
    BesideReached(rs, 3, 0);
    BesideReached(rs, 3, 1);
  }

  /** With [5, 8] alone it is refused by every tree. */
  lemma OverlapNoticed()
    ensures Noticed([Range(5, 8)], 3, 6)
    ensures forall end :: MayEnd([Range(5, 8)], 3, end) ==> Refuses([Range(5, 8)], 3, 6, end)
  {
    HasAt([Range(5, 8)], 0, 5);
    RefusedAlways([Range(5, 8)], 3, 6);
  }
}
