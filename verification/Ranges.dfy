/** Sorted sequences of block ranges that neither overlap nor touch. */
module Ranges {
  datatype Range = Range(low: nat, high: nat)
  {
    predicate Has(b: int) { low <= b <= high }

    function Size(): int { high - low + 1 }
  }

  predicate Canon(rs: seq<Range>) {
    && (forall i :: 0 <= i < |rs| ==> rs[i].low <= rs[i].high)
    && (forall i, j :: 0 <= i < j < |rs| ==> rs[i].high + 1 < rs[j].low)
  }

  predicate Has(rs: seq<Range>, b: int) {
    exists i :: 0 <= i < |rs| && rs[i].Has(b)
  }

  function Total(rs: seq<Range>): int {
    if rs == [] then 0 else Total(rs[..|rs| - 1]) + rs[|rs| - 1].Size()
  }

  function Splice(rs: seq<Range>, i: nat, j: nat, mid: seq<Range>): seq<Range>
    requires i <= j <= |rs|
  {
    rs[..i] + mid + rs[j..]
  }

  lemma {:induction false} TotalConcat(a: seq<Range>, b: seq<Range>)
    ensures Total(a + b) == Total(a) + Total(b)
  {
    if b == [] {
      assert a + b == a;
    } else {
      TotalConcat(a, b[..|b| - 1]);
      assert (a + b)[..|a + b| - 1] == a + b[..|b| - 1];
    }
  }

  lemma TotalOne(r: Range)
    ensures Total([r]) == r.Size()
  {
    assert [r][..0] == [];
  }

  lemma SpliceTotal(rs: seq<Range>, i: nat, j: nat, mid: seq<Range>)
    requires i <= j <= |rs|
    ensures Total(Splice(rs, i, j, mid)) == Total(rs) - Total(rs[i..j]) + Total(mid)
  {
    assert rs == rs[..i] + rs[i..j] + rs[j..];
    TotalConcat(rs[..i] + rs[i..j], rs[j..]);
    TotalConcat(rs[..i], rs[i..j]);
    TotalConcat(rs[..i] + mid, rs[j..]);
    TotalConcat(rs[..i], mid);
  }

  lemma HasConcat(a: seq<Range>, b: seq<Range>, x: int)
    ensures Has(a + b, x) <==> Has(a, x) || Has(b, x)
  {
    if i :| 0 <= i < |a| && a[i].Has(x) { assert (a + b)[i].Has(x); }
    if i :| 0 <= i < |b| && b[i].Has(x) { assert (a + b)[|a| + i].Has(x); }
  }

  lemma SpliceHas(rs: seq<Range>, i: nat, j: nat, mid: seq<Range>, x: int)
    requires i <= j <= |rs|
    ensures Has(Splice(rs, i, j, mid), x) <==> Has(rs[..i], x) || Has(mid, x) || Has(rs[j..], x)
    ensures Has(rs, x) <==> Has(rs[..i], x) || Has(rs[i..j], x) || Has(rs[j..], x)
  {
    assert rs == rs[..i] + rs[i..j] + rs[j..];
    HasConcat(rs[..i] + rs[i..j], rs[j..], x);
    HasConcat(rs[..i], rs[i..j], x);
    HasConcat(rs[..i] + mid, rs[j..], x);
    HasConcat(rs[..i], mid, x);
  }

  /** `mid` fits between its neighbours. */
  ghost predicate Fits(rs: seq<Range>, i: nat, j: nat, mid: seq<Range>)
    requires i <= j <= |rs|
  {
    forall k :: 0 <= k < |mid| ==>
      (i > 0 ==> rs[i - 1].high + 1 < mid[k].low) && (j < |rs| ==> mid[k].high + 1 < rs[j].low)
  }

  lemma SpliceCanon(rs: seq<Range>, i: nat, j: nat, mid: seq<Range>)
    requires i <= j <= |rs| && Canon(rs) && Canon(mid) && Fits(rs, i, j, mid)
    ensures Canon(Splice(rs, i, j, mid))
  {
    var s, m := Splice(rs, i, j, mid), |mid|;
    forall p | 0 <= p < |s|
      ensures s[p] == if p < i then rs[p] else if p < i + m then mid[p - i] else rs[j + p - i - m]
    {
    }
  }

  ghost predicate Covers(rs: seq<Range>, lo: int, hi: int) {
    forall b | lo <= b <= hi :: Has(rs, b)
  }

  ghost predicate Avoids(rs: seq<Range>, lo: int, hi: int) {
    forall b | lo <= b <= hi :: !Has(rs, b)
  }

  /** `rs'` has what `rs` has and `[lo, hi]`. */
  ghost predicate Added(rs: seq<Range>, rs': seq<Range>, lo: int, hi: int) {
    forall b :: Has(rs', b) <==> Has(rs, b) || lo <= b <= hi
  }

  /** `rs'` has what `rs` has except `[lo, hi]`. */
  ghost predicate Removed(rs: seq<Range>, rs': seq<Range>, lo: int, hi: int) {
    forall b :: Has(rs', b) <==> Has(rs, b) && !(lo <= b <= hi)
  }

  lemma SpliceAdds(rs: seq<Range>, i: nat, j: nat, mid: seq<Range>, lo: int, hi: int)
    requires i <= j <= |rs| && Added(rs[i..j], mid, lo, hi)
    ensures Added(rs, Splice(rs, i, j, mid), lo, hi)
  {
    forall b ensures Has(Splice(rs, i, j, mid), b) <==> Has(rs, b) || lo <= b <= hi {
      SpliceHas(rs, i, j, mid, b);
    }
  }

  lemma SpliceRemoves(rs: seq<Range>, i: nat, mid: seq<Range>, lo: int, hi: int)
    requires i < |rs| && Canon(rs) && rs[i].low <= lo && hi <= rs[i].high && Removed([rs[i]], mid, lo, hi)
    ensures Removed(rs, Splice(rs, i, i + 1, mid), lo, hi)
  {
    assert rs[i..i + 1] == [rs[i]];
    forall b ensures Has(Splice(rs, i, i + 1, mid), b) <==> Has(rs, b) && !(lo <= b <= hi) {
      SpliceHas(rs, i, i + 1, mid, b);
      if lo <= b <= hi {
        assert !Has(rs[..i], b) && !Has(rs[i + 1..], b);
      }
    }
  }

  lemma HasTail(rs: seq<Range>, x: int)
    requires rs != []
    ensures Has(rs, x) <==> rs[0].Has(x) || Has(rs[1..], x)
  {
    assert rs == [rs[0]] + rs[1..];
    HasConcat([rs[0]], rs[1..], x);
  }

  lemma HasAt(rs: seq<Range>, i: nat, b: int)
    requires i < |rs| && rs[i].Has(b)
    ensures Has(rs, b)
  {
  }

  lemma HasLow(rs: seq<Range>, i: nat)
    requires Canon(rs) && i < |rs|
    ensures Has(rs, rs[i].low)
  {
    HasAt(rs, i, rs[i].low);
  }

  /** What is free determines the list. */
  lemma {:induction false} CanonUnique(a: seq<Range>, b: seq<Range>)
    requires Canon(a) && Canon(b) && forall x :: Has(a, x) <==> Has(b, x)
    ensures a == b
    decreases |a|
  {
    if a == [] {
      if b != [] { HasLow(b, 0); }
    } else {
      HasLow(a, 0);
      if b != [] { HasLow(b, 0); }
      assert a[0].low == b[0].low;
      FirstEnds(a, b);
      FirstEnds(b, a);
      forall x ensures Has(a[1..], x) <==> Has(b[1..], x) {
        HasTail(a, x);
        HasTail(b, x);
        if Has(a[1..], x) { assert !a[0].Has(x); }
        if Has(b[1..], x) { assert !b[0].Has(x); }
      }
      CanonUnique(a[1..], b[1..]);
      assert a == [a[0]] + a[1..] && b == [b[0]] + b[1..];
    }
  }

  lemma FirstEnds(a: seq<Range>, b: seq<Range>)
    requires Canon(a) && Canon(b) && a != [] && b != [] && a[0].low == b[0].low && forall x :: Has(a, x) <==> Has(b, x)
    ensures a[0].high <= b[0].high
  {
    if b[0].high < a[0].high {
      HasAt(a, 0, b[0].high + 1);
    }
  }

  function Blocks(r: Range): set<int> { set b | r.low <= b <= r.high && r.Has(b) }

  /** The free blocks as a set, one range after the other. */
  function AllBlocks(rs: seq<Range>): set<int> {
    if rs == [] then {} else AllBlocks(rs[..|rs| - 1]) + Blocks(rs[|rs| - 1])
  }

  lemma {:induction false} AllBlocksHas(rs: seq<Range>, b: int)
    ensures b in AllBlocks(rs) <==> Has(rs, b)
  {
    if rs != [] {
      var n := |rs| - 1;
      AllBlocksHas(rs[..n], b);
      assert rs == rs[..n] + [rs[n]];
      HasConcat(rs[..n], [rs[n]], b);
      assert Has([rs[n]], b) <==> [rs[n]][0].Has(b);
    }
  }

  lemma {:induction false} RangeSize(r: Range)
    requires r.low <= r.high + 1
    ensures |Blocks(r)| == r.Size()
    decreases r.Size()
  {
    if r.low > r.high {
      assert Blocks(r) == {};
    } else if r.high == 0 {
      assert Blocks(r) == {0};
    } else {
      var r' := Range(r.low, r.high - 1);
      RangeSize(r');
      assert Blocks(r) == Blocks(r') + {r.high as int};
    }
  }

  lemma UnionSize(a: set<int>, b: set<int>)
    requires a !! b
    ensures |a + b| == |a| + |b|
  {
  }

  /** The sum of the sizes is the number of free blocks. */
  lemma {:induction false} TotalIsCount(rs: seq<Range>)
    requires Canon(rs)
    ensures |AllBlocks(rs)| == Total(rs)
  {
    if rs != [] {
      var n := |rs| - 1;
      TotalIsCount(rs[..n]);
      RangeSize(rs[n]);
      forall b | b in AllBlocks(rs[..n]) ensures b !in Blocks(rs[n]) {
        AllBlocksHas(rs[..n], b);
      }
      UnionSize(AllBlocks(rs[..n]), Blocks(rs[n]));
    }
  }
}
