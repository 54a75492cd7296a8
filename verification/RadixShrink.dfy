/** Taking levels off the top of a tree. */
module RadixShrink {
  import opened Arith
  import opened Radix
  import opened RadixCut
  import opened RadixGrow

  /** What hangs below the first slot of the top page. */
  function FirstSubtree(t: Tree, h: nat): Tree {
    map p | p in t && Under(p, Pos(h, 0)) :: t[p]
  }

  ghost predicate DataBelow(t: Tree, n: nat) {
    forall b: nat | Pos(0, b) in t :: b < n
  }

  lemma BelowIs(t: Tree, n: nat)
    ensures DataBelow(t, n) <==> forall b: nat | Pos(0, b) in t :: b < n
  {
  }

  ghost predicate HasData(t: Tree) {
    exists b: nat :: Pos(0, b) in t
  }

  lemma PowMono(g: nat, h: nat)
    requires g <= h
    ensures Pow(g) <= Pow(h)
    decreases h
  {
    if g < h { PowMono(g, h - 1); }
  }

  /** As long as there is data, and all of it below the first slot, that slot is not null. */
  lemma FirstSlot(t: Tree, height: nat, h: nat)
    requires Closed(t, height) && h <= height && HasData(t) && DataBelow(t, Pow(h))
    ensures Pos(h, 0) in t
  {
    var b: nat :| Pos(0, b) in t;
    SpanAnc(b, h, h);
    ClosedAnc(t, height, Pos(0, b), h);
  }

  lemma SubtreeData(t: Tree, height: nat, h: nat)
    requires Closed(t, height) && h <= height && DataBelow(t, Pow(h))
    ensures forall b: nat :: Pos(0, b) in t <==> Pos(0, b) in FirstSubtree(t, h)
  {
    forall b: nat | Pos(0, b) in t ensures Under(Pos(0, b), Pos(h, 0)) {
      SpanAnc(b, h, h);
    }
  }

  lemma SubtreeCount(t: Tree, height: nat, h: nat)
    requires Closed(t, height) && h <= height && DataBelow(t, Pow(h))
    ensures Count(FirstSubtree(t, h)) == Count(t)
  {
    SubtreeData(t, height, h);
    assert Data(FirstSubtree(t, h)) == Data(t) by {
      forall q ensures q in Data(FirstSubtree(t, h)) <==> q in Data(t) {
        assert q.h == 0 ==> q == Pos(0, q.k);
      }
    }
  }

  lemma SubtreeClosed(t: Tree, height: nat, h: nat, free: set<nat>)
    requires Closed(t, height) && Distinct(t) && InUse(t, free) && h + 1 == height && Pos(height, 0) in t
    ensures Closed(FirstSubtree(t, h), h) && Distinct(FirstSubtree(t, h))
    ensures InUse(FirstSubtree(t, h), free + {t[Pos(height, 0)]})
  {
    var t' := FirstSubtree(t, h);
    forall p <- t' ensures p.h <= h && (if p.h == h then p.k == 0 else Parent(p) in t') {
    }
    assert Pos(height, 0) !in t';
  }

  lemma SubtreeNodes(meta: map<nat, seq<nat>>, t: Tree, h: nat)
    requires NodesOk(meta, t)
    ensures NodesOk(meta, FirstSubtree(t, h))
  {
    var t' := FirstSubtree(t, h);
    forall p <- t' | p.h > 0 ensures NodeOk(meta, t', p) {
      assert NodeOk(meta, t, p);
      forall i: nat | i < FAN ensures Slot(t', Child(p, i)) == Slot(t, Child(p, i)) {
        ParentOfChild(p, i);
      }
    }
  }

  lemma UnderFirst(t: Tree, h: nat, p: Pos)
    requires Tidy(t) && DataBelow(t, Pow(h)) && p in t && p.h <= h
    ensures Under(p, Pos(h, 0))
  {
    var b := TidyData(t, p);
    SpanAnc(b, h, h);
    AncAnc(Pos(0, b), p.h, h);
  }

  /** In a tidy tree with all its data below the first slot, only the top page goes. */
  lemma SubtreeTidy(t: Tree, height: nat, h: nat, free: set<nat>)
    requires Closed(t, height) && Tidy(t) && h + 1 == height && DataBelow(t, Pow(h)) && Pos(height, 0) in t
    ensures FirstSubtree(t, h) == Without(t, Pos(height, 0)) && Tidy(FirstSubtree(t, h))
    ensures Returned(t, FirstSubtree(t, h), free, free + {t[Pos(height, 0)]})
  {
    hide Tidy, DataBelow, Under;
    forall p <- t ensures Under(p, Pos(h, 0)) <==> p != Pos(height, 0) {
      if p.h <= h { UnderFirst(t, h, p); } else { TopOnly(t, height, p); NotUnder(p, Pos(h, 0)); }
    }
    assert FirstSubtree(t, h) == Without(t, Pos(height, 0));
    ReturnedOne(t, Pos(height, 0), free);
    WithoutTopTidy(t, height);
  }

  lemma NotUnder(p: Pos, q: Pos)
    requires p.h > q.h
    ensures !Under(p, q)
  {
  }

  lemma WithoutTopTidy(t: Tree, height: nat)
    requires Closed(t, height) && Tidy(t)
    ensures Tidy(Without(t, Pos(height, 0)))
  {
    hide Closed;
    var t' := Without(t, Pos(height, 0));
    forall p <- t' | p.h > 0 ensures HasChild(t', p) {
      HeightOk(t, height, p);
      assert HasChild(t, p);
      var i: nat :| i < FAN && Child(p, i) in t;
      ChildHeight(p, i);
      assert Child(p, i) in t';
    }
  }

  lemma CountZero(t: Tree)
    ensures Count(t) == 0 <==> !HasData(t)
  {
    if b: nat :| Pos(0, b) in t { assert Pos(0, b) in Data(t); }
    if Count(t) > 0 {
      var q :| q in Data(t);
      assert q == Pos(0, q.k);
    }
  }

  lemma SubTreeSelf(t: Tree)
    ensures SubTree(t, t)
  {
  }

  lemma DataBelowMore(t: Tree, g: nat, h: nat)
    requires DataBelow(t, Pow(g)) && g <= h
    ensures DataBelow(t, Pow(h))
  {
    PowMono(g, h);
  }

  lemma TopNode(meta: map<nat, seq<nat>>, t: Tree, height: nat)
    requires NodesOk(meta, t) && height > 0 && Pos(height, 0) in t
    ensures Slot(t, Pos(height, 0)) == t[Pos(height, 0)]
    ensures t[Pos(height, 0)] in meta && |meta[t[Pos(height, 0)]]| == FAN
    ensures meta[t[Pos(height, 0)]][0] == Slot(t, Pos(height - 1, 0))
  {
    assert NodeOk(meta, t, Pos(height, 0));
    assert Child(Pos(height, 0), 0) == Pos(height - 1, 0);
  }

  lemma SubtreeSlot(t: Tree, h: nat)
    ensures Slot(FirstSubtree(t, h), Pos(h, 0)) == Slot(t, Pos(h, 0))
    ensures forall p <- FirstSubtree(t, h) :: p in t && FirstSubtree(t, h)[p] == t[p]
  {
    SelfUnder(Pos(h, 0));
  }

  lemma SameData(t: Tree, t': Tree, g: nat)
    requires forall b: nat :: Pos(0, b) in t <==> Pos(0, b) in t'
    ensures HasData(t) <==> HasData(t')
    ensures DataBelow(t, Pow(g)) <==> DataBelow(t', Pow(g))
  {
  }

  // ---------------------------------------------------------------- what truncation leaves on top

  /** Cutting below the top and dropping the top if nothing is left is cutting the whole tree. */
  lemma WholeCut(t: Tree, t': Tree, height: nat, f: nat, l: nat)
    requires Closed(t, height) && Pos(height, 0) in t && Pos(height, 0) in t' && Pruned(t, t', Pos(height, 0), f, l)
    ensures (if Keep(t, f, l, Pos(height, 0)) then t' else Without(t', Pos(height, 0))) == Truncated(t, f, l)
  {
    hide Keep, Closed, Under;
    var top := Pos(height, 0);
    var end := if Keep(t, f, l, top) then t' else Without(t', top);
    PrunedWith(t, t', top, f, l);
    forall q <- t ensures Under(q, top) { HeightOk(t, height, q); WithinSpan(t, height, q); }
    forall q ensures q in end <==> q in Truncated(t, f, l) {
    }
  }

  /** The top stays exactly if some position lies outside the range altogether. */
  lemma TopStays(t: Tree, height: nat, f: nat, l: nat)
    requires Closed(t, height) && Pos(height, 0) in t
    ensures Keep(t, f, l, Pos(height, 0)) <==> exists p :: p in t && !Touched(p, f, l)
  {
    hide Closed;
    if Keep(t, f, l, Pos(height, 0)) { var p := KeptFor(t, f, l, Pos(height, 0)); }
    if p :| p in t && !Touched(p, f, l) {
      HeightOk(t, height, p);
      WithinSpan(t, height, p);
      KeepUp(t, height, f, l, p, Pos(height, 0));
    }
  }

  /** Whatever is kept is kept for a position that the range does not touch. */
  lemma {:induction false} KeptFor(t: Tree, f: nat, l: nat, p: Pos) returns (q: Pos)
    requires Keep(t, f, l, p)
    ensures q in t && !Touched(q, f, l)
    decreases p.h
  {
    if !Touched(p, f, l) {
      q := p;
    } else {
      var i: nat :| i < FAN && Keep(t, f, l, Child(p, i));
      q := KeptFor(t, f, l, Child(p, i));
    }
  }

  lemma TruncatedData(t: Tree, f: nat, l: nat)
    ensures forall b: nat :: Pos(0, b) in Truncated(t, f, l) <==> Pos(0, b) in t && !(f <= b <= l)
    ensures SubTree(t, Truncated(t, f, l))
  {
    forall b: nat ensures Keep(t, f, l, Pos(0, b)) <==> Pos(0, b) in t && !(f <= b <= l) {
      DataKept(t, f, l, b);
    }
  }

  /** In a tidy tree whose data ends with the range, something stays only for data before the range. */
  lemma TidyStays(t: Tree, height: nat, f: nat, l: nat, p: Pos)
    requires Closed(t, height) && Tidy(t) && p in t && !Touched(p, f, l) && DataBelow(t, l + 1)
    ensures exists b: nat :: Pos(0, b) in t && b < f
  {
    hide Closed, Tidy, Anc, Pow;
    var b := TidyData(t, p);
    UnderSpan(b, p);
    assert b < l + 1;
  }

  lemma UnderSpan(b: nat, p: Pos)
    requires Under(Pos(0, b), p)
    ensures Base(p) <= b < Base(p) + Pow(p.h)
  {
    AncBase(Pos(0, b), p.h);
    assert Base(Pos(0, b)) == b;
  }

  lemma NoTopNothing(t: Tree, height: nat)
    requires Closed(t, height) && Pos(height, 0) !in t
    ensures t == map[]
  {
    hide Closed;
    if p :| p in t {
      HeightOk(t, height, p);
      ClosedAnc(t, height, p, height);
      WithinSpan(t, height, p);
    }
  }

  lemma CeilDiv(x: nat, n: nat)
    requires n > 0
    ensures x > 0 ==> Div(x + n - 1, n) == Div(x - 1, n) + 1
    ensures x == 0 ==> Div(x + n - 1, n) == 0
  {
    if x > 0 {
      DivBounds(x - 1, n);
      var q := Div(x - 1, n);
      MulDistr(q, 1, n);
      MulDistr(q + 1, 1, n);
      Multiples(x + n - 1, q + 1, n);
    } else {
      DivZero(n - 1, n);
    }
  }

  /** The blocks that so many bytes take are those that begin below the end. */
  lemma BlocksAre(x: nat, n: nat, b: nat)
    requires n > 0
    ensures b < Div(x + n - 1, n) <==> b * n < x
  {
    var q := Div(x + n - 1, n);
    DivOrder(x + n - 1, n, b);
    DivBounds(x + n - 1, n);
    if b < q { assert b * n + n <= q * n; }
  }

  lemma NoBlocks(unit: nat, n: nat)
    requires unit > 0
    ensures unit * n == 0 <==> n == 0
  {
  }

  lemma NoDataBelow(t: Tree, n: nat)
    requires DataBelow(t, n)
    ensures n == 0 ==> !HasData(t)
    ensures HasData(t) ==> n > 0
  {
  }

  lemma EmptyTree(t: Tree, height: nat)
    requires Closed(t, height)
    ensures Pos(height, 0) !in t ==> t == map[] && Closed(t, 0) && !HasData(t)
  {
    if Pos(height, 0) !in t { NoTopNothing(t, height); }
  }

  lemma DataLimit(t: Tree, n: nat, h: nat)
    requires DataBelow(t, n) && n <= Pow(h)
    ensures DataBelow(t, Pow(h))
  {
  }

  lemma NoHigher(last: nat, h: nat, height: nat)
    requires last < Pow(h) && last < Pow(height) && (h > 0 ==> Pow(h - 1) <= last)
    ensures h <= height && last + 1 <= Pow(h)
  {
    if h > height { PowMono(height, h - 1); }
  }

  lemma DataInSpan(t: Tree, height: nat)
    requires Closed(t, height)
    ensures DataBelow(t, Pow(height))
  {
    hide Closed;
    forall b: nat | Pos(0, b) in t ensures b < Pow(height) {
      WithinSpan(t, height, Pos(0, b));
      assert Base(Pos(0, b)) == b;
    }
  }

  /** The last block to go: the last of the tree where blocks may lie past the end of the file. */
  function LastOf(blocks: nat, height: nat, all: bool): int {
    if all || blocks > Pow(height) then Pow(height) - 1 else blocks - 1
  }

  /** It is the last block of the tree that lies below `blocks`, or the last of all. */
  lemma LastOfIs(blocks: nat, height: nat, all: bool, b: nat)
    ensures b <= LastOf(blocks, height, all) <==> b < Pow(height) && (all || b < blocks)
  {
  }

  lemma DataUpTo(t: Tree, n: nat, height: nat, last: int, all: bool)
    requires DataBelow(t, Pow(height)) && (all || DataBelow(t, n))
    requires last == LastOf(n, height, all)
    ensures last < Pow(height) && forall b: nat | Pos(0, b) in t :: b <= last
  {
  }

  ghost predicate DataFrom(t: Tree, n: nat) {
    forall b: nat | Pos(0, b) in t :: b >= n
  }

  /** What is left when everything from `f` to the end of the data is cut. */
  lemma TruncatedMeans(t: Tree, height: nat, f: nat, l: nat)
    requires Closed(t, height) && Pos(height, 0) in t && (forall b: nat | Pos(0, b) in t :: b <= l)
    ensures SubTree(t, Truncated(t, f, l)) && DataBelow(Truncated(t, f, l), f)
    ensures forall b: nat :: Pos(0, b) in Truncated(t, f, l) <==> Pos(0, b) in t && b < f
    ensures forall b: nat | Pos(0, b) in Truncated(t, f, l) :: Truncated(t, f, l)[Pos(0, b)] == t[Pos(0, b)]
    ensures HasData(Truncated(t, f, l)) <==> !DataFrom(t, f)
    ensures Truncated(t, f, l) != map[] <==> exists p :: p in t && !Touched(p, f, l)
    ensures Tidy(t) ==> Tidy(Truncated(t, f, l)) && (Truncated(t, f, l) != map[] ==> HasData(Truncated(t, f, l)))
  {
    hide Closed, Keep, Tidy;
    var t' := Truncated(t, f, l);
    TruncatedData(t, f, l);
    TopStays(t, height, f, l);
    CutTop(t, height, f, l);
    if Tidy(t) {
      TruncatedTidy(t, height, f, l);
      if t' != map[] {
        var p :| p in t && !Touched(p, f, l);
        TidyStays(t, height, f, l, p) by { assert DataBelow(t, l + 1); }
      }
    }
    if HasData(t') {
      var b: nat :| Pos(0, b) in t';
      assert Pos(0, b) in t && b < f;
    }
    if !DataFrom(t, f) {
      var b: nat :| Pos(0, b) in t && b < f;
      assert Pos(0, b) in t';
    }
  }

  lemma CutTop(t: Tree, height: nat, f: nat, l: nat)
    requires Closed(t, height) && Pos(height, 0) in t
    ensures Truncated(t, f, l) != map[] <==> Keep(t, f, l, Pos(height, 0))
  {
    hide Closed, Keep;
    if p :| p in Truncated(t, f, l) {
      HeightOk(t, height, p);
      WithinSpan(t, height, p);
      KeepUp(t, height, f, l, p, Pos(height, 0));
    }
    if Keep(t, f, l, Pos(height, 0)) { assert Pos(height, 0) in Truncated(t, f, l); }
  }

  /**
   The tree of a file that got its first blocks at `first` keeps an empty page at height 1 if they lie past the
   first 512.  Truncating away all its data leaves a root behind for it exactly if 512 blocks or more are kept.
   */
  lemma SparseFileStops(t: Tree, height: nat, first: nat, last: nat, size: nat)
    requires Closed(t, height) && Filled(map[], t, 0, height, first, last)
    requires first <= last && Pos(0, first) in t && Pos(0, last) in t && DataFrom(t, first)
    ensures size <= last && DataFrom(t, size) && (exists p :: p in t && !Touched(p, size, last)) <==> FAN <= size <= first
  {
    hide Closed;
    WithinSpan(t, height, Pos(0, last));
    assert Base(Pos(0, last)) == last && Pow(1) == FAN && Base(Pos(1, 0)) == 0;
    if size <= first && DataFrom(t, size) {
      if p :| p in t && !Touched(p, size, last) {
        assert p.k == 0 && p.h > 0 && Base(p) == 0;
        PowMono(1, p.h);
      }
    }
    if FAN <= size <= first {
      assert Pos(1, 0) in t && !Touched(Pos(1, 0), size, last);
    }
  }
}
