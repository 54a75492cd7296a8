/** Adding file blocks to a tree, branch by branch. */
module RadixGrow {
  import opened Common
  import opened Arith
  import opened Radix
  import opened RadixCut

  /** `t'` adds positions below `p` that the file blocks `f` to `l` need, and nothing else. */
  ghost predicate Grown(t: Tree, t': Tree, p: Pos, f: nat, l: nat) {
    SubTree(t', t) && forall q <- t' | q !in t :: Below(q, p) && Touched(q, f, l)
  }

  /** Every position below `p` that the file blocks `f` to `l` need is there. */
  ghost predicate Full(t: Tree, p: Pos, f: nat, l: nat) {
    forall q | Below(q, p) && Touched(q, f, l) :: q in t
  }

  ghost predicate FullIn(t: Tree, p: Pos, f: nat, l: nat, lo: nat, i: nat) {
    forall q | InBranches(q, p, lo, i) && Touched(q, f, l) :: q in t
  }

  /** Only nodes at or below `p`, or on blocks that were free, may have changed. */
  ghost predicate FramedNew(meta: map<nat, seq<nat>>, meta': map<nat, seq<nat>>, t: Tree, free: set<nat>, p: Pos) {
    forall b <- meta :: b in meta' && (meta'[b] == meta[b] || b in free || exists q :: q in t && Under(q, p) && t[q] == b)
  }

  lemma ReturnedNone(t: Tree, free: set<nat>)
    ensures Returned(t, t, free, free)
  {
  }

  lemma FramedNewSame(meta: map<nat, seq<nat>>, t: Tree, free: set<nat>, p: Pos)
    ensures FramedNew(meta, meta, t, free, p)
  {
  }

  lemma NullFree(t: Tree, free: set<nat>)
    requires InUse(t, free)
    ensures 0 !in free
  {
  }

  function ZeroPage(): seq<nat> { seq(FAN, i => 0) }

  /** The pages once block `b` hangs in slot `i` of page `a`; a page of its own starts out empty. */
  function Hung(meta: map<nat, seq<nat>>, a: nat, i: nat, b: nat, page: bool): map<nat, seq<nat>>
    requires a in meta && i < |meta[a]|
  {
    (if page then meta[b := ZeroPage()] else meta)[a := meta[a][i := b]]
  }

  lemma AddTree(t: Tree, height: nat, free: set<nat>, c: Pos, b: nat)
    requires Closed(t, height) && Distinct(t) && InUse(t, free) && c !in t && b in free && b != 0
    requires c.h < height && Parent(c) in t
    ensures Closed(t[c := b], height) && Distinct(t[c := b]) && InUse(t[c := b], free - {b})
    ensures Returned(t[c := b], t, free - {b}, free) && SubTree(t[c := b], t)
    ensures Count(t[c := b]) == Count(t) + if c.h == 0 then 1 else 0
  {
    var t' := t[c := b];
    assert Without(t', c) == t;
    CountWithout(t', c);
    forall x ensures x in free <==> x in free - {b} || exists q :: q in t' && q !in t && t'[q] == x {
      if x == b { assert c in t' && c !in t && t'[c] == x; }
    }
  }

  /** Other nodes do not notice. */
  lemma AddNodeElsewhere(meta: map<nat, seq<nat>>, t: Tree, height: nat, free: set<nat>, p: Pos, i: nat, b: nat, q: Pos)
    requires p.h > 0 && p in t && i < FAN && Child(p, i) !in t && b in free
    requires Distinct(t) && InUse(t, free) && NodeOk(meta, t, p)
    requires q in t && q.h > 0 && q != p && NodeOk(meta, t, q)
    ensures NodeOk(Hung(meta, t[p], i, b, p.h > 1), t[Child(p, i) := b], q)
  {
    forall j: nat | j < FAN ensures Child(q, j) != Child(p, i) {
      if Child(q, j) == Child(p, i) { OneParent(p, i, q, j); }
    }
  }

  lemma AddNodeHere(meta: map<nat, seq<nat>>, t: Tree, free: set<nat>, p: Pos, i: nat, b: nat)
    requires p.h > 0 && p in t && i < FAN && Child(p, i) !in t && b in free
    requires InUse(t, free) && NodeOk(meta, t, p)
    ensures NodeOk(Hung(meta, t[p], i, b, p.h > 1), t[Child(p, i) := b], p)
  {
    forall j: nat | j < FAN && j != i ensures Child(p, j) != Child(p, i) {
    }
  }

  lemma AddNodeNew(meta: map<nat, seq<nat>>, t: Tree, height: nat, free: set<nat>, p: Pos, i: nat, b: nat)
    requires p.h > 1 && p in t && i < FAN && Child(p, i) !in t && b in free
    requires InUse(t, free) && NodeOk(meta, t, p) && Closed(t, height)
    ensures NodeOk(Hung(meta, t[p], i, b, true), t[Child(p, i) := b], Child(p, i))
  {
    var c := Child(p, i);
    HeightOk(t, height, p);
    forall j: nat | j < FAN ensures Child(c, j) !in t[c := b] {
      ParentOfChild(c, j);
    }
  }

  lemma NodeIn(meta: map<nat, seq<nat>>, t: Tree, p: Pos)
    requires p.h > 0 && p in t && NodeOk(meta, t, p)
    ensures t[p] in meta && |meta[t[p]]| == FAN
    ensures forall i: nat | i < FAN :: meta[t[p]][i] == Slot(t, Child(p, i))
  {
  }

  lemma AddNodes(meta: map<nat, seq<nat>>, t: Tree, height: nat, free: set<nat>, p: Pos, i: nat, b: nat)
    requires p.h > 0 && p in t && i < FAN && Child(p, i) !in t && b in free
    requires Closed(t, height) && Distinct(t) && InUse(t, free) && NodesBelow(meta, t, p) && NodeOk(meta, t, p)
    ensures NodesBelow(Hung(meta, t[p], i, b, p.h > 1), t[Child(p, i) := b], p)
    ensures NodeOk(Hung(meta, t[p], i, b, p.h > 1), t[Child(p, i) := b], p)
  {
    hide Closed, Distinct, InUse, NodeOk, Below, Hung;
    NodeIn(meta, t, p);
    BelowNot(p);
    AddNodeHere(meta, t, free, p, i, b);
    if p.h > 1 { AddNodeNew(meta, t, height, free, p, i, b); }
    forall q <- t[Child(p, i) := b] | q.h > 0 && Below(q, p) ensures NodeOk(Hung(meta, t[p], i, b, p.h > 1), t[Child(p, i) := b], q) {
      if q != Child(p, i) { AddNodeElsewhere(meta, t, height, free, p, i, b, q); }
    }
  }

  lemma AddFramed(meta: map<nat, seq<nat>>, t: Tree, free: set<nat>, p: Pos, i: nat, b: nat)
    requires p in t && b in free && t[p] in meta && i < |meta[t[p]]|
    ensures FramedNew(meta, Hung(meta, t[p], i, b, p.h > 1), t, free, p)
  {
    SelfUnder(p);
  }

  // ---------------------------------------------------------------- the loop over the children

  lemma AllocStarts(meta: map<nat, seq<nat>>, t: Tree, p: Pos, f: nat, l: nat, free: set<nat>, lo: nat)
    ensures Grown(t, t, p, f, l) && FullIn(t, p, f, l, lo, lo) && Returned(t, t, free, free) && FramedNew(meta, meta, t, free, p)
  {
  }

  /** The tree after one more child: itself, and what grew below it. */
  ghost predicate GrownAt(t: Tree, t': Tree, c: Pos, f: nat, l: nat) {
    SubTree(t', t) && forall q <- t' | q !in t :: Under(q, c) && Touched(q, f, l)
  }

  lemma GrownBelow(t: Tree, t': Tree, t'': Tree, c: Pos, f: nat, l: nat)
    requires SubTree(t', t) && (forall q <- t' | q !in t :: q == c) && Touched(c, f, l) && Grown(t', t'', c, f, l)
    ensures GrownAt(t, t'', c, f, l)
  {
    SelfUnder(c);
    forall q <- t'' | q !in t ensures Under(q, c) && Touched(q, f, l) {
      UnderIs(q, c);
    }
  }

  lemma GrownNext(t: Tree, t': Tree, t'': Tree, p: Pos, f: nat, l: nat, lo: nat, i: nat)
    requires p.h > 0 && i < FAN && Grown(t, t', p, f, l) && GrownAt(t', t'', Child(p, i), f, l)
    ensures Grown(t, t'', p, f, l) && SubTree(t'', t')
  {
    forall q <- t'' | q !in t ensures Below(q, p) && Touched(q, f, l) {
      if q !in t' { UnderChild(q, p, i); }
    }
  }

  lemma FullNext(t: Tree, t': Tree, p: Pos, f: nat, l: nat, lo: nat, i: nat)
    requires p.h > 0 && i < FAN && FullIn(t, p, f, l, lo, i) && SubTree(t', t) && Child(p, i) in t' && Full(t', Child(p, i), f, l)
    ensures FullIn(t', p, f, l, lo, i + 1)
  {
    forall q | InBranches(q, p, lo, i + 1) && Touched(q, f, l) ensures q in t' {
      if Branch(q, p) == i {
        InBranch(q, p, i);
        UnderIs(q, Child(p, i));
      } else {
        assert InBranches(q, p, lo, i);
        assert q in t;
      }
    }
  }

  /** The branches of a window hold all that it needs below `p`. */
  lemma FullAll(t: Tree, p: Pos, f: nat, l: nat, first: nat, last: nat)
    requires p.h > 0 && Window(p, f, l, first, last)
    requires FullIn(t, p, f, l, Div(first, Pow(p.h - 1)), Div(last, Pow(p.h - 1)) + 1)
    ensures Full(t, p, f, l)
  {
    hide Window, Div, Pow;
    forall q | Below(q, p) && Touched(q, f, l) ensures q in t {
      BranchIs(q, p);
      WindowTouches(p, f, l, first, last, Branch(q, p));
      UnderTouched(q, Child(p, Branch(q, p)), f, l);
    }
  }

  lemma FullLeaf(t: Tree, p: Pos, f: nat, l: nat)
    requires p.h == 0
    ensures Full(t, p, f, l) && Grown(t, t, p, f, l)
  {
  }

  lemma FramedNewElsewhere(meta: map<nat, seq<nat>>, meta': map<nat, seq<nat>>, t: Tree, free: set<nat>, c: Pos, q: Pos)
    requires FramedNew(meta, meta', t, free, c) && Distinct(t) && InUse(t, free) && q in t && t[q] in meta && !Under(q, c)
    ensures t[q] in meta' && meta'[t[q]] == meta[t[q]]
  {
  }

  lemma NodeElsewhereNew(meta: map<nat, seq<nat>>, meta': map<nat, seq<nat>>, t: Tree, t': Tree, free: set<nat>, c: Pos, f: nat, l: nat, q: Pos)
    requires q.h > 0 && q in t && NodeOk(meta, t, q) && Distinct(t) && InUse(t, free) && !Under(q, c)
    requires Grown(t, t', c, f, l) && FramedNew(meta, meta', t, free, c)
    ensures q in t' && NodeOk(meta', t', q)
  {
    FramedNewElsewhere(meta, meta', t, free, c, q);
    forall j: nat | j < FAN ensures Slot(t', Child(q, j)) == Slot(t, Child(q, j)) {
      if Below(Child(q, j), c) { ChildBelow(q, j, c); }
    }
  }

  /** Growth below a child leaves the other nodes, and `p` itself, in order. */
  lemma NodesAfterGrowth(meta: map<nat, seq<nat>>, meta': map<nat, seq<nat>>, t: Tree, t': Tree, free: set<nat>, p: Pos, i: nat, f: nat, l: nat)
    requires p.h > 1 && i < FAN && p in t && NodesBelow(meta, t, p) && NodeOk(meta, t, p) && Distinct(t) && InUse(t, free)
    requires Child(p, i) in t' && Grown(t, t', Child(p, i), f, l) && FramedNew(meta, meta', t, free, Child(p, i))
    requires NodesBelow(meta', t', Child(p, i)) && NodeOk(meta', t', Child(p, i))
    ensures NodesBelow(meta', t', p) && p in t' && NodeOk(meta', t', p)
  {
    hide Under, Below, NodeOk, FramedNew, Distinct, InUse, Touched;
    var c := Child(p, i);
    NotOwnChild(p, i);
    NodeElsewhereNew(meta, meta', t, t', free, c, f, l, p);
    forall q <- t' | q.h > 0 && Below(q, p) ensures NodeOk(meta', t', q) {
      UnderIs(q, c);
      if !Under(q, c) { NodeElsewhereNew(meta, meta', t, t', free, c, f, l, q); }
    }
  }

  lemma FramedNewUp(meta: map<nat, seq<nat>>, meta': map<nat, seq<nat>>, meta'': map<nat, seq<nat>>, t: Tree, t': Tree,
                    free: set<nat>, free': set<nat>, p: Pos, i: nat)
    requires p.h > 0 && i < FAN && FramedNew(meta, meta', t, free, p) && FramedNew(meta', meta'', t', free', Child(p, i))
    requires SubTree(t', t) && Returned(t', t, free', free)
    ensures FramedNew(meta, meta'', t, free, p)
  {
    forall b <- meta ensures b in meta'' && (meta''[b] == meta[b] || b in free || exists q :: q in t && Under(q, p) && t[q] == b) {
      if meta''[b] != meta'[b] && b !in free' {
        var q :| q in t' && Under(q, Child(p, i)) && t'[q] == b;
        UnderChild(q, p, i);
        UnderIs(q, p);
        if q in t { assert t[q] == b; }
      }
    }
  }

  lemma FramedNewTwice(meta: map<nat, seq<nat>>, meta': map<nat, seq<nat>>, meta'': map<nat, seq<nat>>, t: Tree, t': Tree,
                       free: set<nat>, free': set<nat>, p: Pos)
    requires FramedNew(meta, meta', t, free, p) && FramedNew(meta', meta'', t', free', p)
    requires SubTree(t', t) && Returned(t', t, free', free)
    ensures FramedNew(meta, meta'', t, free, p)
  {
    forall b <- meta ensures b in meta'' && (meta''[b] == meta[b] || b in free || exists q :: q in t && Under(q, p) && t[q] == b) {
      if meta''[b] != meta'[b] && b !in free' {
        var q :| q in t' && Under(q, p) && t'[q] == b;
        if q in t { assert t[q] == b; }
      }
    }
  }

  lemma ReturnedAgain(t: Tree, t': Tree, t'': Tree, free: set<nat>, free': set<nat>, free'': set<nat>)
    requires SubTree(t', t) && SubTree(t'', t') && Returned(t', t, free', free) && Returned(t'', t', free'', free')
    ensures SubTree(t'', t) && Returned(t'', t, free'', free)
  {
    ReturnedTwice(t'', t', t, free'', free', free);
  }

  lemma GrownSub(t: Tree, t': Tree, p: Pos, f: nat, l: nat)
    requires Grown(t, t', p, f, l)
    ensures SubTree(t', t)
  {
  }

  lemma NodeNotFree(meta: map<nat, seq<nat>>, t: Tree, free: set<nat>, p: Pos, b: nat)
    requires InUse(t, free) && p in t && b in free
    ensures t[p] != b
  {
  }

  // ---------------------------------------------------------------- growing at the top

  lemma GrowTopTree(t: Tree, height: nat, free: set<nat>, b: nat)
    requires Closed(t, height) && Distinct(t) && InUse(t, free) && b in free
    ensures var t' := t[Pos(height + 1, 0) := b];
            Closed(t', height + 1) && Distinct(t') && InUse(t', free - {b})
  {
    assert b != 0;
  }

  /** The page above the root: its first slot leads to the old root, and every other one is null. */
  lemma GrowTopNodes(meta: map<nat, seq<nat>>, t: Tree, height: nat, free: set<nat>, b: nat)
    requires Closed(t, height) && InUse(t, free) && b in free && NodesOk(meta, t)
    ensures NodesOk(meta[b := ZeroPage()[0 := Slot(t, Pos(height, 0))]], t[Pos(height + 1, 0) := b])
  {
    hide Closed;
    var top := Pos(height + 1, 0);
    var t' := t[top := b];
    var meta' := meta[b := ZeroPage()[0 := Slot(t, Pos(height, 0))]];
    forall p <- t' | p.h > 0 ensures NodeOk(meta', t', p) {
      if p == top {
        forall i: nat | i < FAN ensures Slot(t', Child(top, i)) == if i == 0 then Slot(t, Pos(height, 0)) else 0 {
          if Child(top, i) in t { TopOnly(t, height, Child(top, i)); }
        }
      } else {
        HeightOk(t, height, p);
        assert NodeOk(meta, t, p);
        forall i: nat | i < FAN ensures Child(p, i) != top { ChildHeight(p, i); }
      }
    }
  }

  lemma GrowTopCounts(t: Tree, height: nat, free: set<nat>, b: nat)
    requires Closed(t, height) && b in free
    ensures var t' := t[Pos(height + 1, 0) := b];
            Count(t') == Count(t) && SubTree(t', t) && Returned(t', t, free - {b}, free)
  {
    var top := Pos(height + 1, 0);
    var t' := t[top := b];
    assert top !in t;
    assert Without(t', top) == t;
    CountWithout(t', top);
    forall x ensures x in free <==> x in free - {b} || exists q :: q in t' && q !in t && t'[q] == x {
      if x == b { assert top in t' && top !in t && t'[top] == x; }
    }
  }

  /** Adding what a window needs leaves no inner position without a child, provided it reaches those that had none. */
  lemma GrownTidy(t: Tree, t': Tree, p: Pos, height: nat, f: nat, l: nat)
    requires Closed(t, height) && p == Pos(height, 0) && f <= l && Grown(t, t', p, f, l) && Full(t', p, f, l)
    requires forall q <- t | q.h > 0 :: HasChild(t, q) || Touched(q, f, l)
    requires Closed(t', height)
    ensures Tidy(t')
  {
    forall q <- t' | q.h > 0 ensures HasChild(t', q) {
      if q in t && HasChild(t, q) {
        var i: nat :| i < FAN && Child(q, i) in t;
        assert Child(q, i) in t';
      } else {
        assert Touched(q, f, l);
        var i := TouchedChild(q, f, l);
        ClosedAnc(t', height, q, height);
        WithinSpan(t', height, q);
        ParentOfChild(q, i);
        assert Below(Child(q, i), p);
        assert Child(q, i) in t';
      }
    }
  }

  lemma TouchedChild(q: Pos, f: nat, l: nat) returns (i: nat)
    requires q.h > 0 && f <= l && Touched(q, f, l)
    ensures i < FAN && Touched(Child(q, i), f, l)
  {
    var w := Pow(q.h - 1);
    var first := Max(f, Base(q)) - Base(q);
    var last := Min(l, Base(q) + Pow(q.h) - 1) - Base(q);
    assert Window(q, f, l, first, last);
    i := Div(first, w);
    WindowIndices(q, f, l, first, last);
    WindowTouches(q, f, l, first, last, i);
  }

  /** A new window in the whole tree. */
  lemma WholeWindow(height: nat, first: nat, last: nat)
    requires first <= last < Pow(height)
    ensures Window(Pos(height, 0), first, last, first, last)
  {
    assert Base(Pos(height, 0)) == 0;
  }

  lemma NodesAll(meta: map<nat, seq<nat>>, t: Tree, height: nat)
    requires Closed(t, height) && height > 0 && Pos(height, 0) in t
    ensures NodesOk(meta, t) <==> NodesBelow(meta, t, Pos(height, 0)) && NodeOk(meta, t, Pos(height, 0))
  {
    hide NodeOk, Closed, Below;
    var top := Pos(height, 0);
    BelowNot(top);
    if NodesBelow(meta, t, top) && NodeOk(meta, t, top) {
      forall p <- t | p.h > 0 ensures NodeOk(meta, t, p) {
        HeightOk(t, height, p);
        WithinSpan(t, height, p);
        UnderIs(p, top);
      }
    }
  }

  /** Among the data blocks, exactly the window is new. */
  lemma GrownData(t: Tree, t': Tree, height: nat, first: nat, last: nat)
    requires Grown(t, t', Pos(height, 0), first, last) && first <= last < Pow(height)
    ensures forall b: nat | Pos(0, b) in t' :: Pos(0, b) in t || first <= b <= last
    ensures height > 0 && Full(t', Pos(height, 0), first, last) ==> forall b: nat | first <= b <= last :: Pos(0, b) in t'
  {
    forall b: nat ensures Touched(Pos(0, b), first, last) <==> first <= b <= last {
      assert Base(Pos(0, b)) == b;
    }
    if height > 0 && Full(t', Pos(height, 0), first, last) {
      forall b: nat | first <= b <= last ensures Pos(0, b) in t' {
        SpanAnc(b, height, height);
        assert Below(Pos(0, b), Pos(height, 0));
      }
    }
  }

  /** The pages on top: one at every new height, each above the other. */
  ghost predicate Raised(t: Tree, t': Tree, low: nat, height: nat) {
    && SubTree(t', t) && (forall q <- t' | q !in t :: q.k == 0 && low < q.h)
    && forall g: nat | low < g <= height :: Pos(g, 0) in t'
  }

  /** What allocating `first` to `last` adds: positions they need, and pages on the way from the old root to the new. */
  ghost predicate Filled(t: Tree, t': Tree, low: nat, height: nat, first: nat, last: nat) {
    && (forall q <- t' | q !in t :: Touched(q, first, last) || (q.k == 0 && low < q.h))
    && forall g: nat | low < g <= height :: Pos(g, 0) in t'
  }

  lemma RaisedFilled(t: Tree, t': Tree, low: nat, height: nat, first: nat, last: nat)
    requires Raised(t, t', low, height)
    ensures Filled(t, t', low, height, first, last)
  {
  }

  lemma GrownFilled(t: Tree, t': Tree, t'': Tree, low: nat, height: nat, p: Pos, first: nat, last: nat)
    requires Raised(t, t', low, height) && Grown(t', t'', p, first, last)
    ensures Filled(t, t'', low, height, first, last)
  {
  }

  /**
   Growing a tree that has a root keeps it tidy.  Starting from no root leaves a page without children
   at height 1, and it gets one exactly if the window begins in its 512 blocks.
   */
  lemma AllocTidy(t: Tree, t': Tree, t'': Tree, low: nat, height: nat, first: nat, last: nat)
    requires Tidy(t) && Raised(t, t', low, height) && Closed(t', height) && Closed(t'', height) && height > 0
    requires Grown(t', t'', Pos(height, 0), first, last) && Full(t'', Pos(height, 0), first, last) && first <= last
    requires Pos(low, 0) in t || (low == 0 && t == map[])
    ensures Tidy(t'') <==> Pos(low, 0) in t || first < FAN
  {
    hide Closed;
    forall q <- t' | q.h > 0 && !HasChild(t', q) ensures t == map[] && q == Pos(1, 0) {
      RaisedChild(t, t', low, height, q);
    }
    if Pos(low, 0) in t || first < FAN {
      forall q <- t' | q.h > 0 ensures HasChild(t', q) || Touched(q, first, last) {
        assert q == Pos(1, 0) ==> Base(q) == 0;
      }
      GrownTidy(t', t'', Pos(height, 0), height, first, last);
    } else {
      forall i: nat | i < FAN ensures Child(Pos(1, 0), i) !in t'' {
        assert Base(Child(Pos(1, 0), i)) == i;
      }
      assert Pos(1, 0) in t' && Pos(1, 0) in t'' && !HasChild(t'', Pos(1, 0));
    }
  }

  lemma TidyStill(t: Tree, t': Tree, q: Pos)
    requires Tidy(t) && SubTree(t', t) && q in t && q.h > 0
    ensures HasChild(t', q)
  {
    assert HasChild(t, q);
    var i: nat :| i < FAN && Child(q, i) in t;
    assert Child(q, i) in t';
  }

  lemma RaisedNext(t: Tree, t': Tree, low: nat, height: nat, b: nat)
    requires Raised(t, t', low, height) && Closed(t', height) && low <= height
    ensures Raised(t, t'[Pos(height + 1, 0) := b], low, height + 1)
  {
    assert Pos(height + 1, 0) !in t';
  }

  lemma RaisedChild(t: Tree, t': Tree, low: nat, height: nat, q: Pos)
    requires Tidy(t) && Raised(t, t', low, height) && Closed(t', height) && q in t' && q.h > 0 && !HasChild(t', q)
    requires Pos(low, 0) in t || (low == 0 && t == map[])
    ensures t == map[] && q == Pos(1, 0)
  {
    hide Closed;
    HeightOk(t', height, q);
    if q in t {
      TidyStill(t, t', q);
    } else {
      assert Child(q, 0) == Pos(q.h - 1, 0);
      assert Pos(q.h - 1, 0) !in t';
    }
  }
}
