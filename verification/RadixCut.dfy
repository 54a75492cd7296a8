/** Cutting a range of file blocks out of a tree, branch by branch. */
module RadixCut {
  import opened Arith
  import opened Radix

  predicate InBranches(q: Pos, p: Pos, lo: nat, i: nat) {
    Below(q, p) && lo <= Branch(q, p) < i
  }

  ghost predicate SubTree(t: Tree, t': Tree) {
    forall q <- t' :: q in t && t'[q] == t[q]
  }

  /** The branches `lo` to `i` of `p` have been cut. */
  ghost predicate Partly(t: Tree, t': Tree, p: Pos, f: nat, l: nat, lo: nat, i: nat) {
    SubTree(t, t') && forall q <- t :: q in t' <==> (InBranches(q, p, lo, i) ==> Keep(t, f, l, q))
  }

  /** Everything below `p` has been cut. */
  ghost predicate Pruned(t: Tree, t': Tree, p: Pos, f: nat, l: nat) {
    SubTree(t, t') && forall q <- t :: q in t' <==> (Below(q, p) ==> Keep(t, f, l, q))
  }

  lemma {:induction false} UnderUnder(r: Pos, q: Pos, p: Pos)
    requires Under(r, q) && Under(q, p)
    ensures Under(r, p)
  {
    AncAnc(r, q.h, p.h);
  }

  lemma BelowChild(q: Pos, p: Pos, i: nat)
    requires p.h > 0 && i < FAN && Under(q, Child(p, i))
    ensures Below(q, p) && Branch(q, p) == i
  {
    UnderChild(q, p, i);
  }

  /** The branch still to come is as it was. */
  lemma BranchSame(t: Tree, t': Tree, p: Pos, f: nat, l: nat, lo: nat, i: nat)
    requires p.h > 0 && i < FAN && Partly(t, t', p, f, l, lo, i)
    ensures SameUnder(t, t', Child(p, i))
  {
    forall q | Under(q, Child(p, i)) ensures q in t <==> q in t' {
      BelowChild(q, p, i);
    }
  }

  lemma KeepInBranch(t: Tree, t': Tree, p: Pos, f: nat, l: nat, lo: nat, i: nat, q: Pos)
    requires p.h > 0 && i < FAN && Partly(t, t', p, f, l, lo, i) && Under(q, Child(p, i))
    ensures Keep(t, f, l, q) == Keep(t', f, l, q)
  {
    BranchSame(t, t', p, f, l, lo, i);
    forall r | Under(r, q) ensures r in t <==> r in t' {
      UnderUnder(r, q, Child(p, i));
    }
    KeepSame(t, t', f, l, q);
  }

  function Without(t: Tree, p: Pos): Tree { t - {p} }

  /** `p` and everything below it have been cut. */
  ghost predicate PrunedAt(t: Tree, t': Tree, p: Pos, f: nat, l: nat) {
    SubTree(t, t') && forall q <- t :: q in t' <==> (Under(q, p) ==> Keep(t, f, l, q))
  }

  lemma PartlyNext(t: Tree, t': Tree, t'': Tree, p: Pos, f: nat, l: nat, lo: nat, i: nat)
    requires p.h > 0 && lo <= i < FAN && Partly(t, t', p, f, l, lo, i) && PrunedAt(t', t'', Child(p, i), f, l)
    ensures Partly(t, t'', p, f, l, lo, i + 1)
    ensures Keep(t', f, l, Child(p, i)) == Keep(t, f, l, Child(p, i))
  {
    hide Keep, Under, Below;
    var c := Child(p, i);
    SelfUnder(c);
    KeepInBranch(t, t', p, f, l, lo, i, c);
    forall q <- t ensures q in t'' <==> (InBranches(q, p, lo, i + 1) ==> Keep(t, f, l, q)) {
      InBranch(q, p, i);
      if Under(q, c) { KeepInBranch(t, t', p, f, l, lo, i, q); }
    }
  }

  /** Below a child first, then the child where nothing is left of it. */
  lemma PrunedWith(t: Tree, t': Tree, p: Pos, f: nat, l: nat)
    requires p in t && p in t' && Pruned(t, t', p, f, l)
    ensures PrunedAt(t, if Keep(t, f, l, p) then t' else Without(t', p), p, f, l)
  {
    hide Keep;
    BelowNot(p);
    forall q: Pos ensures Under(q, p) <==> q == p || Below(q, p) { UnderIs(q, p); }
  }

  lemma PrunedOthers(t: Tree, t': Tree, p: Pos, i: nat, f: nat, l: nat)
    requires p.h > 0 && i < FAN && PrunedAt(t, t', Child(p, i), f, l)
    ensures forall j: nat | j < FAN && j != i :: Child(p, j) in t <==> Child(p, j) in t'
    ensures Child(p, i) in t ==> (Child(p, i) in t' <==> Keep(t, f, l, Child(p, i)))
  {
    hide Keep;
    SelfUnder(Child(p, i));
    forall j: nat | j < FAN && j != i ensures Child(p, j) in t <==> Child(p, j) in t' {
      if Under(Child(p, j), Child(p, i)) {
        SelfUnder(Child(p, j));
        BranchesApart(Child(p, j), p, i, j);
      }
    }
  }

  lemma SelfUnder(p: Pos)
    ensures Under(p, p)
  {
  }

  lemma UnderIs(q: Pos, p: Pos)
    ensures Under(q, p) <==> q == p || Below(q, p)
  {
  }

  lemma InBranch(q: Pos, p: Pos, i: nat)
    requires p.h > 0 && i < FAN
    ensures Below(q, p) && Branch(q, p) == i <==> Under(q, Child(p, i))
  {
    if Below(q, p) { BranchIs(q, p); }
    if Under(q, Child(p, i)) { UnderChild(q, p, i); }
  }

  lemma UnderIn(t: Tree, height: nat, q: Pos, p: Pos)
    requires Closed(t, height) && q in t && Under(q, p) && p.h <= height
    ensures p in t
  {
    ClosedAnc(t, height, q, p.h);
  }

  /** An empty branch needs no cutting. */
  lemma PartlySkip(t: Tree, t': Tree, height: nat, p: Pos, f: nat, l: nat, lo: nat, i: nat)
    requires p.h > 0 && lo <= i < FAN && Partly(t, t', p, f, l, lo, i) && Closed(t', height) && p.h <= height
    requires Child(p, i) !in t'
    ensures Partly(t, t', p, f, l, lo, i + 1)
  {
    hide Keep, Under, Closed, Anc;
    forall q <- t ensures q in t' <==> (InBranches(q, p, lo, i + 1) ==> Keep(t, f, l, q)) {
      InBranch(q, p, i);
      if Under(q, Child(p, i)) { UnderIn(t', height, q, Child(p, i)); }
    }
  }

  lemma UntouchedKept(t: Tree, f: nat, l: nat, p: Pos, q: Pos)
    requires q in t && Under(q, p) && !Touched(p, f, l)
    ensures Keep(t, f, l, q)
  {
    if Touched(q, f, l) { UnderTouched(q, p, f, l); }
  }

  /** Once the branches that the window reaches are cut, everything is. */
  lemma PartlyAll(t: Tree, t': Tree, p: Pos, f: nat, l: nat, first: nat, last: nat)
    requires p.h > 0 && p in t && Window(p, f, l, first, last)
    requires Partly(t, t', p, f, l, Div(first, Pow(p.h - 1)), Div(last, Pow(p.h - 1)) + 1)
    ensures Pruned(t, t', p, f, l)
    ensures Keep(t, f, l, p) <==> HasChild(t', p)
  {
    hide Window, Div, Pow, Keep;
    var lo, hi := Div(first, Pow(p.h - 1)), Div(last, Pow(p.h - 1));
    forall q <- t ensures q in t' <==> (Below(q, p) ==> Keep(t, f, l, q)) {
      if Below(q, p) {
        BranchIs(q, p);
        WindowTouches(p, f, l, first, last, Branch(q, p));
        if !(lo <= Branch(q, p) <= hi) { UntouchedKept(t, f, l, Child(p, Branch(q, p)), q); }
      }
    }
    KeepIs(t, t', p, f, l, first, last);
  }

  lemma KeepIs(t: Tree, t': Tree, p: Pos, f: nat, l: nat, first: nat, last: nat)
    requires p.h > 0 && p in t && Window(p, f, l, first, last) && Pruned(t, t', p, f, l)
    ensures Keep(t, f, l, p) <==> HasChild(t', p)
  {
    assert Touched(p, f, l);
    forall i: nat | i < FAN ensures Child(p, i) in t' <==> Keep(t, f, l, Child(p, i)) {
      SelfUnder(Child(p, i));
      UnderChild(Child(p, i), p, i);
    }
  }

  // ---------------------------------------------------------------- blocks and counts

  /** The blocks that `t'` no longer uses have returned to the free ones. */
  ghost predicate Returned(t: Tree, t': Tree, free: set<nat>, free': set<nat>) {
    forall b :: b in free' <==> b in free || exists q :: q in t && q !in t' && t[q] == b
  }

  lemma ReturnedTwice(t: Tree, t': Tree, t'': Tree, free: set<nat>, free': set<nat>, free'': set<nat>)
    requires SubTree(t, t') && SubTree(t', t'') && Returned(t, t', free, free') && Returned(t', t'', free', free'')
    ensures SubTree(t, t'') && Returned(t, t'', free, free'')
  {
    forall b ensures b in free'' <==> b in free || exists q :: q in t && q !in t'' && t[q] == b {
      if b in free'' && b !in free {
        if b in free' {
          var q :| q in t && q !in t' && t[q] == b;
          assert q !in t'';
        } else {
          var q :| q in t' && q !in t'' && t'[q] == b;
          assert t[q] == b;
        }
      }
      if q :| q in t && q !in t'' && t[q] == b {
        if q in t' { assert t'[q] == b; }
      }
    }
  }

  lemma ReturnedOne(t: Tree, p: Pos, free: set<nat>)
    requires p in t
    ensures SubTree(t, Without(t, p)) && Returned(t, Without(t, p), free, free + {t[p]})
  {
  }

  function Data(t: Tree): set<Pos> { set q | q in t && q.h == 0 }

  function Count(t: Tree): nat { |Data(t)| }

  lemma CountWithout(t: Tree, p: Pos)
    requires p in t
    ensures Count(t) == Count(Without(t, p)) + if p.h == 0 then 1 else 0
  {
    if p.h == 0 {
      assert Data(t) == Data(Without(t, p)) + {p};
    } else {
      assert Data(t) == Data(Without(t, p));
    }
  }

  // ---------------------------------------------------------------- nodes

  ghost predicate NodeOk(meta: map<nat, seq<nat>>, t: Tree, p: Pos)
    requires p.h > 0 && p in t
  {
    t[p] in meta && |meta[t[p]]| == FAN && forall i: nat | i < FAN :: meta[t[p]][i] == Slot(t, Child(p, i))
  }

  ghost predicate NodesOk(meta: map<nat, seq<nat>>, t: Tree) {
    forall p <- t :: p.h > 0 ==> NodeOk(meta, t, p)
  }

  ghost predicate NodesBelow(meta: map<nat, seq<nat>>, t: Tree, p: Pos) {
    forall q <- t :: q.h > 0 && Below(q, p) ==> NodeOk(meta, t, q)
  }

  ghost predicate InUse(t: Tree, free: set<nat>) {
    0 !in free && forall q <- t :: t[q] !in free
  }

  /** Only nodes at or below `p` may have changed. */
  ghost predicate Framed(meta: map<nat, seq<nat>>, meta': map<nat, seq<nat>>, t: Tree, p: Pos) {
    forall b <- meta :: b in meta' && (meta'[b] == meta[b] || exists q :: q in t && Under(q, p) && t[q] == b)
  }

  lemma FramedElsewhere(meta: map<nat, seq<nat>>, meta': map<nat, seq<nat>>, t: Tree, p: Pos, q: Pos)
    requires Framed(meta, meta', t, p) && Distinct(t) && q in t && t[q] in meta && !Under(q, p)
    ensures t[q] in meta' && meta'[t[q]] == meta[t[q]]
  {
  }

  lemma FramedUp(meta: map<nat, seq<nat>>, meta': map<nat, seq<nat>>, t: Tree, t': Tree, p: Pos, i: nat)
    requires p.h > 0 && i < FAN && SubTree(t, t') && Framed(meta, meta', t', Child(p, i))
    ensures Framed(meta, meta', t, p)
  {
    forall b <- meta ensures b in meta' && (meta'[b] == meta[b] || exists q :: q in t && Under(q, p) && t[q] == b) {
      if meta'[b] != meta[b] {
        var q :| q in t' && Under(q, Child(p, i)) && t'[q] == b;
        UnderChild(q, p, i);
        UnderIs(q, p);
        assert t[q] == b;
      }
    }
  }

  lemma FramedTwice(meta: map<nat, seq<nat>>, meta': map<nat, seq<nat>>, meta'': map<nat, seq<nat>>, t: Tree, p: Pos)
    requires Framed(meta, meta', t, p) && Framed(meta', meta'', t, p)
    ensures Framed(meta, meta'', t, p)
  {
    forall b <- meta ensures b in meta'' && (meta''[b] == meta[b] || exists q :: q in t && Under(q, p) && t[q] == b) {
    }
  }

  // ---------------------------------------------------------------- the loop over the children

  /** Which children are left, and what the loop has noted about it. */
  ghost predicate Noted(t: Tree, p: Pos, lo: nat, hi: nat, i: nat, all: bool, start: int, end: int)
    requires p.h > 0
  {
    && (all <==> forall j: nat | lo <= j < i :: Child(p, j) !in t)
    && (forall j: nat | lo < j < i && j < hi :: Child(p, j) !in t)
    && start == lo + (if i > lo && Child(p, lo) in t then 1 else 0)
    && end == hi - (if i > hi && hi != lo && Child(p, hi) in t then 1 else 0)
  }

  lemma NotedNext(t: Tree, t': Tree, p: Pos, lo: nat, hi: nat, i: nat, all: bool, start: int, end: int)
    requires p.h > 0 && lo <= i <= hi < FAN && Noted(t, p, lo, hi, i, all, start, end)
    requires forall j: nat | j < FAN && j != i :: Child(p, j) in t <==> Child(p, j) in t'
    requires lo < i < hi ==> Child(p, i) !in t'
    ensures var left := Child(p, i) in t';
            Noted(t', p, lo, hi, i + 1, all && !left,
                  if left && i == lo then start + 1 else start,
                  if left && i != lo && i == hi then end - 1 else end)
  {
  }

  /** After the loop, clearing `start` to `end` brings the node in line with what is left. */
  lemma NotedClears(node: seq<nat>, t: Tree, t': Tree, p: Pos, lo: nat, hi: nat, all: bool, start: int, end: int, node': seq<nat>)
    requires p.h > 0 && lo <= hi < FAN && Noted(t', p, lo, hi, hi + 1, all, start, end) && SubTree(t, t')
    requires |node| == FAN == |node'| && forall i: nat | i < FAN :: node[i] == Slot(t, Child(p, i))
    requires forall i: nat | i < FAN && !(lo <= i <= hi) :: Child(p, i) in t <==> Child(p, i) in t'
    requires forall i: nat | i < FAN :: node'[i] == if start <= i <= end then 0 else node[i]
    ensures forall i: nat | i < FAN :: node'[i] == Slot(t', Child(p, i))
  {
    forall i: nat | i < FAN ensures node'[i] == Slot(t', Child(p, i)) {
    }
  }

  // ---------------------------------------------------------------- one child cut

  /** The parent of something below `c` is `c` or below it. */
  lemma ChildBelow(q: Pos, j: nat, c: Pos)
    requires q.h > 0 && j < FAN && Below(Child(q, j), c)
    ensures Under(q, c)
  {
    ParentOfChild(q, j);
    ParentUnder(Child(q, j), c);
  }

  lemma NodesInChild(meta: map<nat, seq<nat>>, t: Tree, p: Pos, i: nat)
    requires p.h > 0 && i < FAN && NodesBelow(meta, t, p) && Child(p, i) in t
    ensures NodesBelow(meta, t, Child(p, i)) && (p.h > 1 ==> NodeOk(meta, t, Child(p, i)))
  {
    forall q <- t | q.h > 0 && Under(q, Child(p, i)) ensures NodeOk(meta, t, q) {
      UnderChild(q, p, i);
    }
    SelfUnder(Child(p, i));
  }

  /** A node elsewhere does not notice. */
  lemma NodeElsewhere(meta: map<nat, seq<nat>>, meta': map<nat, seq<nat>>, t: Tree, t': Tree, c: Pos, f: nat, l: nat, q: Pos)
    requires q.h > 0 && q in t && q in t' && NodeOk(meta, t, q) && Distinct(t) && !Under(q, c)
    requires Pruned(t, t', c, f, l) && Framed(meta, meta', t, c)
    ensures NodeOk(meta', t', q)
  {
    FramedElsewhere(meta, meta', t, c, q);
    forall j: nat | j < FAN ensures Slot(t', Child(q, j)) == Slot(t, Child(q, j)) {
      if Below(Child(q, j), c) { ChildBelow(q, j, c); }
    }
  }

  lemma NodeWithout(meta: map<nat, seq<nat>>, t: Tree, c: Pos, q: Pos)
    requires q.h > 0 && q in t && NodeOk(meta, t, q) && q != c && forall j: nat | j < FAN :: Child(q, j) != c
    ensures NodeOk(meta, Without(t, c), q)
  {
  }

  lemma OneParent(p: Pos, i: nat, q: Pos, j: nat)
    requires p.h > 0 && q.h > 0 && i < FAN && j < FAN && Child(p, i) == Child(q, j)
    ensures p == q && i == j
  {
    ParentOfChild(p, i);
    ParentOfChild(q, j);
  }

  lemma NodesAfterChild(meta: map<nat, seq<nat>>, meta': map<nat, seq<nat>>, t: Tree, t': Tree, p: Pos, i: nat, f: nat, l: nat, kept: bool)
    requires p.h > 1 && i < FAN && NodesBelow(meta, t, p) && Distinct(t) && Child(p, i) in t'
    requires Pruned(t, t', Child(p, i), f, l) && Framed(meta, meta', t, Child(p, i)) && NodesBelow(meta', t', Child(p, i))
    requires kept ==> NodeOk(meta', t', Child(p, i))
    requires !kept ==> forall q <- t' :: !Below(q, Child(p, i))
    ensures NodesBelow(meta', if kept then t' else Without(t', Child(p, i)), p)
  {
    hide Under, Below, NodeOk, Framed, Pruned, Distinct;
    var c := Child(p, i);
    PrunedSub(t, t', c, f, l);
    forall q <- (if kept then t' else Without(t', c)) | q.h > 0 && Below(q, p) ensures NodeOk(meta', if kept then t' else Without(t', c), q) {
      UnderIs(q, c);
      if !Under(q, c) {
        NodeElsewhere(meta, meta', t, t', c, f, l, q);
        if !kept {
          BelowNot(p);
          forall j: nat | j < FAN ensures Child(q, j) != c {
            if Child(q, j) == c { OneParent(p, i, q, j); }
          }
          NodeWithout(meta', t', c, q);
        }
      }
    }
  }

  lemma PrunedSub(t: Tree, t': Tree, p: Pos, f: nat, l: nat)
    requires Pruned(t, t', p, f, l)
    ensures SubTree(t, t')
  {
  }

  lemma BelowNot(p: Pos)
    ensures !Below(p, p)
  {
  }

  lemma PrunedLeaf(t: Tree, p: Pos, f: nat, l: nat)
    requires p.h == 0
    ensures Pruned(t, t, p, f, l)
  {
  }

  lemma LowNodes(meta: map<nat, seq<nat>>, t: Tree, p: Pos)
    requires p.h <= 1
    ensures NodesBelow(meta, t, p)
  {
  }

  lemma PrunedNone(t: Tree, t': Tree, height: nat, p: Pos, f: nat, l: nat)
    requires p in t && Closed(t, height) && Pruned(t, t', p, f, l) && !Keep(t, f, l, p)
    ensures forall q <- t' :: !Below(q, p)
    ensures forall i: nat | i < FAN && p.h > 0 :: Child(p, i) !in t'
  {
    forall q <- t' ensures !Below(q, p) {
      if Below(q, p) { KeepUp(t, height, f, l, q, p); }
    }
    forall i: nat | i < FAN && p.h > 0 ensures Child(p, i) !in t' {
      SelfUnder(Child(p, i));
      UnderChild(Child(p, i), p, i);
    }
  }

  lemma LeafTouched(t: Tree, f: nat, l: nat, p: Pos)
    requires p.h == 0 && Touched(p, f, l)
    ensures !Keep(t, f, l, p)
  {
  }

  /** A child strictly between the bounds lies in the range as a whole. */
  lemma MiddleGone(t: Tree, p: Pos, f: nat, l: nat, first: nat, last: nat, i: nat)
    requires p.h > 0 && i < FAN && Window(p, f, l, first, last)
    requires Div(first, Pow(p.h - 1)) < i < Div(last, Pow(p.h - 1))
    ensures !Keep(t, f, l, Child(p, i))
  {
    hide Div, Mod, Child, Keep;
    ChildWindow(p, f, l, first, last, i);
    ChildHeight(p, i);
    WholeGone(t, f, l, Child(p, i));
  }

  lemma SlotIs(t: Tree, p: Pos)
    requires Distinct(t)
    ensures Slot(t, p) == 0 <==> p !in t
    ensures p in t ==> Slot(t, p) == t[p]
  {
  }

  lemma LoopStarts(meta: map<nat, seq<nat>>, t: Tree, p: Pos, f: nat, l: nat, free: set<nat>, lo: nat, hi: nat)
    requires p.h > 0
    ensures Partly(t, t, p, f, l, lo, lo) && Returned(t, t, free, free) && Framed(meta, meta, t, p)
    ensures lo <= hi ==> Noted(t, p, lo, hi, lo, true, lo, hi)
  {
  }

  lemma PartlySub(t: Tree, t': Tree, p: Pos, f: nat, l: nat, lo: nat, i: nat)
    requires Partly(t, t', p, f, l, lo, i)
    ensures SubTree(t, t')
  {
  }

  lemma PrunedAtSub(t: Tree, t': Tree, p: Pos, f: nat, l: nat)
    requires PrunedAt(t, t', p, f, l)
    ensures SubTree(t, t')
  {
  }

  /** The pointer to a child of `p` that the loop has not reached yet. */
  lemma ChildStill(node: seq<nat>, t: Tree, t': Tree, p: Pos, f: nat, l: nat, lo: nat, i: nat)
    requires p.h > 0 && i < FAN && |node| == FAN && Partly(t, t', p, f, l, lo, i) && node[i] == Slot(t, Child(p, i))
    ensures node[i] == Slot(t', Child(p, i))
  {
    BranchSame(t, t', p, f, l, lo, i);
    SelfUnder(Child(p, i));
  }

  lemma WindowTouched(p: Pos, f: nat, l: nat, first: nat, last: nat)
    requires Window(p, f, l, first, last)
    ensures Touched(p, f, l)
  {
  }

  lemma NotOwnChild(p: Pos, i: nat)
    requires p.h > 0 && i < FAN
    ensures !Under(p, Child(p, i)) && p != Child(p, i)
  {
  }

  lemma FramedSame(meta: map<nat, seq<nat>>, t: Tree, p: Pos)
    ensures Framed(meta, meta, t, p)
  {
  }

  lemma PrunedElse(t: Tree, t': Tree, p: Pos, i: nat, f: nat, l: nat)
    requires p.h > 0 && i < FAN && p in t && PrunedAt(t, t', Child(p, i), f, l)
    ensures p in t' && t'[p] == t[p]
  {
    NotOwnChild(p, i);
  }

  lemma HeightOk(t: Tree, height: nat, p: Pos)
    requires Closed(t, height) && p in t
    ensures p.h <= height
  {
  }

  lemma OutsideSame(t: Tree, t': Tree, p: Pos, f: nat, l: nat, lo: nat, hi: nat)
    requires p.h > 0 && hi < FAN && Partly(t, t', p, f, l, lo, hi + 1)
    ensures forall i: nat | i < FAN && !(lo <= i <= hi) :: Child(p, i) in t <==> Child(p, i) in t'
  {
    hide Keep;
    forall i: nat | i < FAN && !(lo <= i <= hi) ensures Child(p, i) in t <==> Child(p, i) in t' {
      SelfUnder(Child(p, i));
      UnderChild(Child(p, i), p, i);
    }
  }

  /** The page is empty exactly when nothing in the range is left and nothing else was there. */
  lemma EmptyNode(node: seq<nat>, t: Tree, t': Tree, p: Pos, lo: nat, hi: nat, all: bool, rest: bool, start: int, end: int)
    requires p.h > 0 && lo <= hi < FAN && Distinct(t) && |node| == FAN
    requires forall i: nat | i < FAN :: node[i] == Slot(t, Child(p, i))
    requires forall i: nat | i < FAN && !(lo <= i <= hi) :: Child(p, i) in t <==> Child(p, i) in t'
    requires Noted(t', p, lo, hi, hi + 1, all, start, end)
    requires rest <==> forall i: nat | i < FAN && !(lo <= i <= hi) :: node[i] == 0
    ensures all && rest <==> !HasChild(t', p)
  {
    forall i: nat | i < FAN && !(lo <= i <= hi) ensures node[i] == 0 <==> Child(p, i) !in t' {
      SlotIs(t, Child(p, i));
    }
  }

  lemma RewriteNode(meta: map<nat, seq<nat>>, t: Tree, p: Pos, node: seq<nat>)
    requires p.h > 0 && p in t && Distinct(t) && NodesBelow(meta, t, p) && |node| == FAN
    requires forall i: nat | i < FAN :: node[i] == Slot(t, Child(p, i))
    ensures NodesBelow(meta[t[p] := node], t, p) && NodeOk(meta[t[p] := node], t, p)
  {
    BelowNot(p);
  }

  lemma FramedWrite(meta: map<nat, seq<nat>>, meta': map<nat, seq<nat>>, t: Tree, p: Pos, node: seq<nat>)
    requires p in t && Framed(meta, meta', t, p)
    ensures Framed(meta, meta'[t[p] := node], t, p)
  {
    SelfUnder(p);
  }

  lemma NotedBounds(t: Tree, p: Pos, lo: nat, hi: nat, i: nat, all: bool, start: int, end: int)
    requires p.h > 0 && lo <= hi && Noted(t, p, lo, hi, i, all, start, end)
    ensures lo <= start && end <= hi
  {
  }
}
