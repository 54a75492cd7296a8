/**
 NOVA's per-CPU free list: a search tree of free ranges with its first and last node, the number of free
 blocks and the number of nodes.  The tree is kept as the sequence of its nodes in key order; a search
 may descend through any tree with that order, so it holds for every balancing.
 */
module FreeList {
  import opened Common
  import opened Ranges
  import opened RangeEdits
  import opened FreeSearch

  const PAGES_PER_2MB: nat := 512
  const DEAD_ZONE_BLOCKS: nat := 256

  datatype Errno = OK | EINVAL | EIO | ENOSPC

  datatype Direction = FromHead | FromTail

  datatype AllocType = LOG | DATA

  /** The neighbours of a range about to be freed. */
  ghost predicate Between(rs: seq<Range>, low: nat, high: nat, prev: Option<nat>, next: Option<nat>) {
    var p := if prev.Some? then prev.value + 1 else 0;
    && p <= |rs|
    && next == (if p < |rs| then Some(p) else None)
    && (prev.Some? ==> rs[p - 1].high < low)
    && (p < |rs| ==> high < rs[p].low)
  }

  /** The neighbours of the gap that `low` lies in. */
  ghost predicate Near(rs: seq<Range>, low: nat, prev: Option<nat>, next: Option<nat>) {
    var p := if prev.Some? then prev.value + 1 else 0;
    && p <= |rs|
    && next == (if p < |rs| then Some(p) else None)
    && (prev.Some? ==> rs[p - 1].high < low)
    && (p < |rs| ==> low < rs[p].low)
  }

  /** The list after an overlap with node `p` and its successors went unnoticed. */
  function Spoilt(rs: seq<Range>, p: nat, low: nat, high: nat): seq<Range>
    requires p < |rs|
  {
    if p > 0 && rs[p - 1].high + 1 == low then Splice(rs, p - 1, p, [Range(rs[p - 1].low, high)])
    else Splice(rs, p, p, [Range(low, high)])
  }

  /** What the node a search ended at says about the range to be freed. */
  lemma SlotMeans(rs: seq<Range>, low: nat, high: nat, end: Option<nat>)
    requires Canon(rs) && low <= high && MayEnd(rs, low, end)
    ensures end.None? ==> |rs| == 0
    ensures end.Some? ==> end.value < |rs|
    ensures Has(rs, low) ==> Refuses(rs, low, high, end)
    ensures Noticed(rs, low, high) ==> Refuses(rs, low, high, end)
    ensures Avoids(rs, low, high) ==> !Refuses(rs, low, high, end)
    ensures end.Some? && rs[end.value].high < low && end.value + 1 < |rs| ==>
              low < rs[end.value + 1].low && (Avoids(rs, low, high) ==> high < rs[end.value + 1].low)
    ensures end.Some? && high < rs[end.value].low && end.value > 0 ==> rs[end.value - 1].high < low
  {
    EndsBeside(rs, low, 0, |rs|, None, end);
    if Noticed(rs, low, high) { NoticedRefused(rs, low, high, end); }
    if end.Some? && Avoids(rs, low, high) {
      assert !Has(rs, low);
      if rs[end.value].high < low {
        if end.value + 1 < |rs| { NextAbove(rs, end.value + 1, low, high); }
      } else {
        NextAbove(rs, end.value, low, high);
      }
    }
  }

  ghost predicate SpoiltAt(rs: seq<Range>, rs': seq<Range>, p: nat, low: nat, high: nat) {
    p < |rs| && rs' == Spoilt(rs, p, low, high)
  }

  /** The freed range lies over some node, so that the list is no longer one of disjoint ranges. */
  ghost predicate Overlapping(rs: seq<Range>, rs': seq<Range>, low: nat, high: nat) {
    !Canon(rs') && exists p: nat :: SpoiltAt(rs, rs', p, low, high)
  }

  lemma NotApart(rs: seq<Range>, low: nat, high: nat, prev: Option<nat>, next: Option<nat>)
    requires Canon(rs) && Near(rs, low, prev, next) && !Avoids(rs, low, high)
    ensures !Between(rs, low, high, prev, next) && next.Some? && next.value < |rs| && rs[next.value].low <= high
  {
    var b :| low <= b <= high && Has(rs, b);
    var k :| 0 <= k < |rs| && rs[k].Has(b);
    assert next.Some? && next.value <= k;
  }

  lemma SpoiltOverlaps(rs: seq<Range>, p: nat, low: nat, high: nat)
    requires p < |rs| && rs[p].low <= high
    ensures !Canon(Spoilt(rs, p, low, high))
  {
    var s := Spoilt(rs, p, low, high);
    if p > 0 && rs[p - 1].high + 1 == low {
      assert s[p - 1].high == high && s[p] == rs[p];
    } else {
      assert s[p].high == high && s[p + 1] == rs[p];
    }
  }

  class RangeNode {
    var low: nat
    var high: nat

    constructor (low: nat, high: nat)
      ensures this.low == low && this.high == high
    {
      this.low, this.high := low, high;
    }
  }

  class List {
    var tree: seq<RangeNode>
    var first: RangeNode?
    var last: RangeNode?
    var blockStart: nat
    var blockEnd: nat
    var numFree: int
    var numNodes: int
    ghost var rs: seq<Range>

    ghost predicate Nodes()
      reads this`tree, this`rs, tree
    {
      && |rs| == |tree|
      && (forall i, j :: 0 <= i < j < |tree| ==> tree[i] != tree[j])
      && (forall i :: 0 <= i < |tree| ==> rs[i] == Range(tree[i].low, tree[i].high))
    }

    /** The ends of the tree are cached. */
    ghost predicate Ends()
      reads this`tree, this`first, this`last
    {
      && first == (if |tree| > 0 then tree[0] else null)
      && last == (if |tree| > 0 then tree[|tree| - 1] else null)
    }

    /** Nodes, ends and node count agree. */
    ghost predicate Shape()
      reads this, tree
    {
      Nodes() && Ends() && numNodes == |rs|
    }

    ghost predicate Valid()
      reads this, tree
    {
      Shape() && numFree == Total(rs) && Canon(rs) && Within(rs, blockStart, blockEnd)
    }

    /** Descends from the root; the last node met is the match, or a neighbour of where the key would go. */
    method FindRangeNode(key: nat) returns (found: bool, at: Option<nat>)
      requires Valid()
      ensures at.None? <==> |tree| == 0
      ensures found <==> Has(rs, key)
      ensures at.Some? ==> at.value < |rs|
      ensures found ==> at.Some? && rs[at.value].Has(key)
      ensures !found && at.Some? ==> Beside(rs, at.value, key)
      ensures MayEnd(rs, key, at)
    {
      var lo, hi := 0, |tree|;
      at := None;
      found := false;
      while lo < hi
        invariant 0 <= lo <= hi <= |tree| && !found
        invariant forall i :: 0 <= i < lo ==> rs[i].high < key
        invariant forall i :: hi <= i < |tree| ==> key < rs[i].low
        invariant if at.None? then lo == 0 && hi == |tree| else at.value == lo - 1 || at.value == hi < |tree|
        invariant forall end :: Descends(rs, key, lo, hi, at, end) ==> MayEnd(rs, key, end)
        decreases hi - lo
      {
        var root: nat :| lo <= root < hi;
        forall end | Turns(rs, key, lo, hi, root, end) ensures MayEnd(rs, key, end) {
          assert Descends(rs, key, lo, hi, at, end);
        }
        at := Some(root);
        if key < tree[root].low {
          hi := root;
        } else if key > tree[root].high {
          lo := root + 1;
        } else {
          found := true;
          assert rs[root].Has(key);
          assert Turns(rs, key, lo, hi, root, at);
          return;
        }
      }
      assert Descends(rs, key, lo, hi, at, at);
    }

    /** Refuses the range or finds its neighbours, according to where the search for its first block ended. */
    method FindFreeSlot(low: nat, high: nat) returns (err: Errno, prev: Option<nat>, next: Option<nat>, ghost end: Option<nat>)
      requires Valid() && low <= high
      ensures MayEnd(rs, low, end) && err == if Refuses(rs, low, high, end) then EINVAL else OK
      ensures err == OK ==> Near(rs, low, prev, next)
      ensures Noticed(rs, low, high) ==> err == EINVAL
      ensures Avoids(rs, low, high) ==> err == OK && Between(rs, low, high, prev, next)
    {
      hide MayEnd, Noticed, Avoids, Canon, Has, Beside, Ends;
      prev, next, err := None, None, OK;
      var found, at := FindRangeNode(low);
      end := at;
      SlotMeans(rs, low, high, end);
      if found { return EINVAL, None, None, end; }
      if at.None? { return; }
      var i := at.value;
      if tree[i].high < low {
        prev := at;
        next := if i + 1 < |tree| then Some(i + 1) else None;
      } else if tree[i].low > high {
        next := at;
        prev := if i > 0 then Some(i - 1) else None;
      } else {
        err := EINVAL;
      }
    }

    /** The range between nodes `p - 1` and `p` fills the hole: the right node is dropped. */
    method FitHole(p: nat)
      requires Shape() && 0 < p < |tree|
      modifies this`tree, this`last, this`numNodes, this`rs, tree
      ensures Shape() && rs == Splice(old(rs), p - 1, p + 1, [Range(old(rs)[p - 1].low, old(rs)[p].high)])
      ensures forall n <- tree :: n in old(tree)
    {
      var l, n := tree[p - 1], tree[p];
      l.high := n.high;
      tree := tree[..p] + tree[p + 1..];
      numNodes := numNodes - 1;
      if last == n { last := l; }
      rs := Splice(rs, p - 1, p + 1, [Range(rs[p - 1].low, rs[p].high)]);
    }

    method SetNode(p: nat, low: nat, high: nat)
      requires Shape() && p < |tree|
      modifies this`rs, tree[p]
      ensures Shape() && rs == Splice(old(rs), p, p + 1, [Range(low, high)])
    {
      tree[p].low, tree[p].high := low, high;
      rs := Splice(rs, p, p + 1, [Range(low, high)]);
    }

    method InsertNode(p: nat, node: RangeNode)
      requires Shape() && p <= |tree| && node !in tree
      modifies this`tree, this`first, this`last, this`numNodes, this`rs
      ensures Shape() && rs == Splice(old(rs), p, p, [Range(node.low, node.high)])
      ensures tree == old(tree)[..p] + [node] + old(tree)[p..]
    {
      var atStart, atEnd := p == 0, p == |tree|;
      tree := tree[..p] + [node] + tree[p..];
      if atStart { first := node; }
      if atEnd { last := node; }
      numNodes := numNodes + 1;
      rs := Splice(rs, p, p, [Range(node.low, node.high)]);
    }

    /** Adds a range between its neighbours, joining those it touches; whether it overlaps the next is not asked. */
    method Coalesce(low: nat, high: nat, prev: Option<nat>, next: Option<nat>)
      requires Shape() && Canon(rs) && low <= high && Near(rs, low, prev, next)
      modifies this`tree, this`first, this`last, this`numNodes, this`rs, tree
      ensures Shape()
      ensures Between(old(rs), low, high, prev, next) ==> Joined(old(rs), rs, low, high)
      ensures !Between(old(rs), low, high, prev, next) ==> next.Some? && next.value < |old(rs)| && rs == Spoilt(old(rs), next.value, low, high)
      ensures forall n <- tree :: n in old(tree) || fresh(n)
    {
      hide Joined, Splice, Total, Has, Canon, Ends;
      var node := new RangeNode(low, high);
      ghost var p := if prev.Some? then prev.value + 1 else 0;
      ghost var apart := Between(rs, low, high, prev, next);
      if prev.Some? && next.Some? && low == tree[prev.value].high + 1 && high + 1 == tree[next.value].low {
        JoinBoth(rs, p, low, high);
        FitHole(next.value);
      } else if prev.Some? && low == tree[prev.value].high + 1 {
        if apart { JoinLeft(rs, p, low, high); }
        SetNode(prev.value, tree[prev.value].low, high);
      } else if next.Some? && high + 1 == tree[next.value].low {
        JoinRight(rs, p, low, high);
        SetNode(next.value, low, tree[next.value].high);
      } else {
        if apart { JoinNone(rs, p, low, high); }
        InsertNode(if next.Some? then next.value else |tree|, node);
      }
    }

    /**
     Frees `num` blocks from `blocknr` on.  An overlap with blocks that are free already may go unnoticed, and
     then leaves overlapping nodes.
     */
    method FreeBlocks(blocknr: nat, num: int) returns (err: Errno)
      requires Valid()
      modifies this`tree, this`first, this`last, this`numFree, this`numNodes, this`rs, tree
      ensures num <= 0 ==> err == EINVAL
      ensures num > 0 && !Within([Range(blocknr, blocknr + num - 1)], blockStart, blockEnd) ==> err == EIO
      ensures num > 0 && Within([Range(blocknr, blocknr + num - 1)], blockStart, blockEnd) ==>
                exists end :: MayEnd(old(rs), blocknr, end) && err == if Refuses(old(rs), blocknr, blocknr + num - 1, end) then EINVAL else OK
      ensures num > 0 && Noticed(old(rs), blocknr, blocknr + num - 1) ==> err != OK
      ensures err != OK ==> Valid() && rs == old(rs)
      ensures err == OK ==> numFree == old(numFree) + num
      ensures err == OK && Avoids(old(rs), blocknr, blocknr + num - 1) ==> Valid() && Joined(old(rs), rs, blocknr, blocknr + num - 1)
      ensures err == OK && !Avoids(old(rs), blocknr, blocknr + num - 1) ==>
                Shape() && Overlapping(old(rs), rs, blocknr, blocknr + num - 1)
      ensures forall n <- tree :: n in old(tree) || fresh(n)
    {
      hide Added, Has, Total, Canon, Nodes, Ends, MayEnd, Spoilt, Noticed, Avoids, Joined;
      assert num > 0 ==> [Range(blocknr, blocknr + num - 1)][0] == Range(blocknr, blocknr + num - 1);
      if num <= 0 { return EINVAL; }
      var low, high := blocknr, blocknr + num - 1;
      if blocknr < blockStart || blocknr + num > blockEnd + 1 { return EIO; }
      var prev, next;
      ghost var end;
      err, prev, next, end := FindFreeSlot(low, high);
      if err != OK { return; }
      ghost var apart := Avoids(rs, low, high);
      Coalesce(low, high, prev, next);
      numFree := numFree + num;
      if apart {
        JoinedBounds(old(rs), rs, low, high, blockStart, blockEnd);
      } else {
        NotApart(old(rs), low, high, prev, next);
        SpoiltOverlaps(old(rs), next.value, low, high);
        assert SpoiltAt(old(rs), rs, next.value, low, high);
      }
    }

    method EraseNode(p: nat)
      requires Shape() && p < |tree|
      modifies this`tree, this`first, this`last, this`numNodes, this`rs
      ensures Shape() && rs == Splice(old(rs), p, p + 1, [])
      ensures tree == old(tree)[..p] + old(tree)[p + 1..]
    {
      var curr := tree[p];
      if curr == first { first := if p + 1 < |tree| then tree[p + 1] else null; }
      if curr == last { last := if p > 0 then tree[p - 1] else null; }
      tree := tree[..p] + tree[p + 1..];
      numNodes := numNodes - 1;
      rs := Splice(rs, p, p + 1, []);
    }

    /** Too few blocks, or log blocks wanted of a list about to shrink to its last stretch. */
    predicate NotEnoughBlocks(num: nat, atype: AllocType)
      reads this, first, last
    {
      numFree < num || first == null || last == null ||
      (atype == LOG && last.high - first.low < DEAD_ZONE_BLOCKS)
    }

    /** Takes `want` blocks behind the first `left` out of node `p`, which keeps the margin. */
    method Carve(p: nat, left: nat, want: nat)
      requires Shape() && Canon(rs) && p < |tree| && left > 0 && want > 0 && left + want <= rs[p].Size()
      modifies this`tree, this`first, this`last, this`numNodes, this`rs, tree
      ensures Shape() && Taken(old(rs), rs, old(rs)[p].low + left, old(rs)[p].low + left + want - 1)
      ensures forall n <- tree :: n in old(tree) || fresh(n)
    {
      hide Taken, Canon, Ends, Leaves, Splice;
      var low, high := tree[p].low, tree[p].high;
      var start := low + left;
      if start + want <= high {
        LeavesBoth(rs[p], start, start + want - 1);
        TakeOut(rs, p, [Range(low, start - 1)] + [Range(start + want, high)], start, start + want - 1);
        var node := new RangeNode(start + want, high);
        SetNode(p, low, start - 1);
        ghost var mid := rs;
        SpliceLength(old(rs), p, p + 1, [Range(low, start - 1)]);
        InsertNode(p + 1, node);
        TwoSplices(old(rs), mid, p, [Range(low, start - 1)], [Range(node.low, node.high)]);
      } else {
        LeavesLow(rs[p], start);
        TakeOut(rs, p, [Range(low, start - 1)], start, start + want - 1);
        SetNode(p, low, start - 1);
      }
    }

    /** Best effort: whole aligned 2 MB stretches out of the first node that holds one behind its margin. */
    method AllocSuperpage(num: nat, dir: Direction) returns (got: nat, start: nat, ghost at: nat)
      requires Valid() && num > 0 && num % PAGES_PER_2MB == 0
      modifies this`tree, this`first, this`last, this`numNodes, this`rs, tree
      ensures Shape()
      ensures got == 0 <==> NoRoom(old(rs))
      ensures got == 0 ==> rs == old(rs) && tree == old(tree)
      ensures got > 0 ==> start % PAGES_PER_2MB == 0 && got % PAGES_PER_2MB == 0 && got <= num && Taken(old(rs), rs, start, start + got - 1)
      ensures got > 0 ==> Chosen(old(rs), at, dir) && start == old(rs)[at].low + LeftMargin(old(rs)[at].low)
      ensures got > 0 ==> got == if num <= Room(old(rs)[at]) then num else Room(old(rs)[at]) / PAGES_PER_2MB * PAGES_PER_2MB
      ensures forall n <- tree :: n in old(tree) || fresh(n)
    {
      hide Taken, Canon, Total, Splice, Ends, Leaves, Within;
      got, start, at := 0, 0, 0;
      var step := 0;
      while step < |tree|
        invariant 0 <= step <= |tree| && rs == old(rs) && tree == old(tree) && Valid()
        invariant forall i :: 0 <= i < |rs| && Passed(i, step, |rs|, dir) ==> Room(rs[i]) < PAGES_PER_2MB
        invariant forall n <- tree :: old(n.low) == n.low && old(n.high) == n.high
      {
        var i := if dir == FromHead then step else |tree| - 1 - step;
        var curr := tree[i];
        var size, left := curr.high - curr.low + 1, LeftMargin(curr.low);
        var want := num;
        if size >= left && want > size - left && (size - left) / PAGES_PER_2MB > 0 {
          want := (size - left) / PAGES_PER_2MB * PAGES_PER_2MB;
        }
        if size > left && want <= size - left {
          got, start, at := want, curr.low + left, i;
          Carve(i, left, want);
          return;
        }
        step := step + 1;
      }
    }

    /** Takes the whole node when too much is wanted of it, and its near end otherwise. */
    method TakeFrom(p: nat, num: nat, dir: Direction) returns (got: nat, start: nat)
      requires Shape() && Canon(rs) && p < |tree| && num > 0
      modifies this`tree, this`first, this`last, this`numNodes, this`rs, tree
      ensures Shape() && got == Min(num, old(rs)[p].Size()) > 0
      ensures if dir == FromHead then start == old(rs)[p].low else start + got - 1 == old(rs)[p].high
      ensures Taken(old(rs), rs, start, start + got - 1)
      ensures forall n <- tree :: n in old(tree)
    {
      hide Taken, Canon, Ends, Leaves, Splice;
      var low, high := tree[p].low, tree[p].high;
      CanonAt(rs, p);
      if num >= high - low + 1 {
        LeavesNone(rs[p]);
        TakeOut(rs, p, [], low, high);
        got, start := high - low + 1, low;
        EraseNode(p);
      } else if dir == FromHead {
        LeavesHigh(rs[p], low + num - 1);
        TakeOut(rs, p, [Range(low + num, high)], low, low + num - 1);
        got, start := num, low;
        SetNode(p, low + num, high);
      } else {
        LeavesLow(rs[p], high + 1 - num);
        TakeOut(rs, p, [Range(low, high - num)], high + 1 - num, high);
        got, start := num, high + 1 - num;
        SetNode(p, low, high - num);
      }
    }

    /** The fallback: the first node that will do. */
    method AllocUnaligned(huge: bool, num: nat, dir: Direction) returns (got: nat, start: nat)
      requires Shape() && Canon(rs) && num > 0
      modifies this`tree, this`first, this`last, this`numNodes, this`rs, tree
      ensures Shape()
      ensures got == 0 <==> |old(rs)| == 0 || (huge && NoneHolds(old(rs), num))
      ensures got == 0 ==> rs == old(rs)
      ensures got > 0 ==> got <= num && Taken(old(rs), rs, start, start + got - 1)
      ensures got > 0 ==> exists p: nat | p < |old(rs)| :: FromNode(old(rs), p, huge, num, dir, start, got)
      ensures forall n <- tree :: n in old(tree)
    {
      hide Taken, Canon, Total, Ends;
      got, start := 0, 0;
      var step := 0;
      while step < |tree|
        invariant 0 <= step <= |tree| && rs == old(rs) && tree == old(tree) && Shape() && got == 0
        invariant step > 0 ==> huge
        invariant forall i :: 0 <= i < |rs| && Passed(i, step, |rs|, dir) ==> rs[i].Size() < num
      {
        var p := if dir == FromHead then step else |tree| - 1 - step;
        var size := tree[p].high - tree[p].low + 1;
        if !(huge && num > size) {
          got, start := TakeFrom(p, num, dir);
          assert FromNode(old(rs), p, huge, num, dir, start, got);
          return;
        }
        step := step + 1;
      }
    }

    lemma SameLength()
      requires Nodes()
      ensures |rs| == |tree|
    {
    }

    lemma RefusedIs(num: nat, atype: AllocType)
      requires Valid() && rs != [] && atype == LOG
      ensures NotEnoughBlocks(num, atype) <==> Total(rs) < num || rs[|rs| - 1].high - rs[0].low < DEAD_ZONE_BLOCKS
    {
      hide Canon, Total, Within;
    }

    /** Allocates up to `num` blocks; with `huge` block sizes a node must hold all of them. */
    method AllocBlocks(huge: bool, atype: AllocType, num: nat, dir: Direction) returns (err: Errno, got: nat, start: nat)
      requires Valid() && num > 0
      modifies this`tree, this`first, this`last, this`numFree, this`numNodes, this`rs, tree
      ensures Valid() && (err == OK || err == ENOSPC)
      ensures err == ENOSPC <==>
        || old(rs) == []
        || (atype == LOG && (Total(old(rs)) < num || old(rs)[|old(rs)| - 1].high - old(rs)[0].low < DEAD_ZONE_BLOCKS))
        || (huge && !SuperpageFits(old(rs), num, atype) && forall i :: 0 <= i < |old(rs)| ==> old(rs)[i].Size() < num)
      ensures err == ENOSPC ==> rs == old(rs) && got == 0
      ensures err == OK ==> 0 < got <= num && Taken(old(rs), rs, start, start + got - 1) && numFree == old(numFree) - got
      ensures err == OK && SuperpageFits(old(rs), num, atype) ==> start % PAGES_PER_2MB == 0 && got % PAGES_PER_2MB == 0
      ensures err == OK && !SuperpageFits(old(rs), num, atype) ==> exists p: nat | p < |old(rs)| :: FromNode(old(rs), p, huge, num, dir, start, got)
      ensures forall n <- tree :: n in old(tree) || fresh(n)
    {
      hide Taken, Canon, Total, Within, NotEnoughBlocks, FromNode, Nodes;
      got, start := 0, 0;
      SameLength();
      TotalOfNone(rs);
      if rs != [] && atype == LOG { RefusedIs(num, atype); }
      if first == null || numFree == 0 { return ENOSPC, 0, 0; }
      if atype == LOG && NotEnoughBlocks(num, atype) { return ENOSPC, 0, 0; }
      if num % PAGES_PER_2MB == 0 && atype == DATA {
        ghost var at;
        got, start, at := AllocSuperpage(num, dir);
        if got > 0 {
          TakenBounds(old(rs), rs, start, start + got - 1, blockStart, blockEnd);
          numFree := numFree - got;
          return OK, got, start;
        }
      }
      got, start := AllocUnaligned(huge, num, dir);
      if got == 0 { return ENOSPC, 0, 0; }
      TakenBounds(old(rs), rs, start, start + got - 1, blockStart, blockEnd);
      numFree := numFree - got;
      err := OK;
    }
  }

  // ---------------------------------------------------------------- where an allocation looks

  /** Whole aligned stretches are tried first, for data asked for in multiples of 2 MB. */
  predicate SuperpageFits(rs: seq<Range>, num: nat, atype: AllocType) {
    num % PAGES_PER_2MB == 0 && atype == DATA && exists i :: 0 <= i < |rs| && Room(rs[i]) >= PAGES_PER_2MB
  }

  predicate NoneHolds(rs: seq<Range>, num: nat) {
    forall i :: 0 <= i < |rs| ==> rs[i].Size() < num
  }

  /** Node `p` is the first that will do; it gives all it has or `num` blocks at its near end. */
  ghost predicate FromNode(rs: seq<Range>, p: nat, huge: bool, num: nat, dir: Direction, start: nat, got: nat) {
    && p < |rs| && got == Min(num, rs[p].Size())
    && (if dir == FromHead then start == rs[p].low else start + got - 1 == rs[p].high)
    && (huge ==> got == num)
    && (!huge ==> p == if dir == FromHead then 0 else |rs| - 1)
    && forall i :: 0 <= i < |rs| && (if dir == FromHead then i < p else p < i) ==> rs[i].Size() < num
  }

  /** What precedes the next 2 MB boundary; a whole stretch where the range starts on one. */
  function LeftMargin(low: nat): nat { PAGES_PER_2MB - low % PAGES_PER_2MB }

  /** It leads to a boundary, and is never empty. */
  lemma LeftMarginIs(low: nat)
    ensures (low + LeftMargin(low)) % PAGES_PER_2MB == 0 && 0 < LeftMargin(low) <= PAGES_PER_2MB
  {
  }

  /** What a range holds behind its margin. */
  function Room(r: Range): int { r.Size() - LeftMargin(r.low) }

  /** The nodes visited in `step` steps. */
  predicate Passed(i: nat, step: nat, n: nat, dir: Direction) {
    if dir == FromHead then i < step else n - 1 - step < i
  }

  /** Node `at` is the first one, in this direction, with room for 2 MB. */
  ghost predicate Chosen(rs: seq<Range>, at: nat, dir: Direction) {
    && at < |rs| && Room(rs[at]) >= PAGES_PER_2MB
    && forall i :: 0 <= i < |rs| && (if dir == FromHead then i < at else at < i) ==> Room(rs[i]) < PAGES_PER_2MB
  }

  // ---------------------------------------------------------------- aligned stretches that are overlooked

  /** An aligned stretch of 2 MB is free. */
  ghost predicate SuperpageFree(rs: seq<Range>) {
    exists a: nat :: a % PAGES_PER_2MB == 0 && Covers(rs, a, a + PAGES_PER_2MB - 1)
  }

  predicate HasAligned(r: Range, a: nat) {
    a % PAGES_PER_2MB == 0 && r.low <= a && a + PAGES_PER_2MB - 1 <= r.high
  }

  /** The range starts with an aligned stretch; the margin hides it. */
  predicate OnBoundary(r: Range) { r.low % PAGES_PER_2MB == 0 && r.Size() >= PAGES_PER_2MB }

  lemma HoldsAligned(r: Range)
    ensures (exists a: nat :: HasAligned(r, a)) <==> Room(r) >= PAGES_PER_2MB || OnBoundary(r)
  {
    if Room(r) >= PAGES_PER_2MB { assert HasAligned(r, r.low + LeftMargin(r.low)); }
    if OnBoundary(r) { assert HasAligned(r, r.low); }
  }

  /** A free aligned stretch lies within one node: behind its margin, or at its start. */
  lemma SuperpageFreeIs(rs: seq<Range>)
    requires Canon(rs)
    ensures SuperpageFree(rs) <==> exists i :: 0 <= i < |rs| && (Room(rs[i]) >= PAGES_PER_2MB || OnBoundary(rs[i]))
  {
    if a: nat :| a % PAGES_PER_2MB == 0 && Covers(rs, a, a + PAGES_PER_2MB - 1) {
      CoveredByOne(rs, a, a + PAGES_PER_2MB - 1);
      var i :| 0 <= i < |rs| && rs[i].low <= a && a + PAGES_PER_2MB - 1 <= rs[i].high;
      assert HasAligned(rs[i], a);
      HoldsAligned(rs[i]);
    }
    if i :| 0 <= i < |rs| && (Room(rs[i]) >= PAGES_PER_2MB || OnBoundary(rs[i])) {
      HoldsAligned(rs[i]);
      var a: nat :| HasAligned(rs[i], a);
      ContainsCovers(rs, i, a, a + PAGES_PER_2MB - 1);
    }
  }

  /** The allocator finds no stretch. */
  predicate NoRoom(rs: seq<Range>) {
    forall i :: 0 <= i < |rs| ==> Room(rs[i]) < PAGES_PER_2MB
  }

  /** It misses a free one exactly if some node starts with it and none has room behind its margin. */
  lemma SuperpageMissed(rs: seq<Range>)
    requires Canon(rs)
    ensures SuperpageFree(rs) && NoRoom(rs) <==> (exists i :: 0 <= i < |rs| && OnBoundary(rs[i])) && NoRoom(rs)
  {
    SuperpageFreeIs(rs);
  }

  /** One free aligned stretch and nothing else: it is missed. */
  lemma SuperpageMissedHere()
    ensures var rs := [Range(512, 1023)]; Canon(rs) && SuperpageFree(rs) && NoRoom(rs) && Room(rs[0]) == 0
  {
    var rs := [Range(512, 1023)];
    assert OnBoundary(rs[0]);
    SuperpageFreeIs(rs);
  }
}
