/**
 The block tree of a PMFS inode: pages of 512 pointers that are filled, cleared and freed in place.

 `t` names the positions in use; `meta` is the content of the pages, and `free` what the allocator still
 has.  A page whose position is gone keeps its stale content.
 */
module RadixTree {
  import opened Arith
  import opened Radix
  import opened RadixCut
  import opened RadixGrow
  import opened RadixShrink

  const MAX_HEIGHT: nat := 3

  class Inode {
    var root: nat
    var height: nat
    var iblocks: int
    var meta: map<nat, seq<nat>>
    var free: set<nat>
    const unit: nat
    const blkBytes: nat
    ghost var t: Tree

    ghost predicate Shape()
      reads this`t, this`free, this`height
    {
      Closed(t, height) && Distinct(t) && InUse(t, free)
    }

    ghost predicate Valid()
      reads this
    {
      && unit > 0 && blkBytes > 0 && Shape() && root == Slot(t, Pos(height, 0)) && (root == 0 ==> height == 0 && t == map[]) && height <= MAX_HEIGHT
      && NodesOk(meta, t)
      && iblocks == unit * Count(t)
    }

    // -------------------------------------------------------------- lookup

    method FindDataBlock(blk: nat) returns (bp: nat)
      requires Valid()
      ensures bp == Slot(t, Pos(0, blk))
    {
      hide Closed, Distinct, Count, At, Anc, Pow, InUse;
      if blk >= Pow(height) {
        OutOfSpan(t, height, blk);
        return 0;
      }
      var h, rest := height, blk;
      bp := root;
      AtTop(t, height, blk);
      while h > 0
        invariant 0 <= h <= height && At(t, blk, h, rest, bp) && (h > 0 ==> bp != 0)
      {
        ghost var p := Anc(Pos(0, blk), h);
        AtNext(t, blk, h, rest, bp);
        assert NodeOk(meta, t, p);
        var idx := Div(rest, Pow(h - 1));
        bp := meta[bp][idx];
        if bp == 0 {
          NothingUnder(t, height, blk, h - 1, Mod(rest, Pow(h - 1)));
          return 0;
        }
        rest := Mod(rest, Pow(h - 1));
        h := h - 1;
      }
      AtBottom(t, blk, rest, bp);
    }

    // -------------------------------------------------------------- truncation

    method FreeBlock(b: nat, ghost p: Pos)
      requires p in t && t[p] == b && Shape() && (forall i: nat | i < FAN && p.h > 0 :: Child(p, i) !in t)
      modifies this`free, this`t
      ensures t == Without(old(t), p) && free == old(free) + {b} && Shape()
    {
      hide Closed, Distinct;
      free := free + {b};
      LeafGone(t, height, p);
      DistinctGone(t, p, free);
      t := Without(t, p);
    }

    method ClearSlots(node: seq<nat>, start: int, end: int) returns (node': seq<nat>)
      requires |node| == FAN && 0 <= start && end < FAN
      ensures |node'| == FAN && forall i: nat | i < FAN :: node'[i] == if start <= i <= end then 0 else node[i]
    {
      node' := node;
      var i := start;
      while i <= end
        invariant start <= i && (if start <= end then i <= end + 1 else i == start) && |node'| == FAN
        invariant forall j: nat | j < FAN :: node'[j] == if start <= j < i then 0 else node[j]
        decreases end - i
      {
        node' := node'[i := 0];
        i := i + 1;
      }
    }

    /** No pointer outside `lo` to `hi`. */
    method IsEmptyMetaBlock(node: seq<nat>, lo: nat, hi: nat) returns (empty: bool)
      requires |node| == FAN && lo <= hi < FAN
      ensures empty <==> forall i: nat | i < FAN && !(lo <= i <= hi) :: node[i] == 0
    {
      var i := 0;
      while i < lo
        invariant 0 <= i <= lo && forall j: nat | j < i :: node[j] == 0
      {
        if node[i] != 0 { return false; }
        i := i + 1;
      }
      i := hi + 1;
      while i < FAN
        invariant hi < i <= FAN && forall j: nat | j < i && !(lo <= j <= hi) :: node[j] == 0
      {
        if node[i] != 0 { return false; }
        i := i + 1;
      }
      return true;
    }

    /** Cuts child `i` of `p`: frees a data block, or what lies in the window below a page and the page if emptied. */
    method TruncateChild(block: nat, h: nat, first: nat, last: nat, ghost p: Pos, i: nat, ghost f: nat, ghost l: nat)
      returns (freed: nat, left: bool)
      requires p.h == h > 0 && p in t && i < FAN && Child(p, i) in t && t[Child(p, i)] == block
      requires Window(Child(p, i), f, l, first, last) && Shape() && NodesBelow(meta, t, p)
      modifies this`meta, this`free, this`t
      ensures Shape() && NodesBelow(meta, t, p) && p in t && t[p] == old(t)[p]
      ensures PrunedAt(old(t), t, Child(p, i), f, l) && Returned(old(t), t, old(free), free)
      ensures Framed(old(meta), meta, old(t), Child(p, i)) && freed == Count(old(t)) - Count(t)
      ensures left <==> Keep(old(t), f, l, Child(p, i))
      decreases h, 0
    {
      hide Window, Keep, Closed, Distinct, Pow, Div, Mod, Count, Under, Below, NodesBelow, Pruned, PrunedAt, Returned, Framed, InUse, NodeOk, Child, HasChild;
      ghost var c := Child(p, i);
      ChildHeight(p, i);
      ghost var t0, free0 := t, free;
      WindowTouched(c, f, l, first, last);
      NotOwnChild(p, i);
      if h == 1 {
        LeafTouched(t, f, l, c);
        PrunedLeaf(t, c, f, l);
        PrunedWith(t, t, c, f, l);
        FramedSame(meta, t, c);
        CountWithout(t, c);
        ReturnedOne(t, c, free);
        FreeBlock(block, c);
        LowNodes(meta, t, p);
        freed, left := 1, false;
      } else {
        NodesInChild(meta, t, p, i);
        ghost var meta0 := meta;
        freed, left := RecursiveTruncate(block, h - 1, first, last, c, f, l);
        left := !left;
        if !left { PrunedNone(t0, t, height, c, f, l); }
        NodesAfterChild(meta0, meta, t0, t, p, i, f, l, left);
        PrunedWith(t0, t, c, f, l);
        if !left {
          ghost var t1, free1 := t, free;
          CountWithout(t, c);
          ReturnedOne(t, c, free);
          FreeBlock(block, c);
          PrunedSub(t0, t1, c, f, l);
          ReturnedTwice(t0, t1, t, free0, free1, free);
        }
      }
      PrunedAtSub(t0, t, c, f, l);
      PrunedElse(t0, t, p, i, f, l);
    }

    /** Frees the blocks `first` to `last` of the subtree at `p`, and the pages that this empties. */
    method RecursiveTruncate(block: nat, h: nat, first: nat, last: nat, ghost p: Pos, ghost f: nat, ghost l: nat)
      returns (freed: nat, metaEmpty: bool)
      requires p.h == h > 0 && p in t && t[p] == block && Window(p, f, l, first, last)
      requires Shape() && NodesBelow(meta, t, p) && NodeOk(meta, t, p)
      modifies this`meta, this`free, this`t
      ensures Shape() && NodesBelow(meta, t, p) && p in t && t[p] == old(t)[p]
      ensures Pruned(old(t), t, p, f, l) && Returned(old(t), t, old(free), free)
      ensures Framed(old(meta), meta, old(t), p) && freed == Count(old(t)) - Count(t)
      ensures metaEmpty <==> !Keep(old(t), f, l, p)
      ensures !metaEmpty ==> NodeOk(meta, t, p)
      decreases h, 1
    {
      hide Window, Keep, Closed, Distinct, Pow, Div, Mod, Count, Under, Below, NodesBelow, Pruned, PrunedAt, Returned, Framed, InUse, Noted, Partly, Child, HasChild, Slot;
      ghost var t0, meta0, free0, node0 := t, meta, free, meta[block];
      var w := Pow(h - 1);
      var lo, hi := Div(first, w), Div(last, w);
      WindowIndices(p, f, l, first, last);
      LoopStarts(meta, t, p, f, l, free, lo, hi);
      var start: int, end: int := lo, hi;
      var all := true;
      freed := 0;
      var i := lo;
      while i <= hi
        invariant lo <= i <= hi + 1 <= FAN
        invariant Shape() && NodesBelow(meta, t, p) && p in t && t[p] == block
        invariant Partly(t0, t, p, f, l, lo, i) && Returned(t0, t, free0, free) && Framed(meta0, meta, t0, p)
        invariant block in meta && meta[block] == node0
        invariant Noted(t, p, lo, hi, i, all, start, end)
        invariant freed == Count(t0) - Count(t)
        decreases hi - i
      {
        ghost var t1, meta1, free1 := t, meta, free;
        ChildStill(node0, t0, t, p, f, l, lo, i);
        SlotIs(t, Child(p, i));
        ChildWindow(p, f, l, first, last, i);
        var left := false;
        if meta[block][i] != 0 {
          var got;
          got, left := TruncateChild(meta[block][i], h, if i == lo then Mod(first, w) else 0, if i == hi then Mod(last, w) else w - 1, p, i, f, l);
          freed := freed + got;
          PartlyNext(t0, t1, t, p, f, l, lo, i);
          PrunedOthers(t1, t, p, i, f, l);
          PartlySub(t0, t1, p, f, l, lo, i);
          PrunedAtSub(t1, t, Child(p, i), f, l);
          ReturnedTwice(t0, t1, t, free0, free1, free);
          NotOwnChild(p, i);
          FramedElsewhere(meta1, meta, t1, Child(p, i), p);
          FramedUp(meta1, meta, t0, t1, p, i);
          FramedTwice(meta0, meta1, meta, t0, p);
          if lo < i < hi { MiddleGone(t0, p, f, l, first, last, i); }
        } else {
          HeightOk(t, height, p);
          PartlySkip(t0, t, height, p, f, l, lo, i);
        }
        NotedNext(t1, t, p, lo, hi, i, all, start, end);
        if left {
          if i == lo { start := start + 1; } else if i == hi { end := end - 1; }
          all := false;
        }
        i := i + 1;
      }
      PartlyAll(t0, t, p, f, l, first, last);
      OutsideSame(t0, t, p, f, l, lo, hi);
      PartlySub(t0, t, p, f, l, lo, hi + 1);
      var rest := IsEmptyMetaBlock(meta[block], lo, hi);
      EmptyNode(node0, t0, t, p, lo, hi, all, rest, start, end);
      metaEmpty := all && rest;
      if !metaEmpty {
        NotedBounds(t, p, lo, hi, hi + 1, all, start, end);
        var node := ClearSlots(meta[block], start, end);
        NotedClears(node0, t0, t, p, lo, hi, all, start, end, node);
        RewriteNode(meta, t, p, node);
        FramedWrite(meta0, meta, t0, p, node);
        meta := meta[block := node];
      }
    }

    // -------------------------------------------------------------- allocation

    /** Takes any free block, if there is one. */
    method NewBlock() returns (ok: bool, b: nat)
      requires 0 !in free
      modifies this`free
      ensures ok ==> b in old(free) && b != 0 && free == old(free) - {b}
      ensures !ok ==> free == old(free) == {}
    {
      ok, b := free != {}, 0;
      if ok {
        b :| b in free;
        free := free - {b};
      }
    }

    /** Gives `p` child `i` if it has none: a data block, or a page of null pointers. */
    method EnsureChild(block: nat, h: nat, ghost p: Pos, i: nat) returns (ok: bool)
      requires p.h == h > 0 && p in t && t[p] == block && i < FAN
      requires Shape() && NodesBelow(meta, t, p) && NodeOk(meta, t, p)
      modifies this`meta, this`free, this`t, this`iblocks
      ensures Shape() && NodesBelow(meta, t, p) && p in t && t[p] == block && NodeOk(meta, t, p)
      ensures SubTree(t, old(t)) && forall q <- t :: q !in old(t) ==> q == Child(p, i)
      ensures (ok <==> Child(p, i) in t) && (!ok ==> free == {})
      ensures Returned(t, old(t), free, old(free)) && FramedNew(old(meta), meta, old(t), old(free), p)
      ensures iblocks == old(iblocks) + unit * (Count(t) - Count(old(t)))
    {
      hide Closed, Distinct, InUse, NodesBelow, Returned, FramedNew, Count, Child, Slot, Under, Below, NodeOk;
      ghost var c := Child(p, i);
      NodeIn(meta, t, p);
      SlotIs(t, c);
      ReturnedNone(t, free);
      FramedNewSame(meta, t, free, p);
      if meta[block][i] != 0 { return true; }
      NullFree(t, free);
      var b;
      ok, b := NewBlock();
      if !ok { return; }
      HeightOk(t, height, p);
      ChildHeight(p, i);
      ParentOfChild(p, i);
      AddTree(t, height, old(free), c, b);
      AddNodes(meta, t, height, old(free), p, i, b);
      AddFramed(meta, t, old(free), p, i, b);
      NodeNotFree(meta, t, old(free), p, b);
      if h > 1 {
        meta := meta[b := ZeroPage()];
      } else {
        iblocks := iblocks + unit;
      }
      meta := meta[block := meta[block][i := b]];
      t := t[c := b];
    }

    /** Allocates what is missing of the blocks `first` to `last` of the subtree at `p`. */
    method RecursiveAlloc(block: nat, h: nat, first: nat, last: nat, ghost p: Pos, ghost f: nat, ghost l: nat) returns (ok: bool)
      requires p.h == h > 0 && p in t && t[p] == block && Window(p, f, l, first, last)
      requires Shape() && NodesBelow(meta, t, p) && NodeOk(meta, t, p)
      modifies this`meta, this`free, this`t, this`iblocks
      ensures Shape() && NodesBelow(meta, t, p) && p in t && t[p] == block && NodeOk(meta, t, p)
      ensures Grown(old(t), t, p, f, l) && (if ok then Full(t, p, f, l) else free == {})
      ensures Returned(t, old(t), free, old(free)) && FramedNew(old(meta), meta, old(t), old(free), p)
      ensures iblocks == old(iblocks) + unit * (Count(t) - Count(old(t)))
      decreases h, 1
    {
      hide Window, Closed, Distinct, Pow, Div, Mod, Count, Under, Below, NodesBelow, Returned, FramedNew, InUse, NodeOk, Child, Slot,
           Grown, GrownAt, Full, FullIn;
      ghost var t0, meta0, free0, n0 := t, meta, free, iblocks;
      var w := Pow(h - 1);
      var lo, hi := Div(first, w), Div(last, w);
      WindowIndices(p, f, l, first, last);
      AllocStarts(meta, t, p, f, l, free, lo);
      var i := lo;
      while i <= hi
        invariant lo <= i <= hi + 1 <= FAN
        invariant Shape() && NodesBelow(meta, t, p) && p in t && t[p] == block && NodeOk(meta, t, p)
        invariant Grown(t0, t, p, f, l) && FullIn(t, p, f, l, lo, i)
        invariant Returned(t, t0, free, free0) && FramedNew(meta0, meta, t0, free0, p)
        invariant iblocks == n0 + unit * (Count(t) - Count(t0))
        decreases hi - i
      {
        ghost var t1, meta1, free1 := t, meta, free;
        ChildWindow(p, f, l, first, last, i);
        ok := AllocChild(block, h, if i == lo then Mod(first, w) else 0, if i == hi then Mod(last, w) else w - 1, p, i, f, l);
        GrownSub(t0, t1, p, f, l);
        GrownNext(t0, t1, t, p, f, l, lo, i);
        ReturnedAgain(t0, t1, t, free0, free1, free);
        FramedNewTwice(meta0, meta1, meta, t0, t1, free0, free1, p);
        if !ok { return; }
        FullNext(t1, t, p, f, l, lo, i);
        i := i + 1;
      }
      FullAll(t, p, f, l, first, last);
      ok := true;
    }

    /** One round of the loop: child `i`, and below it what the window needs. */
    method AllocChild(block: nat, h: nat, first: nat, last: nat, ghost p: Pos, i: nat, ghost f: nat, ghost l: nat) returns (ok: bool)
      requires p.h == h > 0 && p in t && t[p] == block && i < FAN && Window(Child(p, i), f, l, first, last)
      requires Shape() && NodesBelow(meta, t, p) && NodeOk(meta, t, p)
      modifies this`meta, this`free, this`t, this`iblocks
      ensures Shape() && NodesBelow(meta, t, p) && p in t && t[p] == block && NodeOk(meta, t, p)
      ensures GrownAt(old(t), t, Child(p, i), f, l) && (if ok then Child(p, i) in t && Full(t, Child(p, i), f, l) else free == {})
      ensures Returned(t, old(t), free, old(free)) && FramedNew(old(meta), meta, old(t), old(free), p)
      ensures iblocks == old(iblocks) + unit * (Count(t) - Count(old(t)))
      decreases h, 0
    {
      hide Window, Closed, Distinct, Pow, Div, Mod, Count, Under, Below, NodesBelow, Returned, FramedNew, InUse, NodeOk, Child, Slot,
           Grown, GrownAt, Full, FullIn;
      ghost var c := Child(p, i);
      ghost var t0, meta0, free0 := t, meta, free;
      WindowTouched(c, f, l, first, last);
      ok := EnsureChild(block, h, p, i);
      ghost var t1, meta1, free1 := t, meta, free;
      AllocStarts(meta, t, c, f, l, free, 0);
      GrownBelow(t0, t1, t1, c, f, l);
      if !ok { return; }
      ChildHeight(p, i);
      if h == 1 {
        FullLeaf(t, c, f, l);
      } else {
        NodeIn(meta, t, p);
        NodesInChild(meta, t, p, i);
        SlotIs(t, c);
        ok := RecursiveAlloc(meta[block][i], h - 1, first, last, c, f, l);
        GrownBelow(t0, t1, t, c, f, l);
        GrownSub(t1, t, c, f, l);
        NodesAfterGrowth(meta1, meta, t1, t, free1, p, i, f, l);
        ReturnedAgain(t0, t1, t, free0, free1, free);
        FramedNewUp(meta0, meta1, meta, t0, t1, free0, free1, p, i);
      }
    }

    /** One more page above the root. */
    method AddLevel() returns (ok: bool)
      requires Valid() && height < MAX_HEIGHT
      modifies this`root, this`height, this`meta, this`free, this`t
      ensures Valid() && SubTree(t, old(t)) && Returned(t, old(t), free, old(free)) && Count(t) == Count(old(t))
      ensures !ok ==> t == old(t) && height == old(height) && free == {}
      ensures ok ==> height == old(height) + 1 && t == old(t)[Pos(height, 0) := root]
    {
      hide Closed, Distinct, InUse, Count, Returned, NodesOk;
      NullFree(t, free);
      ReturnedNone(t, free);
      ghost var free0 := free;
      var b;
      ok, b := NewBlock();
      if ok {
        GrowTopTree(t, height, free0, b);
        GrowTopNodes(meta, t, height, free0, b);
        GrowTopCounts(t, height, free0, b);
        meta := meta[b := ZeroPage()[0 := root]];
        t := t[Pos(height + 1, 0) := b];
        root := b;
        height := height + 1;
      }
    }

    /** Puts pages above the root until the tree is `newHeight` high, or the blocks run out. */
    method IncreaseHeight(newHeight: nat) returns (ok: bool)
      requires Valid() && height < newHeight <= MAX_HEIGHT
      modifies this`root, this`height, this`meta, this`free, this`t
      ensures Valid() && old(height) <= height <= newHeight && (ok <==> height == newHeight) && (!ok ==> free == {})
      ensures Raised(old(t), t, old(height), height)
      ensures Returned(t, old(t), free, old(free)) && Count(t) == Count(old(t))
    {
      hide Closed, Distinct, InUse, Count, Returned, NodesOk, Raised, SubTree;
      ghost var t0, free0 := t, free;
      ReturnedNone(t, free);
      RaisedNone(t, height);
      ok := true;
      while height < newHeight && ok
        invariant Valid() && old(height) <= height <= newHeight && (!ok ==> height < newHeight && free == {})
        invariant Raised(t0, t, old(height), height)
        invariant Returned(t, t0, free, free0) && Count(t) == Count(t0)
        decreases newHeight - height, ok
      {
        ghost var t1, free1 := t, free;
        ok := AddLevel();
        RaisedData(t0, t1, old(height), if ok then height - 1 else height);
        ReturnedAgain(t0, t1, t, free0, free1, free);
        if ok {
          RaisedNext(t0, t1, old(height), height - 1, root);
        }
      }
    }

    /** The least height above the present one that reaches block `last`. */
    method HeightFor(last: nat) returns (h: nat)
      ensures height <= h && last < Pow(h) && (h > height ==> Pow(h - 1) <= last)
    {
      h := height;
      if last > Pow(height) - 1 {
        var total := Div(last, Pow(height));
        DivZero(last, Pow(height));
        while total > 0
          invariant height <= h && total == Div(last, Pow(h)) && (h > height ==> Pow(h - 1) <= last)
          decreases total
        {
          DivZero(last, Pow(h));
          DivDiv(last, Pow(h), FAN);
          DivShrinks(total);
          total := Div(total, FAN);
          h := h + 1;
        }
        DivZero(last, Pow(h));
      }
    }

    method AllocIn(first: nat, last: nat) returns (ok: bool)
      requires Valid() && height > 0 && root != 0 && first <= last < Pow(height)
      modifies this`meta, this`free, this`t, this`iblocks
      ensures Valid() && Grown(old(t), t, Pos(height, 0), first, last) && (if ok then Full(t, Pos(height, 0), first, last) else free == {})
      ensures Returned(t, old(t), free, old(free))
    {
      hide Closed, Distinct, InUse, Count, Returned, Grown, Full, NodesBelow, Window, Pow;
      NodesAll(meta, t, height);
      WholeWindow(height, first, last);
      ok := RecursiveAlloc(root, height, first, last, Pos(height, 0), first, last);
      NodesAll(meta, t, height);
      MulDistr2(unit, Count(old(t)), Count(t) - Count(old(t)));
    }

    /** Allocates the blocks `first` to `last` of the file, as far as they are missing. */
    method AllocBlocks(first: nat, last: nat) returns (ok: bool)
      requires Valid() && first <= last
      modifies this
      ensures Valid() && SubTree(t, old(t)) && Returned(t, old(t), free, old(free))
      ensures forall b: nat | Pos(0, b) in t :: Pos(0, b) in old(t) || first <= b <= last
      ensures ok ==> forall b: nat | first <= b <= last :: Pos(0, b) in t
      ensures Filled(old(t), t, old(height), height, first, last)
      ensures ok && Tidy(old(t)) ==> (Tidy(t) <==> old(root) != 0 || height == 0 || first < FAN)
      ensures last >= Pow(MAX_HEIGHT) ==> !ok && t == old(t)
      ensures !ok ==> last >= Pow(MAX_HEIGHT) || free == {}
      ensures height == old(height) || (height > old(height) && Pow(height - 1) <= last)
    {
      hide Closed, Distinct, InUse, Count, Returned, Grown, Full, NodeOk, Tidy, Pow, Raised, Filled;
      ghost var t0, free0 := t, free;
      var h := HeightFor(last);
      ReturnedNone(t, free);
      RaisedNone(t, height);
      RaisedFilled(t, t, height, height, first, last);
      if h > MAX_HEIGHT {
        PowMono(MAX_HEIGHT, h - 1);
        return false;
      }
      PowMono(h, MAX_HEIGHT);
      if h == 0 {
        if root == 0 { ok := FirstBlock(); } else { ok := true; }
        OneBlock(t, height, first, last);
        if old(root) == 0 && ok { OneFilled(t, first, last); }
        return;
      }
      if h > height {
        ok := IncreaseHeight(h);
        if height > old(height) { PowMono(height - 1, h - 1); }
        if !ok {
          RaisedData(t0, t, old(height), height);
          RaisedFilled(t0, t, old(height), height, first, last);
          return;
        }
      }
      ghost var t1, free1 := t, free;
      RaisedData(t0, t1, old(height), height);
      ok := AllocIn(first, last);
      GrownSub(t1, t, Pos(height, 0), first, last);
      GrownData(t1, t, height, first, last);
      GrownFilled(t0, t1, t, old(height), height, Pos(height, 0), first, last);
      ReturnedAgain(t0, t1, t, free0, free1, free);
      if ok && Tidy(t0) { AllocTidy(t0, t1, t, old(height), height, first, last); }
    }

    /** The tree of a file that fits in one block. */
    method FirstBlock() returns (ok: bool)
      requires Valid() && root == 0
      modifies this`root, this`free, this`t, this`iblocks
      ensures Valid() && SubTree(t, old(t)) && Returned(t, old(t), free, old(free))
      ensures (ok <==> root != 0) && (!ok ==> free == {})
      ensures t == if ok then map[Pos(0, 0) := root] else old(t)
    {
      NullFree(t, free);
      ReturnedNone(t, free);
      var b;
      ok, b := NewBlock();
      if ok {
        OneLeaf(free, b);
        t := map[Pos(0, 0) := b];
        root := b;
        iblocks := iblocks + unit;
      }
    }

    // -------------------------------------------------------------- truncation from the top

    /** Follows the first slot of the page on top down to `newHeight`, freeing the pages passed. */
    method DropLevels(newRoot: nat, newHeight: nat) returns (r: nat)
      requires Shape() && NodesOk(meta, t) && newRoot == Slot(t, Pos(height, 0)) && newHeight <= height
      requires HasData(t) && DataBelow(t, Pow(newHeight))
      modifies this`height, this`free, this`t
      ensures Shape() && NodesOk(meta, t) && height == newHeight && r == Slot(t, Pos(height, 0)) != 0
      ensures HasData(t) && Count(t) == Count(old(t)) && forall b: nat :: Pos(0, b) in t <==> Pos(0, b) in old(t)
      ensures forall b: nat | Pos(0, b) in t :: t[Pos(0, b)] == old(t)[Pos(0, b)]
      ensures Tidy(old(t)) ==> Tidy(t) && SubTree(old(t), t) && Returned(old(t), t, old(free), free)
    {
      hide Closed, Distinct, InUse, Count, Returned, NodesOk, Tidy, Pow, DataBelow, HasData, SubTree, FirstSubtree;
      ghost var t0, free0, tidy := t, free, Tidy(t);
      r := newRoot;
      ReturnedNone(t, free);
      SubTreeSelf(t);
      while height > newHeight
        invariant newHeight <= height && Shape() && NodesOk(meta, t) && r == Slot(t, Pos(height, 0))
        invariant HasData(t) && DataBelow(t, Pow(newHeight)) && Count(t) == Count(t0)
        invariant forall b: nat :: Pos(0, b) in t <==> Pos(0, b) in t0
        invariant forall b: nat | Pos(0, b) in t :: t[Pos(0, b)] == t0[Pos(0, b)]
        invariant tidy ==> Tidy(t) && SubTree(t0, t) && Returned(t0, t, free0, free)
      {
        ghost var t1, free1, h := t, free, height - 1;
        DataBelowMore(t, newHeight, h);
        FirstSlot(t, height, height) by { DataBelowMore(t, newHeight, height); }
        TopNode(meta, t, height);
        SubtreeData(t, height, h);
        SubtreeCount(t, height, h);
        SubtreeClosed(t, height, h, free);
        SubtreeNodes(meta, t, h);
        if tidy { SubtreeTidy(t, height, h, free); }
        SubtreeSlot(t, h);
        var next := meta[r][0];
        free := free + {r};
        t := FirstSubtree(t, h);
        SameData(t1, t, newHeight);
        r := next;
        height := height - 1;
        if tidy { ReturnedTwice(t0, t1, t, free0, free1, free); }
      }
      FirstSlot(t, height, height);
      SlotIs(t, Pos(height, 0));
    }

    /** The tree is no higher than so many bytes ask for, and an empty one has no root. */
    ghost predicate Fits(bytes: nat)
      reads this
      requires blkBytes > 0
    {
      if t == map[] then root == 0 && height == 0
      else bytes <= Pow(height) * blkBytes && (height > 0 ==> Pow(height - 1) * blkBytes < bytes)
    }

    /** How many blocks so many bytes take. */
    function Blocks(bytes: nat): nat
      requires blkBytes > 0
    {
      Div(bytes + blkBytes - 1, blkBytes)
    }

    /** The least height of a tree that reaches block `last`. */
    method LeastHeight(last: nat) returns (h: nat)
      ensures last < Pow(h) && (h > 0 ==> Pow(h - 1) <= last)
    {
      h := 0;
      var rest := last;
      DivZero(last, 1);
      DivBounds(last, 1);
      while rest > 0
        invariant rest == Div(last, Pow(h)) && (h > 0 ==> Pow(h - 1) <= last)
        decreases rest
      {
        DivZero(last, Pow(h));
        DivDiv(last, Pow(h), FAN);
        DivShrinks(rest);
        rest := Div(rest, FAN);
        h := h + 1;
      }
      DivZero(last, Pow(h));
    }

    lemma BlocksBelow(bytes: nat)
      requires blkBytes > 0
      ensures forall b: nat :: b < Blocks(bytes) <==> b * blkBytes < bytes
    {
      forall b: nat ensures b < Blocks(bytes) <==> b * blkBytes < bytes { BlocksAre(bytes, blkBytes, b); }
    }

    lemma NoneFits(bytes: nat)
      requires blkBytes > 0 && t == map[] && root == 0 && height == 0
      ensures Fits(bytes)
    {
    }

    lemma LeastFits(bytes: nat, last: nat)
      requires blkBytes > 0 && HasData(t) && last == Blocks(bytes) - 1 < Pow(height) && (height > 0 ==> Pow(height - 1) <= last)
      ensures Fits(bytes)
    {
      BlocksAre(bytes, blkBytes, Pow(height));
      if height > 0 { BlocksAre(bytes, blkBytes, Pow(height - 1)); }
    }

    /** Fits the height to the new size.  The code insists that without blocks there is no root either. */
    method DecreaseHeight(newSize: nat, newRoot: nat) returns (stopped: bool)
      requires unit > 0 && blkBytes > 0 && Shape() && NodesOk(meta, t) && height <= MAX_HEIGHT
      requires newRoot == Slot(t, Pos(height, 0)) && (root == newRoot || newRoot == 0) && iblocks == unit * Count(t)
      requires DataBelow(t, Blocks(newSize)) && Blocks(newSize) <= Pow(height)
      modifies this`root, this`height, this`free, this`t
      ensures stopped <==> !HasData(old(t)) && old(t) != map[]
      ensures !stopped ==> Valid() && forall b: nat :: Pos(0, b) in t <==> Pos(0, b) in old(t)
      ensures !stopped ==> forall b: nat | Pos(0, b) in t :: t[Pos(0, b)] == old(t)[Pos(0, b)]
      ensures !stopped && Tidy(old(t)) ==> Tidy(t) && SubTree(old(t), t) && Returned(old(t), t, old(free), free)
      ensures !stopped ==> Fits(newSize)
    {
      hide Closed, Distinct, InUse, Count, Returned, NodesOk, Tidy, Pow, DataBelow, HasData, SubTree, Fits;
      CountZero(t);
      NoBlocks(unit, Count(t));
      CeilDiv(newSize, blkBytes);
      NoDataBelow(t, Blocks(newSize));
      EmptyTree(t, height);
      ReturnedNone(t, free);
      SubTreeSelf(t);
      SlotIs(t, Pos(height, 0));
      if iblocks == 0 || newSize == 0 {
        if newRoot != 0 { return true; }
        root := 0;
        height := 0;
        NoneFits(newSize);
        return false;
      }
      FirstSlot(t, height, height) by { DataLimit(t, Blocks(newSize), height); }
      var last := Div(newSize + blkBytes - 1, blkBytes) - 1;
      var h := LeastHeight(last);
      NoHigher(last, h, height);
      DataLimit(t, Blocks(newSize), h);
      stopped := false;
      if height != h { root := DropLevels(newRoot, h); }
      LeastFits(newSize, last);
    }

    /**
     Truncates to `start` bytes what lay before byte `end`, or everything where blocks may lie past the end.
     The code stops if the tree keeps a root although no data is left; `stopped` says so.
     */
    method TruncateBlocks(start: nat, end: nat, eofBlocks: bool) returns (stopped: bool)
      requires Valid()
      requires eofBlocks || forall b: nat | Pos(0, b) in t :: b * blkBytes < end
      modifies this
      ensures stopped <==>
        && old(root) != 0 && (eofBlocks || end > 0) && Blocks(start) <= LastOf(Blocks(end), old(height), eofBlocks)
        && DataFrom(old(t), Blocks(start))
        && exists p :: p in old(t) && !Touched(p, Blocks(start), LastOf(Blocks(end), old(height), eofBlocks))
      ensures !stopped ==> Valid() && forall b: nat :: Pos(0, b) in t <==> Pos(0, b) in old(t) && b * blkBytes < start
      ensures !stopped ==> forall b: nat | Pos(0, b) in t :: t[Pos(0, b)] == old(t)[Pos(0, b)]
      ensures Tidy(old(t)) ==> !stopped && Tidy(t) && SubTree(old(t), t) && Returned(old(t), t, old(free), free)
      ensures !stopped && old(root) != 0 && (eofBlocks || end > 0) && Blocks(start) <= LastOf(Blocks(end), old(height), eofBlocks) ==> Fits(start)
    {
      hide Closed, Distinct, InUse, Count, Returned, NodesOk, Tidy, Pow, DataBelow, HasData, SubTree, Div, DataFrom, Truncated, Touched;
      ghost var t0, free0 := t, free;
      ReturnedNone(t, free);
      SubTreeSelf(t);
      BlocksBelow(start);
      BlocksBelow(end);
      if !eofBlocks { assert DataBelow(t, Blocks(end)) by { BelowIs(t, Blocks(end)); } }
      DataInSpan(t, height);
      CeilDiv(end, blkBytes);
      SlotIs(t, Pos(height, 0));
      stopped := false;
      if root == 0 { return; }
      var first := Div(start + blkBytes - 1, blkBytes);
      var last: int;
      if eofBlocks {
        last := Pow(height) - 1;
      } else {
        if end == 0 {
          DataUpTo(t, Blocks(end), height, -1, false);
          return;
        }
        last := Div(end - 1, blkBytes);
        if last >= Pow(height) { last := Pow(height) - 1; }
      }
      assert last == LastOf(Blocks(end), height, eofBlocks);
      DataUpTo(t, Blocks(end), height, last, eofBlocks);
      if first > last { return; }
      TruncatedMeans(t, height, first, last);
      var newRoot := CutAll(first, last);
      ghost var t1, free1 := t, free;
      stopped := DecreaseHeight(start, newRoot);
      if Tidy(t0) { ReturnedTwice(t0, t1, t, free0, free1, free); }
    }

    /**
     The first write to an empty file allocates the blocks `first` to `last`, and a later truncation to `size` bytes
     meets the end the write left.
     */
    method WriteThenTruncate(first: nat, last: nat, size: nat, end: nat) returns (ok: bool, stopped: bool)
      requires Valid() && root == 0 && first <= last && Blocks(end) == last + 1
      modifies this
      ensures ok ==> (stopped <==> FAN <= Blocks(size) <= first)
      ensures !ok ==> last >= Pow(MAX_HEIGHT) || free == {}
      ensures !stopped ==> Valid()
    {
      hide Closed, Distinct, InUse, Count, Returned, NodesOk, Tidy, Pow, SubTree, Div, Touched, Filled;
      ok := AllocBlocks(first, last);
      stopped := false;
      if ok {
        DataInSpan(t, height);
        CeilDiv(end, blkBytes);
        BlocksBelow(end);
        SparseFileStops(t, height, first, last, Blocks(size));
        stopped := TruncateBlocks(size, end, false);
      }
    }

    /** Cuts the file blocks `first` to `last` out of the tree, with the root if nothing is left. */
    method CutAll(first: nat, last: nat) returns (newRoot: nat)
      requires Valid() && root != 0 && first <= last < Pow(height)
      modifies this`meta, this`free, this`t, this`iblocks
      ensures Shape() && NodesOk(meta, t) && newRoot == Slot(t, Pos(height, 0)) && (newRoot == root || newRoot == 0)
      ensures t == Truncated(old(t), first, last) && Returned(old(t), t, old(free), free) && iblocks == unit * Count(t)
    {
      hide Closed, Distinct, InUse, Count, Returned, Pow, NodesBelow, NodeOk, NodesOk, Pruned, Keep, Window, Truncated;
      ghost var top, t0, free0 := Pos(height, 0), t, free;
      newRoot := root;
      if height == 0 {
        LeafWindow(first, last);
        LeafTouched(t, first, last, top);
        PrunedLeaf(t, top, first, last);
        WholeCut(t, t, height, first, last);
        CountWithout(t, top);
        ReturnedOne(t, top, free);
        FreeBlock(root, top);
        LowNodesOk(meta, t, height);
        newRoot := 0;
        iblocks := iblocks - unit;
        MulDistr2(unit, Count(t), 1);
      } else {
        NodesAll(meta, t, height);
        WholeWindow(height, first, last);
        var freed, metaEmpty := RecursiveTruncate(root, height, first, last, top, first, last);
        WholeCut(t0, t, height, first, last);
        if metaEmpty {
          ghost var t1, free1 := t, free;
          PrunedNone(t0, t, height, top, first, last);
          PrunedSub(t0, t, top, first, last);
          CountWithout(t, top);
          ReturnedOne(t, top, free);
          FreeBlock(root, top);
          ReturnedTwice(t0, t1, t, free0, free1, free);
          EmptyTree(t, height);
          NoNodes(meta);
          newRoot := 0;
        } else {
          NodesAll(meta, t, height);
        }
        iblocks := iblocks - freed * unit;
        MulDistr2(unit, Count(t), freed);
      }
    }
  }

  lemma OutOfSpan(t: Tree, height: nat, blk: nat)
    requires Closed(t, height) && blk >= Pow(height)
    ensures Pos(0, blk) !in t
  {
    if Pos(0, blk) in t { WithinSpan(t, height, Pos(0, blk)); }
  }

  /** A lookup of `blk` has come down to height `h`, where `rest` is left of the number and `bp` is the pointer. */
  ghost predicate At(t: Tree, blk: nat, h: nat, rest: nat, bp: nat) {
    && Anc(Pos(0, blk), h).h == h && bp == Slot(t, Anc(Pos(0, blk), h))
    && rest < Pow(h) && Base(Anc(Pos(0, blk), h)) + rest == blk
  }

  lemma AtTop(t: Tree, height: nat, blk: nat)
    requires blk < Pow(height)
    ensures At(t, blk, height, blk, Slot(t, Pos(height, 0)))
  {
    SpanAnc(blk, height, height);
  }

  lemma AtNext(t: Tree, blk: nat, h: nat, rest: nat, bp: nat)
    requires h > 0 && At(t, blk, h, rest, bp) && bp != 0
    ensures Anc(Pos(0, blk), h).h == h && Anc(Pos(0, blk), h) in t && bp == t[Anc(Pos(0, blk), h)]
    ensures Div(rest, Pow(h - 1)) < FAN
    ensures At(t, blk, h - 1, Mod(rest, Pow(h - 1)), Slot(t, Child(Anc(Pos(0, blk), h), Div(rest, Pow(h - 1)))))
  {
    StepDown(blk, h, rest);
    AncParent(Pos(0, blk), h - 1);
  }

  lemma AtBottom(t: Tree, blk: nat, rest: nat, bp: nat)
    requires At(t, blk, 0, rest, bp)
    ensures bp == Slot(t, Pos(0, blk))
  {
  }

  lemma NothingUnder(t: Tree, height: nat, blk: nat, h: nat, rest: nat)
    requires Closed(t, height) && Distinct(t) && h <= height && At(t, blk, h, rest, 0)
    ensures Pos(0, blk) !in t
  {
    if Pos(0, blk) in t { ClosedAnc(t, height, Pos(0, blk), h); }
  }

  /** One step of a lookup: the index picks the branch, the rest counts from its first block. */
  lemma StepDown(blk: nat, h: nat, rest: nat)
    requires h > 0 && Anc(Pos(0, blk), h).h == h && rest < Pow(h) && Base(Anc(Pos(0, blk), h)) + rest == blk
    ensures Div(rest, Pow(h - 1)) < FAN && Mod(rest, Pow(h - 1)) < Pow(h - 1)
    ensures Anc(Pos(0, blk), h - 1) == Child(Anc(Pos(0, blk), h), Div(rest, Pow(h - 1)))
    ensures Base(Anc(Pos(0, blk), h - 1)) + Mod(rest, Pow(h - 1)) == blk
  {
    var w := Pow(h - 1);
    var p, q := Anc(Pos(0, blk), h), Anc(Pos(0, blk), h - 1);
    AncBase(Pos(0, blk), h - 1);
    AncParent(Pos(0, blk), h - 1);
    ChildOfParent(q);
    var i := q.k % FAN;
    ChildBase(p, i);
    DivOrder(rest, w, i);
    assert Base(q) == Base(p) + i * w && Base(q) <= blk < Base(q) + w;
  }

  lemma LeafWindow(first: nat, last: nat)
    requires first <= last < Pow(0)
    ensures Touched(Pos(0, 0), first, last)
  {
  }

  lemma LowNodesOk(meta: map<nat, seq<nat>>, t: Tree, height: nat)
    requires Closed(t, height) && height == 0
    ensures NodesOk(meta, t)
  {
  }

  lemma NoNodes(meta: map<nat, seq<nat>>)
    ensures NodesOk(meta, map[])
  {
  }

  lemma DivShrinks(x: nat)
    requires x > 0
    ensures Div(x, FAN) < x
  {
  }

  lemma OneLeaf(free: set<nat>, b: nat)
    requires b != 0 && b !in free && 0 !in free
    ensures var t: Tree := map[Pos(0, 0) := b]; Closed(t, 0) && Distinct(t) && InUse(t, free) && Count(t) == 1
    ensures Count(map[]) == 0 && Returned(map[Pos(0, 0) := b], map[], free, free + {b})
  {
    var t: Tree, none: Tree := map[Pos(0, 0) := b], map[];
    assert Data(t) == {Pos(0, 0)};
    assert Data(none) == {};
    forall x ensures x in free + {b} <==> x in free || exists q :: q in t && q !in none && t[q] == x {
      if x == b { assert Pos(0, 0) in t && t[Pos(0, 0)] == x; }
    }
  }

  lemma OneBlock(t: Tree, height: nat, first: nat, last: nat)
    requires height == 0 && Closed(t, height) && last < Pow(0)
    ensures forall b: nat | Pos(0, b) in t :: b == 0
    ensures first <= last ==> first == last == 0
    ensures Tidy(t)
  {
  }

  lemma OneFilled(t: Tree, first: nat, last: nat)
    requires t.Keys == {Pos(0, 0)} && first == last == 0
    ensures Filled(map[], t, 0, 0, first, last)
  {
    assert Base(Pos(0, 0)) == 0;
  }

  lemma RaisedNone(t: Tree, height: nat)
    ensures Raised(t, t, height, height)
  {
  }

  lemma RaisedData(t: Tree, t': Tree, low: nat, height: nat)
    requires Raised(t, t', low, height)
    ensures SubTree(t', t) && forall b: nat | Pos(0, b) in t' :: Pos(0, b) in t
  {
  }

  lemma MulDistr2(a: int, b: int, c: int)
    ensures a * b + a * c == a * (b + c)
  {
  }

  lemma DistinctGone(t: Tree, p: Pos, free: set<nat>)
    requires Distinct(t) && p in t && InUse(t, free - {t[p]})
    ensures Distinct(Without(t, p)) && InUse(Without(t, p), free)
  {
  }

  lemma LeafGone(t: Tree, height: nat, p: Pos)
    requires Closed(t, height) && p in t && forall i: nat | i < FAN && p.h > 0 :: Child(p, i) !in t
    ensures Closed(Without(t, p), height)
  {
    forall q | q in Without(t, p) && q.h < height ensures Parent(q) in Without(t, p) {
      ChildOfParent(q);
    }
  }
}
