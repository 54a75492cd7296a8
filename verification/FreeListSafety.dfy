/** Every run of allocations and frees on one free list. */
module FreeListSafety {
  import opened Ranges
  import opened RangeEdits

  /** The free ranges and the blocks in use, out of `[start, end]`. */
  datatype St = St(rs: seq<Range>, used: set<int>, start: nat, end: nat)

  /** What one call changes: blocks are taken out of the free ranges, or blocks in use return to them. */
  datatype Step = Alloc(rs: seq<Range>, lo: nat, hi: nat) | Free(rs: seq<Range>, lo: nat, hi: nat)

  ghost predicate Legal(st: St, s: Step) {
    s.lo <= s.hi &&
    match s
    case Alloc(rs', lo, hi) => Taken(st.rs, rs', lo, hi)
    case Free(rs', lo, hi) => Joined(st.rs, rs', lo, hi) && forall b | lo <= b <= hi :: b in st.used
  }

  function Apply(st: St, s: Step): St {
    match s
    case Alloc(rs', lo, hi) => st.(rs := rs', used := st.used + Blocks(Range(lo, hi)))
    case Free(rs', lo, hi) => st.(rs := rs', used := st.used - Blocks(Range(lo, hi)))
  }

  /** Every block is either free or in use, and the count of the free ones is exact. */
  ghost predicate Inv(st: St) {
    && Canon(st.rs)
    && (forall b :: Has(st.rs, b) || b in st.used <==> st.start <= b <= st.end)
    && (forall b | b in st.used :: !Has(st.rs, b))
    && Total(st.rs) + |st.used| == st.end - st.start + 1
  }

  lemma TakeSize(used: set<int>, lo: nat, hi: nat)
    requires lo <= hi && forall b | lo <= b <= hi :: b !in used
    ensures |used + Blocks(Range(lo, hi))| == |used| + (hi - lo + 1)
  {
    RangeSize(Range(lo, hi));
    UnionSize(used, Blocks(Range(lo, hi)));
  }

  lemma ReturnSize(used: set<int>, lo: nat, hi: nat)
    requires lo <= hi && forall b | lo <= b <= hi :: b in used
    ensures |used - Blocks(Range(lo, hi))| == |used| - (hi - lo + 1)
  {
    var rest := used - Blocks(Range(lo, hi));
    TakeSize(rest, lo, hi);
    assert rest + Blocks(Range(lo, hi)) == used;
  }

  lemma AllocKeeps(st: St, s: Step)
    requires Inv(st) && s.Alloc? && Legal(st, s)
    ensures Inv(Apply(st, s))
  {
    hide Total, Has, Canon, Blocks;
    BlocksIn(s.lo, s.hi);
    assert Covers(st.rs, s.lo, s.hi) && Removed(st.rs, s.rs, s.lo, s.hi);
    TakeSize(st.used, s.lo, s.hi);
    var st' := Apply(st, s);
    forall b ensures Has(st'.rs, b) || b in st'.used <==> st.start <= b <= st.end {
      assert Has(st.rs, b) || b in st.used <==> st.start <= b <= st.end;
    }
  }

  lemma FreeKeeps(st: St, s: Step)
    requires Inv(st) && s.Free? && Legal(st, s)
    ensures Inv(Apply(st, s))
  {
    hide Total, Has, Canon, Blocks;
    BlocksIn(s.lo, s.hi);
    ReturnSize(st.used, s.lo, s.hi);
    var st' := Apply(st, s);
    forall b ensures Has(st'.rs, b) || b in st'.used <==> st.start <= b <= st.end {
      assert Has(st.rs, b) || b in st.used <==> st.start <= b <= st.end;
    }
  }

  lemma BlocksIn(lo: nat, hi: nat)
    ensures forall b :: b in Blocks(Range(lo, hi)) <==> lo <= b <= hi
  {
  }

  lemma StepKeeps(st: St, s: Step)
    requires Inv(st) && Legal(st, s)
    ensures Inv(Apply(st, s))
  {
    if s.Alloc? { AllocKeeps(st, s); } else { FreeKeeps(st, s); }
  }

  ghost predicate Run(st: St, steps: seq<Step>, end: St)
    decreases |steps|
  {
    if steps == [] then end == st else Legal(st, steps[0]) && Run(Apply(st, steps[0]), steps[1..], end)
  }

  lemma {:induction false} RunKeeps(st: St, steps: seq<Step>, end: St)
    requires Inv(st) && Run(st, steps, end)
    ensures Inv(end)
    decreases |steps|
  {
    if steps != [] {
      StepKeeps(st, steps[0]);
      RunKeeps(Apply(st, steps[0]), steps[1..], end);
    }
  }

  /** What is handed out was in nobody's hands. */
  lemma NeverTwice(st: St, s: Step, b: int)
    requires Inv(st) && s.Alloc? && Legal(st, s) && s.lo <= b <= s.hi
    ensures b !in st.used && st.start <= b <= st.end
  {
    assert Covers(st.rs, s.lo, s.hi);
  }

  /** Once everything in use has been returned, one range is left, whatever the order of the frees. */
  lemma AllReturned(st: St)
    requires Inv(st) && st.used == {} && st.start <= st.end
    ensures st.rs == [Range(st.start, st.end)]
  {
    var all := [Range(st.start, st.end)];
    forall b ensures Has(st.rs, b) <==> Has(all, b) {
      assert Has(st.rs, b) || b in st.used <==> st.start <= b <= st.end;
      OneHas(all[0], b);
    }
    CanonUnique(st.rs, all);
  }

  /** A freed range followed by its allocation, or the other way round, restores the list. */
  lemma FreeUndoesAlloc(rs: seq<Range>, rs': seq<Range>, rs'': seq<Range>, lo: nat, hi: nat)
    requires Canon(rs) && Taken(rs, rs', lo, hi) && Joined(rs', rs'', lo, hi)
    ensures rs'' == rs
  {
    forall b ensures Has(rs'', b) <==> Has(rs, b) {
      assert Has(rs', b) <==> Has(rs, b) && !(lo <= b <= hi);
    }
    CanonUnique(rs'', rs);
  }
}
