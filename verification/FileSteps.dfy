/** What each operation on a file does to the blocks its pages lead to, told by what can be seen of the file. */
module FileSteps {
  import opened Common
  import opened FileLog
  import opened FileKeeps
  import opened FileCompact
  import opened FileSafety

  /** The block a read of page `p` goes to. */
  function BlockAt(st: File, p: nat): Option<nat>
    requires IndexOk(st.acct.log, st.index)
  {
    if p in st.index then Some(Nvmm(st.acct.log[st.index[p]], p)) else None
  }

  lemma MappedHolds(st: File, p: nat)
    requires IndexOk(st.acct.log, st.index)
    ensures p in st.index <==> exists b: nat :: Holds(st.acct.log, st.index, p, b)
  {
    if p in st.index { assert Holds(st.acct.log, st.index, p, Nvmm(st.acct.log[st.index[p]], p)); }
  }

  lemma SameHolds(st: File, u: File, p: nat)
    requires IndexOk(st.acct.log, st.index) && IndexOk(u.acct.log, u.index)
    requires forall b: nat :: Holds(u.acct.log, u.index, p, b) <==> Holds(st.acct.log, st.index, p, b)
    ensures BlockAt(u, p) == BlockAt(st, p)
  {
    if p in u.index { assert Holds(u.acct.log, u.index, p, BlockAt(u, p).value); }
    if p in st.index { assert Holds(st.acct.log, st.index, p, BlockAt(st, p).value); }
  }

  // ---------------------------------------------------------------- setting the size

  /** The pages at or past byte `n` whose block is `b`. */
  ghost function CutOff(st: File, n: nat, b: nat): set<nat>
    requires IndexOk(st.acct.log, st.index)
  {
    set p | p in st.index && n <= p * BLOCK_SIZE && BlockAt(st, p) == Some(b)
  }

  /** A page keeps its block if it begins below the new size and loses it otherwise; a block is freed once for each page lost. */
  lemma SetSizeDoes(st: File, page: nat, n: nat, all: multiset<nat>)
    requires Inv(st, all)
    ensures var u := Apply(st, SetSize(page, n));
            && u.size == n && IndexOk(u.acct.log, u.index)
            && (forall p: nat :: BlockAt(u, p) == if p * BLOCK_SIZE < n then BlockAt(st, p) else None)
            && (forall b: nat :: u.acct.free[b] == st.acct.free[b] + |CutOff(st, n, b)|)
            && |u.acct.log| == |st.acct.log| + 1 && u.acct.log[|st.acct.log|] == SetAttr(page, n, true, false)
  {
    var s := SetSize(page, n);
    var u := Apply(st, s);
    StepKeeps(st, s, all);
    hide EntriesOk, BlocksOk, CountsOk, IndexInv, SizeInv, Apply;
    forall p: nat ensures BlockAt(u, p) == if p * BLOCK_SIZE < n then BlockAt(st, p) else None {
      forall b: nat ensures Holds(u.acct.log, u.index, p, b) <==> Holds(st.acct.log, st.index, p, b) && !Taken(st, s, p) {
        StepUsers(st, s, all, p, b);
      }
      if p * BLOCK_SIZE < n {
        SameHolds(st, u, p);
      } else {
        MappedHolds(u, p);
      }
    }
    forall b: nat ensures u.acct.free[b] == st.acct.free[b] + |CutOff(st, n, b)| {
      FreesExactly(st, s, all, b);
      assert TakenFrom(st, s, b) == CutOff(st, n, b);
    }
    SetSizeLog(st, page, n);
  }

  lemma SetSizeLog(st: File, page: nat, n: nat)
    requires IndexOk(st.acct.log, st.index)
    ensures var u := Apply(st, SetSize(page, n));
            && u.size == n && |u.acct.log| == |st.acct.log| + 1 && u.acct.log[|st.acct.log|] == SetAttr(page, n, true, false)
  {
    hide DropRange, Pages;
    var t := Append(st, [SetAttr(page, n, true, false)]);
    var d := DropRange(t, Pages(n), Pages(st.size));
    assert Shape(d.acct.log[|st.acct.log|]) == Shape(t.acct.log[|st.acct.log|]);
  }

  // ---------------------------------------------------------------- writing

  /** Extent `i` is the last that covers page `p`. */
  predicate LastExtent(es: seq<LogEntry>, p: nat, i: nat) {
    i < |es| && es[i].Covers(p) && forall j :: i < j < |es| ==> !es[j].Covers(p)
  }

  /** A written page leads to the block of the last extent that covers it, any other page where it led before. */
  lemma WriteDoes(st: File, es: seq<LogEntry>, all: multiset<nat>)
    requires Inv(st, all) && Enabled(st, WriteFile(es))
    ensures var u := Apply(st, WriteFile(es));
            && IndexOk(u.acct.log, u.index) && Inv(u, all)
            && (forall p: nat, i: nat | LastExtent(es, p, i) :: BlockAt(u, p) == Some(es[i].block + (p - es[i].pgoff)))
            && (forall p: nat | forall e | e in es :: !e.Covers(p) :: BlockAt(u, p) == BlockAt(st, p))
            && |u.acct.log| == |st.acct.log| + |es|
            && if es == [] then u.size == st.size else es[|es| - 1].Write? && u.size == es[|es| - 1].size
  {
    var s := WriteFile(es);
    var u := Apply(st, s);
    StepKeeps(st, s, all);
    WriteLog(st, es);
    assert es != [] ==> es[|es| - 1].Write? by { if es != [] { assert ExtentOk(es, |es| - 1, st.size); } }
    hide EntriesOk, BlocksOk, CountsOk, IndexInv, SizeInv, Apply;
    forall p: nat, i: nat | LastExtent(es, p, i) ensures BlockAt(u, p) == Some(es[i].block + (p - es[i].pgoff)) {
      WrittenAt(st, es, p, i);
    }
    forall p: nat | forall e | e in es :: !e.Covers(p) ensures BlockAt(u, p) == BlockAt(st, p) {
      UnwrittenAt(st, es, p);
    }
  }

  lemma WriteLog(st: File, es: seq<LogEntry>)
    requires IndexOk(st.acct.log, st.index)
    ensures var u := Apply(st, WriteFile(es));
            u.size == NewSize(st, es) && SameShape(Logged(st, es).acct.log, u.acct.log)
  {
    AssignAllShape(Logged(st, es), |st.acct.log|);
  }

  lemma CoversSame(s: seq<LogEntry>, t: seq<LogEntry>, j: nat, p: nat)
    requires SameShape(s, t) && j < |s|
    ensures j < |t| && (t[j].Covers(p) <==> s[j].Covers(p)) && (t[j].Covers(p) ==> Nvmm(t[j], p) == Nvmm(s[j], p))
  {
    assert Shape(s[j]) == Shape(t[j]);
  }

  lemma CoversAll(s: seq<LogEntry>, t: seq<LogEntry>, p: nat)
    requires SameShape(s, t)
    ensures |s| == |t| && forall j :: 0 <= j < |s| ==> (t[j].Covers(p) <==> s[j].Covers(p))
  {
    forall j | 0 <= j < |s| ensures t[j].Covers(p) <==> s[j].Covers(p) { CoversSame(s, t, j, p); }
  }

  lemma {:induction false} NotAssigned(st: File, k: nat, p: nat)
    requires IndexOk(st.acct.log, st.index) && forall j :: k <= j < |st.acct.log| ==> !st.acct.log[j].Covers(p)
    ensures Lookup(AssignAll(st, k).index, p) == Lookup(st.index, p)
    decreases |st.acct.log| - k
  {
    hide DoAssign, IndexOk, SameShape;
    if k < |st.acct.log| {
      if st.acct.log[k].Write? {
        AssignKeepsIndexOk(st, k);
        AssignIndex(st, k, p);
        CoversAll(st.acct.log, DoAssign(st, k).acct.log, p);
        NotAssigned(DoAssign(st, k), k + 1, p);
      } else {
        NotAssigned(st, k + 1, p);
      }
    }
  }

  /** The last entry that covers a page wins. */
  lemma {:induction false} AssignedLast(st: File, k: nat, p: nat, j: nat)
    requires IndexOk(st.acct.log, st.index) && k <= j < |st.acct.log| && st.acct.log[j].Covers(p)
    requires forall i :: j < i < |st.acct.log| ==> !st.acct.log[i].Covers(p)
    ensures Lookup(AssignAll(st, k).index, p) == Some(j)
    decreases |st.acct.log| - k
  {
    hide DoAssign, IndexOk, SameShape;
    if st.acct.log[k].Write? {
      var u := DoAssign(st, k);
      AssignKeepsIndexOk(st, k);
      AssignIndex(st, k, p);
      CoversAll(st.acct.log, u.acct.log, p);
      if k == j { NotAssigned(u, k + 1, p); } else { AssignedLast(u, k + 1, p, j); }
    } else {
      AssignedLast(st, k + 1, p, j);
    }
  }

  lemma WrittenAt(st: File, es: seq<LogEntry>, p: nat, i: nat)
    requires IndexOk(st.acct.log, st.index) && IndexOk(Apply(st, WriteFile(es)).acct.log, Apply(st, WriteFile(es)).index) && LastExtent(es, p, i)
    ensures BlockAt(Apply(st, WriteFile(es)), p) == Some(es[i].block + (p - es[i].pgoff))
  {
    hide AssignAll, IndexOk, SameShape, BlocksFrom;
    var t, n := Logged(st, es), |st.acct.log|;
    var u := AssignAll(t, n);
    AssignAllShape(t, n);
    assert t.acct.log[n + i] == es[i];
    AssignedLast(t, n, p, n + i);
    CoversSame(t.acct.log, u.acct.log, n + i, p);
  }

  lemma UnwrittenAt(st: File, es: seq<LogEntry>, p: nat)
    requires IndexOk(st.acct.log, st.index) && IndexOk(Apply(st, WriteFile(es)).acct.log, Apply(st, WriteFile(es)).index)
    requires forall e | e in es :: !e.Covers(p)
    ensures BlockAt(Apply(st, WriteFile(es)), p) == BlockAt(st, p)
  {
    hide AssignAll, SameShape, BlocksFrom;
    var t, n := Logged(st, es), |st.acct.log|;
    var u := AssignAll(t, n);
    AssignAllShape(t, n);
    NotAssigned(t, n, p);
    if p in st.index { CoversSame(t.acct.log, u.acct.log, st.index[p], p); }
  }

  // ---------------------------------------------------------------- other entries

  /** An appended attribute or link entry changes nothing else. */
  lemma OtherDoes(st: File, e: LogEntry, all: multiset<nat>)
    requires Inv(st, all) && Enabled(st, OtherEntry(e))
    ensures Apply(st, OtherEntry(e)) == st.(acct := st.acct.(log := st.acct.log + [e]))
  {
    hide Inv;
  }

  /** A superseded entry is dead, its page is charged for it once, and nothing else changes. */
  lemma InvalidateDoes(st: File, k: nat, all: multiset<nat>)
    requires Inv(st, all) && Enabled(st, Invalidate(k))
    ensures var u := Apply(st, Invalidate(k));
            && !st.acct.log[k].Dead() && |u.acct.log| == |st.acct.log| && u.acct.log[k].Dead() && u.acct.log[k].page == st.acct.log[k].page
            && (forall j :: 0 <= j < |u.acct.log| && j != k ==> u.acct.log[j] == st.acct.log[j])
            && u.acct.invalidEntries == st.acct.invalidEntries + multiset{st.acct.log[k].page}
            && u.index == st.index && u.size == st.size && u.acct.free == st.acct.free
  {
    hide Inv;
  }

  /** A garbage collection leaves every page at its block, and drops and adds no block. */
  lemma CollectDoes(st: File, v: File, at: seq<nat>, all: multiset<nat>, p: nat)
    requires Inv(st, all) && Enabled(st, Collect(v, at))
    ensures var u := Apply(st, Collect(v, at));
            && IndexOk(u.acct.log, u.index) && BlockAt(u, p) == BlockAt(st, p) && u.size == st.size && u.acct.free == st.acct.free
            && forall i :: 0 <= i < |u.acct.log| ==> exists j :: 0 <= j < |st.acct.log| && Moved(st.acct.log[j], u.acct.log[i])
  {
    hide EntriesOk, BlocksOk, CountsOk, IndexInv, SizeInv;
    forall b: nat ensures IndexOk(v.acct.log, v.index) && (Holds(v.acct.log, v.index, p, b) <==> Holds(st.acct.log, st.index, p, b)) {
      CollectHolds(st, v, at, p, b);
    }
    SameHolds(st, v, p);
    forall i | 0 <= i < |v.acct.log| ensures exists j :: 0 <= j < |st.acct.log| && Moved(st.acct.log[j], v.acct.log[i]) {
      assert Moved(st.acct.log[at[i]], v.acct.log[i]);
    }
  }
}
