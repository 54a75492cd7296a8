/** Every run of writes, truncates and garbage collections keeps the file's accounts and index. */
module FileSafety {
  import opened Common
  import opened FileLog
  import opened FileKeeps
  import opened FileCompact

  lemma StepKeeps(st: File, s: Step, all: multiset<nat>)
    requires Inv(st, all) && Enabled(st, s)
    ensures Inv(Apply(st, s), all)
  {
    hide EntriesOk, BlocksOk, CountsOk, IndexInv, SizeInv, AssignAll, DropRange, BlocksFrom;
    match s
    case WriteFile(es) =>
      WriteCore(st, es, all);
      WriteIndex(st, es);
      WriteSizes(st, es);
    case SetSize(page, size) =>
      SetSizeCore(st, page, size, all);
      SetSizeIndex(st, page, size);
      SetSizeSizes(st, page, size);
    case OtherEntry(e) =>
      OtherKeeps(st, e, all);
      OtherSizes(st, e);
    case Invalidate(k) =>
      InvalidateCore(st, k, all);
      InvalidateIndex(st, k);
      InvalidateSizes(st, k);
    case Collect(u, at) => CollectKeeps(st, u, at, all);
  }

  // ---------------------------------------------------------------- every run

  ghost predicate Run(st: File, steps: seq<Step>, u: File, all: multiset<nat>)
    requires Inv(st, all)
    decreases |steps|
  {
    if steps == [] then u == st
    else Enabled(st, steps[0]) && (StepKeeps(st, steps[0], all); Run(Apply(st, steps[0]), steps[1..], u, all))
  }

  lemma {:induction false} RunKeeps(st: File, steps: seq<Step>, u: File, all: multiset<nat>)
    requires Inv(st, all) && Run(st, steps, u, all)
    ensures Inv(u, all)
    decreases |steps|
  {
    hide EntriesOk, BlocksOk, CountsOk, IndexInv, SizeInv, Apply, Enabled;
    if steps != [] {
      StepKeeps(st, steps[0], all);
      RunKeeps(Apply(st, steps[0]), steps[1..], u, all);
    }
  }

  ghost predicate Reachable(u: File, all: multiset<nat>) {
    InitInv(all);
    exists steps: seq<Step> :: Run(Init(all), steps, u, all)
  }

  lemma ReachableInv(u: File, all: multiset<nat>)
    requires Reachable(u, all)
    ensures Inv(u, all)
  {
    InitInv(all);
    var steps: seq<Step> :| Run(Init(all), steps, u, all);
    RunKeeps(Init(all), steps, u, all);
  }

  /**
   In every run: no hole lies between two pages of one entry; an entry's invalid count is its pages
   less those still mapped to it, so it is dead exactly when none is; every dead entry is counted
   once against its log page; and every block is either free once or used by one page.
   */
  lemma IndexAccounting(u: File, all: multiset<nat>)
    requires Reachable(u, all)
    ensures IndexOk(u.acct.log, u.index) && NoHoles(u.index)
    ensures forall k :: 0 <= k < |u.acct.log| && u.acct.log[k].Write? ==>
              u.acct.log[k].invalid == u.acct.log[k].num - |Mapped(u.index, k)| && (u.acct.log[k].Dead() <==> Mapped(u.index, k) == {})
    ensures u.acct.invalidEntries == Sum(u.acct.log, DeadPage)
    ensures forall b: nat :: u.acct.free[b] + |Users(u.acct.log, u.index, b)| == all[b]
  {
    ReachableInv(u, all);
    forall k | 0 <= k < |u.acct.log| && u.acct.log[k].Write?
      ensures u.acct.log[k].invalid == u.acct.log[k].num - |Mapped(u.index, k)|
    {
      assert EntryOk(u, k, |u.acct.log|);
    }
  }

  /** The pages an operation takes away from the entries that held them. */
  ghost predicate Taken(st: File, s: Step, p: nat) {
    match s
    case WriteFile(es) => exists e :: e in es && e.Covers(p)
    case SetSize(_, size) => size <= p * BLOCK_SIZE
    case OtherEntry(_) => false
    case Invalidate(_) => false
    case Collect(_, _) => false
  }

  /** The pages taken from block `b`. */
  ghost function TakenFrom(st: File, s: Step, b: nat): set<nat>
    requires IndexOk(st.acct.log, st.index)
  {
    set p | p in st.index && Holds(st.acct.log, st.index, p, b) && Taken(st, s, p)
  }

  ghost predicate NewBlock(s: Step, b: nat) {
    s.WriteFile? && exists e :: e in s.es && b in BlocksOf(e)
  }

  /** Assigning an entry takes its pages from whatever block `b` it does not own. */
  lemma AssignHolds(st: File, k: nat, p: nat, b: nat)
    requires IndexOk(st.acct.log, st.index) && k < |st.acct.log| && st.acct.log[k].Write? && b !in BlocksOf(st.acct.log[k])
    ensures var u := DoAssign(st, k);
            IndexOk(u.acct.log, u.index) &&
            (Holds(u.acct.log, u.index, p, b) <==> Holds(st.acct.log, st.index, p, b) && !st.acct.log[k].Covers(p))
  {
    hide DoAssign, IndexOk;
    var u := DoAssign(st, k);
    AssignKeepsIndexOk(st, k);
    AssignIndex(st, k, p);
    if p in u.index {
      SameNvmm(st.acct.log, u.acct.log, u.index, p);
    }
    if p in st.index && !st.acct.log[k].Covers(p) {
      SameNvmm(u.acct.log, st.acct.log, st.index, p);
    }
  }

  lemma SameNvmm(s: seq<LogEntry>, t: seq<LogEntry>, index: map<nat, nat>, p: nat)
    requires (SameShape(s, t) || SameShape(t, s)) && IndexOk(t, index) && p in index
    ensures index[p] < |s| && s[index[p]].Covers(p) && t[index[p]].Covers(p) && Nvmm(s[index[p]], p) == Nvmm(t[index[p]], p)
  {
    assert Shape(s[index[p]]) == Shape(t[index[p]]);
  }

  lemma {:induction false} AssignAllHolds(st: File, k: nat, p: nat, b: nat)
    requires IndexOk(st.acct.log, st.index) && k <= |st.acct.log|
    requires forall j :: k <= j < |st.acct.log| ==> b !in BlocksOf(st.acct.log[j])
    ensures var u := AssignAll(st, k);
            IndexOk(u.acct.log, u.index) &&
            (Holds(u.acct.log, u.index, p, b) <==>
              Holds(st.acct.log, st.index, p, b) && forall j :: k <= j < |st.acct.log| ==> !st.acct.log[j].Covers(p))
    decreases |st.acct.log| - k
  {
    hide DoAssign, IndexOk, Holds, BlocksOf;
    if k < |st.acct.log| {
      if st.acct.log[k].Write? {
        var u := DoAssign(st, k);
        AssignKeepsIndexOk(st, k);
        AssignHolds(st, k, p, b);
        forall j | 0 <= j < |u.acct.log|
          ensures |u.acct.log| == |st.acct.log| && u.acct.log[j].Covers(p) == st.acct.log[j].Covers(p) && BlocksOf(u.acct.log[j]) == BlocksOf(st.acct.log[j])
        {
          SameEntry(st.acct.log, u.acct.log, j, p);
        }
        SameLength(st.acct.log, u.acct.log);
        AssignAllHolds(u, k + 1, p, b);
      } else {
        AssignAllHolds(st, k + 1, p, b);
      }
    }
  }

  lemma SameEntry(s: seq<LogEntry>, t: seq<LogEntry>, j: nat, p: nat)
    requires SameShape(s, t) && j < |t|
    ensures j < |s| == |t| && t[j].Covers(p) == s[j].Covers(p) && BlocksOf(t[j]) == BlocksOf(s[j])
  {
    assert Shape(s[j]) == Shape(t[j]);
  }

  lemma WriteUsers(st: File, es: seq<LogEntry>, p: nat, b: nat)
    requires IndexOk(st.acct.log, st.index) && !NewBlock(WriteFile(es), b)
    ensures var u := Apply(st, WriteFile(es));
            IndexOk(u.acct.log, u.index) &&
            (Holds(u.acct.log, u.index, p, b) <==> Holds(st.acct.log, st.index, p, b) && !Taken(st, WriteFile(es), p))
  {
    hide AssignAll;
    var n := |st.acct.log|;
    var t := Logged(st, es);
    forall j | n <= j < |t.acct.log| ensures t.acct.log[j] in es {}
    AssignAllHolds(t, n, p, b);
    if e :| e in es && e.Covers(p) {
      var i :| 0 <= i < |es| && es[i] == e;
      assert t.acct.log[n + i] == e;
    }
  }

  lemma SetSizeUsers(st: File, page: nat, size: nat, p: nat, b: nat)
    requires IndexOk(st.acct.log, st.index) && NothingPastEof(st)
    ensures var u := Apply(st, SetSize(page, size));
            Holds(u.acct.log, u.index, p, b) <==> Holds(st.acct.log, st.index, p, b) && !Taken(st, SetSize(page, size), p)
  {
    hide DropRange, Pages;
    var t := Append(st, [SetAttr(page, size, true, false)]);
    var d := DropRange(t, Pages(size), Pages(st.size));
    DropRangeAt(t, Pages(size), Pages(st.size), p);
    PagesAre(size, p);
    if p in d.index {
      SameNvmm(t.acct.log, d.acct.log, d.index, p);
    }
  }

  lemma InvalidateHolds(st: File, k: nat, p: nat, b: nat)
    requires IndexOk(st.acct.log, st.index) && k < |st.acct.log| && !st.acct.log[k].Write?
    ensures var u := DropEntry(st, k); IndexOk(u.acct.log, u.index) && Holds(u.acct.log, u.index, p, b) == Holds(st.acct.log, st.index, p, b)
  {
    if p in st.index {
      assert DropEntry(st, k).acct.log[st.index[p]] == st.acct.log[st.index[p]];
    }
  }

  lemma StepUsers(st: File, s: Step, all: multiset<nat>, p: nat, b: nat)
    requires Inv(st, all) && Enabled(st, s) && !NewBlock(s, b)
    ensures IndexOk(Apply(st, s).acct.log, Apply(st, s).index)
    ensures Holds(Apply(st, s).acct.log, Apply(st, s).index, p, b)
       <==> Holds(st.acct.log, st.index, p, b) && !Taken(st, s, p)
  {
    hide EntriesOk, BlocksOk, CountsOk, NoHoles, IndexIsLast, NothingPastEof, DropRange, AssignAll;
    match s
    case WriteFile(es) => WriteUsers(st, es, p, b);
    case SetSize(page, size) => SetSizeUsers(st, page, size, p, b);
    case OtherEntry(e) =>
    case Invalidate(k) => InvalidateHolds(st, k, p, b);
    case Collect(u, at) => CollectHolds(st, u, at, p, b);
  }

  lemma BlockCount(u: File, all: multiset<nat>, b: nat)
    requires Inv(u, all)
    ensures IndexOk(u.acct.log, u.index) && u.acct.free[b] + |Users(u.acct.log, u.index, b)| == all[b]
  {
  }

  lemma UsersSplit(st: File, u: File, s: Step, b: nat)
    requires IndexOk(st.acct.log, st.index) && IndexOk(u.acct.log, u.index)
    requires forall p: nat :: Holds(u.acct.log, u.index, p, b) <==> Holds(st.acct.log, st.index, p, b) && !Taken(st, s, p)
    ensures |Users(st.acct.log, st.index, b)| == |Users(u.acct.log, u.index, b)| + |TakenFrom(st, s, b)|
  {
    HoldsIn(st.acct.log, st.index, b);
    HoldsIn(u.acct.log, u.index, b);
    hide Holds, Taken, IndexOk;
    var before, after, taken := Users(st.acct.log, st.index, b), Users(u.acct.log, u.index, b), TakenFrom(st, s, b);
    forall p ensures p in before <==> p in after || p in taken {}
    assert before == after + taken && after !! taken;
  }

  /** An operation frees exactly the blocks of the pages it replaces or truncates, each once. */
  lemma FreesExactly(st: File, s: Step, all: multiset<nat>, b: nat)
    requires Inv(st, all) && Enabled(st, s) && !NewBlock(s, b)
    ensures Apply(st, s).acct.free[b] == st.acct.free[b] + |TakenFrom(st, s, b)|
  {
    StepKeeps(st, s, all);
    var u := Apply(st, s);
    hide Apply, Inv, IndexOk, Holds, Users, TakenFrom, Taken, Enabled;
    BlockCount(st, all, b);
    BlockCount(u, all, b);
    forall p: nat ensures Holds(u.acct.log, u.index, p, b) <==> Holds(st.acct.log, st.index, p, b) && !Taken(st, s, p) {
      StepUsers(st, s, all, p, b);
    }
    UsersSplit(st, u, s, b);
  }

  lemma HoldsIn(log: seq<LogEntry>, index: map<nat, nat>, b: nat)
    requires IndexOk(log, index)
    ensures forall p: nat | Holds(log, index, p, b) :: p in index
  {
  }

  // ---------------------------------------------------------------- rebuild

  /** Like `Last`, as a rebuild sees it: dead write entries are skipped. */
  function LastLive(log: seq<LogEntry>, p: nat): (r: Option<nat>)
    ensures r.Some? ==> r.value < |log| && log[r.value].Covers(p)
  {
    if log == [] then None
    else
      var e := log[|log| - 1];
      if e.Covers(p) && !e.Dead() then Some(|log| - 1)
      else if e.SetAttr? && Pages(e.size) <= p then None
      else LastLive(log[..|log| - 1], p)
  }

  /** Skipping an entry that is not the last word on a page changes nothing for that page. */
  lemma {:induction false} SkipDead(log: seq<LogEntry>, p: nat)
    requires Last(log, p).Some? ==> !log[Last(log, p).value].Dead()
    ensures LastLive(log, p) == Last(log, p)
  {
    if log != [] {
      var e := log[|log| - 1];
      if !e.Covers(p) && !(e.SetAttr? && Pages(e.size) <= p) {
        SkipDead(log[..|log| - 1], p);
      }
    }
  }

  /** Replaying the log of any run, dead entries skipped, gives the index the run left in memory. */
  lemma RebuildEqualsMemory(u: File, all: multiset<nat>, p: nat)
    requires Reachable(u, all)
    ensures LastLive(u.acct.log, p) == Lookup(u.index, p)
  {
    ReachableInv(u, all);
    InvRebuild(u, all, p);
  }

  lemma InvRebuild(u: File, all: multiset<nat>, p: nat)
    requires Inv(u, all)
    ensures LastLive(u.acct.log, p) == Lookup(u.index, p)
  {
    assert u.acct.log[..|u.acct.log|] == u.acct.log;
    assert Lookup(u.index, p) == Last(u.acct.log, p);
    if p in u.index {
      var k := u.index[p];
      assert EntryOk(u, k, |u.acct.log|) && p in Mapped(u.index, k);
    }
    hide Inv, Last;
    SkipDead(u.acct.log, p);
  }

  lemma {:induction false} LastAfter(log: seq<LogEntry>, k: nat, p: nat)
    requires k < |log| && log[k].Covers(p)
    ensures Last(log, p).Some? ==> k <= Last(log, p).value
  {
    var n := |log| - 1;
    if k < n && !log[n].Covers(p) && !(log[n].SetAttr? && Pages(log[n].size) <= p) {
      LastAfter(log[..n], k, p);
    }
  }

  lemma FewerPages(lo: nat, n: nat, s: set<nat>, p: nat)
    requires (forall q | q in s :: lo <= q < lo + n) && lo <= p < lo + n && p !in s
    ensures |s| < n
  {
    var r := set q: nat | lo <= q < lo + n && Between(lo, n, q);
    RangeCard(lo, n, r);
    Subset(s, r, p);
  }

  lemma Subset(s: set<nat>, r: set<nat>, p: nat)
    requires s <= r && p in r && p !in s
    ensures |s| < |r|
  {
    assert s <= r - {p};
    SubsetCard(s, r - {p});
  }

  lemma {:induction false} SubsetCard(s: set<nat>, r: set<nat>)
    requires s <= r
    ensures |s| <= |r|
  {
    if s != {} {
      var x :| x in s;
      SubsetCard(s - {x}, r - {x});
    }
  }

  /** A write entry that lost a page to a later entry is marked in the log. */
  lemma OverwrittenIsMarked(u: File, all: multiset<nat>, j: nat, k: nat, p: nat)
    requires Inv(u, all) && j < k < |u.acct.log| && u.acct.log[j].Covers(p) && u.acct.log[k].Covers(p)
    ensures u.acct.log[j].reassigned
  {
    hide Last, CountsOk, BlocksOk, NoHoles, NothingPastEof, LastSize;
    var log := u.acct.log;
    assert log[..|log|] == log;
    assert Lookup(u.index, p) == Last(log, p);
    LastAfter(log, k, p);
    assert EntryOk(u, j, |log|);
    forall q | q in Mapped(u.index, j) ensures log[j].Covers(q) {}
    FewerPages(log[j].pgoff, log[j].num, Mapped(u.index, j), p);
  }

  lemma LastLiveNext(log: seq<LogEntry>, k: nat, p: nat)
    requires k < |log|
    ensures LastLive(log[..k + 1], p) ==
              if log[k].Covers(p) && !log[k].Dead() then Some(k)
              else if log[k].SetAttr? && Pages(log[k].size) <= p then None else LastLive(log[..k], p)
  {
    assert log[..k + 1][..k] == log[..k];
  }
}
