/**
 The in-place code on a NOVA file: index slots are replaced one by one and the blocks they gave up
 are freed run by run, a run being consecutive pages of one old entry.
 */
module FileOps {
  import opened Common
  import opened FileLog
  import opened FileKeeps
  import opened FileSafety

  // ---------------------------------------------------------------- runs

  /** The accounts once the run of `n` pages of `run` from `s` on is freed too. */
  function Flush(a: Acct, run: Option<nat>, s: nat, n: nat): Acct
    requires run.Some? ==> run.value < |a.log| && a.log[run.value].Covers(s)
  {
    if run.None? then a else FreeRun(a, run.value, s, n)
  }

  /** The run being collected while the pages `[lo, cur)` are taken away: consecutive pages of one entry, then holes. */
  ghost predicate RunOk(index: map<nat, nat>, lo: nat, cur: nat, run: Option<nat>, s: nat, n: nat) {
    run.Some? ==>
      && 0 < n && lo <= s && s + n <= cur
      && (forall p :: s <= p < s + n ==> p in index && index[p] == run.value)
      && (forall p :: s + n <= p < cur ==> p !in index)
  }

  /** The accounts `a` lack exactly the pending run compared to taking the pages away one at a time. */
  ghost predicate Pending(st: File, lo: nat, cur: nat, a: Acct, run: Option<nat>, s: nat, n: nat)
    requires IndexOk(st.acct.log, st.index)
  {
    && SameShape(st.acct.log, a.log)
    && RunOk(st.index, lo, cur, run, s, n)
    && (run.Some? ==> run.value < |a.log| && a.log[run.value].Covers(s))
    && DropRange(st, lo, cur).acct == Flush(a, run, s, n)
  }

  /** Freeing a run at once is freeing one page less and then its last page. */
  lemma FreeRunNext(a: Acct, k: nat, p: nat, n: nat)
    requires k < |a.log| && a.log[k].Covers(p) && a.log[k].Covers(p + n) && !FreeRun(a, k, p, n).log[k].Dead()
    ensures FreeRun(FreeRun(a, k, p, n), k, p + n, 1) == FreeRun(a, k, p, n + 1)
  {
    var e := a.log[k];
    var b := Nvmm(e, p);
    assert BlockRange(b, n) + BlockRange(b + n, 1) == BlockRange(b, n + 1);
    assert a.free + BlockRange(b, n) + BlockRange(b + n, 1) == a.free + BlockRange(b, n + 1) by {
      MsAssoc(a.free, BlockRange(b, n), BlockRange(b + n, 1));
    }
    assert a.log[k := Invalidated(e, n)][k := Invalidated(Invalidated(e, n), 1)] == a.log[k := Invalidated(e, n + 1)];
  }

  /** Within one entry's pages there is no hole, so the run ends right before its next page. */
  lemma RunMeets(index: map<nat, nat>, lo: nat, cur: nat, k: nat, s: nat, n: nat)
    requires NoHoles(index) && RunOk(index, lo, cur, Some(k), s, n) && cur in index && index[cur] == k
    ensures cur == s + n
  {
    assert s in index && index[s] == k;
    assert s + n < cur ==> s + n in index;
  }

  lemma StillAlive(st: File, lo: nat, cur: nat, all: multiset<nat>, young: nat)
    requires Core(st, all, young) && lo <= cur && cur in st.index
    ensures !DropRange(st, lo, cur).acct.log[st.index[cur]].Dead()
  {
    var d, k := DropRange(st, lo, cur), st.index[cur];
    DropRangeCore(st, lo, cur, all, young);
    DropRangeAt(st, lo, cur, cur);
    hide DropRange, BlocksOk, CountsOk;
    assert EntryOk(d, k, young) && cur in Mapped(d.index, k);
  }

  lemma AcctGrows(st: File, lo: nat, cur: nat, a: Acct, k: nat, s: nat, n: nat)
    requires IndexOk(st.acct.log, st.index) && lo <= cur == s + n && cur in st.index && st.index[cur] == k
    requires k < |a.log| && a.log[k].Covers(s) && a.log[k].Covers(cur)
    requires DropRange(st, lo, cur).acct == FreeRun(a, k, s, n) && !FreeRun(a, k, s, n).log[k].Dead()
    ensures DropRange(st, lo, cur + 1).acct == FreeRun(a, k, s, n + 1)
  {
    hide DropRange, FreeRun, IndexOk;
    DropNext(st, lo, cur);
    DropRangeAt(st, lo, cur, cur);
    FreeRunNext(a, k, s, n);
  }

  lemma RunGrows(st: File, lo: nat, cur: nat, a: Acct, k: nat, s: nat, n: nat, all: multiset<nat>, young: nat)
    requires Core(st, all, young) && NoHoles(st.index) && Pending(st, lo, cur, a, Some(k), s, n)
    requires lo <= cur && cur in st.index && st.index[cur] == k
    ensures Pending(st, lo, cur + 1, a, Some(k), s, n + 1)
  {
    hide DropRange, NoHoles, EntriesOk, BlocksOk, CountsOk, FreeRun;
    assert a.log[k].Covers(cur) by {
      assert Shape(a.log[k]) == Shape(st.acct.log[k]);
    }
    RunMeets(st.index, lo, cur, k, s, n);
    assert RunOk(st.index, lo, cur + 1, Some(k), s, n + 1);
    hide SameShape, RunOk, IndexOk;
    StillAlive(st, lo, cur, all, young);
    AcctGrows(st, lo, cur, a, k, s, n);
  }

  lemma DropNext(st: File, lo: nat, cur: nat)
    requires IndexOk(st.acct.log, st.index) && lo <= cur
    ensures DropRange(st, lo, cur + 1) == Drop(DropRange(st, lo, cur), cur)
  {
  }

  /** A page of another entry starts a new run, once the old one is freed. */
  lemma RunTurns(st: File, lo: nat, cur: nat, a: Acct, run: Option<nat>, s: nat, n: nat)
    requires IndexOk(st.acct.log, st.index) && Pending(st, lo, cur, a, run, s, n)
    requires lo <= cur && cur in st.index
    ensures SameShape(st.acct.log, Flush(a, run, s, n).log)
    ensures Pending(st, lo, cur + 1, Flush(a, run, s, n), Some(st.index[cur]), cur, 1)
  {
    var d := DropRange(st, lo, cur);
    var k := st.index[cur];
    hide DropRange, FreeRun;
    assert Shape(d.acct.log[k]) == Shape(st.acct.log[k]);
    assert RunOk(st.index, lo, cur + 1, Some(k), cur, 1);
    hide SameShape, RunOk;
    DropRangeAt(st, lo, cur, cur);
    DropNext(st, lo, cur);
  }

  lemma RunPassesHole(st: File, lo: nat, cur: nat, a: Acct, run: Option<nat>, s: nat, n: nat)
    requires IndexOk(st.acct.log, st.index) && Pending(st, lo, cur, a, run, s, n)
    requires lo <= cur && cur !in st.index
    ensures Pending(st, lo, cur + 1, a, run, s, n)
  {
    hide DropRange;
    DropNext(st, lo, cur);
    DropRangeAt(st, lo, cur, cur);
  }

  lemma RunStarts(st: File, lo: nat)
    requires IndexOk(st.acct.log, st.index)
    ensures Pending(st, lo, lo, st.acct, None, 0, 0)
  {
  }

  /** A write entry covering page `p` that is already marked. */
  predicate Marked(log: seq<LogEntry>, k: nat, p: nat) {
    k < |log| && log[k].Covers(p) && log[k].reassigned
  }

  lemma PendingRun(st: File, lo: nat, cur: nat, a: Acct, run: Option<nat>, s: nat, n: nat)
    requires IndexOk(st.acct.log, st.index) && Pending(st, lo, cur, a, run, s, n)
    ensures run.Some? ==> run.value < |a.log| && a.log[run.value].Covers(s) && 0 < n
    ensures Flush(a, run, s, n) == DropRange(st, lo, cur).acct
  {
  }

  /** `u` is `index` with the `n` pages from `lo` on already mapped to entry `k`. */
  ghost predicate Repointed(u: map<nat, nat>, index: map<nat, nat>, lo: nat, n: nat, k: nat) {
    u == Repoint(index, lo, n, k)
  }

  lemma RepointNone(index: map<nat, nat>, lo: nat, k: nat)
    ensures Repointed(index, index, lo, 0, k)
  {
    assert forall p: nat :: !Between(lo, 0, p);
  }

  lemma RepointNext(u: map<nat, nat>, index: map<nat, nat>, lo: nat, n: nat, k: nat)
    requires Repointed(u, index, lo, n, k)
    ensures Lookup(u, lo + n) == Lookup(index, lo + n) && Repointed(u[lo + n := k], index, lo, n + 1, k)
  {
    var v := Repoint(index, lo, n + 1, k);
    forall p: nat ensures (p in u[lo + n := k] <==> p in v) && (p in v ==> u[lo + n := k][p] == v[p]) {
      assert Between(lo, n + 1, p) <==> Between(lo, n, p) || p == lo + n;
    }
  }

  lemma AssignAcct(st: File, k: nat)
    requires IndexOk(st.acct.log, st.index) && k < |st.acct.log| && st.acct.log[k].Write?
    ensures var e := st.acct.log[k];
            DoAssign(st, k).acct == DropRange(st, e.pgoff, e.pgoff + e.num).acct && DoAssign(st, k).size == st.size
  {
    hide DropRange, SameShape, Shape, IndexOk, Repoint;
  }

  lemma AssignLookup(st: File, k: nat, index: map<nat, nat>, p: nat)
    requires IndexOk(st.acct.log, st.index) && k < |st.acct.log| && st.acct.log[k].Write?
    requires Repointed(index, st.index, st.acct.log[k].pgoff, st.acct.log[k].num, k)
    ensures Lookup(DoAssign(st, k).index, p) == Lookup(index, p)
  {
    hide DropRange, SameShape, Shape, IndexOk, DoAssign, Repoint;
    AssignIndex(st, k, p);
    AssignAt(st.index, st.acct.log[k], k, p);
  }

  /** Replacing the slots in place is the same as taking the pages away and then mapping them. */
  lemma AssignDone(st: File, k: nat, a: Acct, index: map<nat, nat>)
    requires IndexOk(st.acct.log, st.index) && k < |st.acct.log| && st.acct.log[k].Write?
    requires var e := st.acct.log[k];
             a == DropRange(st, e.pgoff, e.pgoff + e.num).acct && Repointed(index, st.index, e.pgoff, e.num, k)
    ensures File(a, index, st.size) == DoAssign(st, k)
  {
    AssignAcct(st, k);
    var u := DoAssign(st, k);
    hide *;
    forall p: nat ensures Lookup(u.index, p) == Lookup(index, p) {
      AssignLookup(st, k, index, p);
    }
    SameMap(u.index, index);
  }

  lemma SameMap(m: map<nat, nat>, m': map<nat, nat>)
    requires forall p: nat :: Lookup(m, p) == Lookup(m', p)
    ensures m == m'
  {
    forall p: nat ensures (p in m <==> p in m') && (p in m ==> m[p] == m'[p]) {
      assert Lookup(m, p) == Lookup(m', p);
    }
  }

  /** `u` is `index` without the pages `[lo, cur)`. */
  ghost predicate Cut(u: map<nat, nat>, index: map<nat, nat>, lo: nat, cur: nat) {
    forall p: nat :: Lookup(u, p) == if lo <= p < cur then None else Lookup(index, p)
  }

  lemma CutNone(index: map<nat, nat>, lo: nat)
    ensures Cut(index, index, lo, lo)
  {
  }

  lemma CutLookup(u: map<nat, nat>, index: map<nat, nat>, lo: nat, cur: nat, p: nat)
    requires Cut(u, index, lo, cur)
    ensures Lookup(u, p) == if lo <= p < cur then None else Lookup(index, p)
    ensures p in u ==> p in index && u[p] == index[p]
  {
    assert Lookup(u, p) == if lo <= p < cur then None else Lookup(index, p);
  }

  lemma CutNext(u: map<nat, nat>, index: map<nat, nat>, lo: nat, cur: nat)
    requires Cut(u, index, lo, cur) && lo <= cur
    ensures Cut(u - {cur}, index, lo, cur + 1)
  {
    forall p: nat ensures Lookup(u - {cur}, p) == if lo <= p < cur + 1 then None else Lookup(index, p) {
      assert Lookup(u, p) == if lo <= p < cur then None else Lookup(index, p);
    }
  }

  /** Pages that are not mapped may count as taken away. */
  lemma CutHole(u: map<nat, nat>, index: map<nat, nat>, lo: nat, cur: nat, next: nat)
    requires Cut(u, index, lo, cur) && lo <= cur <= next && forall p :: cur <= p < next ==> p !in u
    ensures Cut(u, index, lo, next) && forall p :: cur <= p < next ==> p !in index
  {
    forall p: nat ensures Lookup(u, p) == if lo <= p < next then None else Lookup(index, p) {
      assert Lookup(u, p) == if lo <= p < cur then None else Lookup(index, p);
    }
    forall p: nat | cur <= p < next ensures p !in index {
      assert Lookup(u, p) == Lookup(index, p);
    }
  }

  lemma ShapeSame(log: seq<LogEntry>)
    ensures SameShape(log, log)
  {
  }

  /** A mapped page's entry starts at or before it. */
  lemma EntryStart(st: File, log: seq<LogEntry>, p: nat)
    requires IndexOk(st.acct.log, st.index) && SameShape(st.acct.log, log) && p in st.index
    ensures var k := st.index[p]; k < |log| && log[k].Write? && log[k].pgoff <= p
  {
    assert Shape(log[st.index[p]]) == Shape(st.acct.log[st.index[p]]);
  }

  lemma DropNothing(st: File, lo: nat, hi: nat)
    requires IndexOk(st.acct.log, st.index) && hi <= lo
    ensures DropRange(st, lo, hi) == st
  {
  }

  /** What dropping the pages between two sizes leaves. */
  lemma BelowSize(st: File, start: nat, end: nat)
    requires IndexOk(st.acct.log, st.index) && forall p | p in st.index :: p * BLOCK_SIZE < end
    ensures forall p | p in st.index :: p < Pages(end)
    ensures forall p: nat :: p in DropRange(st, Pages(start), Pages(end)).index <==> p in st.index && p * BLOCK_SIZE < start
  {
    hide DropRange, Pages;
    forall p: nat
      ensures p in st.index ==> p < Pages(end)
      ensures p in DropRange(st, Pages(start), Pages(end)).index <==> p in st.index && p * BLOCK_SIZE < start
    {
      PagesAre(start, p);
      PagesAre(end, p);
      DropRangeAt(st, Pages(start), Pages(end), p);
    }
  }

  lemma PagesBelow(st: File)
    requires NothingPastEof(st)
    ensures forall p | p in st.index :: p * BLOCK_SIZE < st.size
  {
    hide Pages;
    forall p | p in st.index ensures p * BLOCK_SIZE < st.size { PagesAre(st.size, p); }
  }

  /** The number of the last block and the number of blocks. */
  lemma LastBlock(end: nat)
    requires end > 0
    ensures (end - 1) / BLOCK_SIZE + 1 == Pages(end)
  {
  }

  lemma DropDone(st: File, lo: nat, hi: nat, a: Acct, index: map<nat, nat>)
    requires IndexOk(st.acct.log, st.index) && a == DropRange(st, lo, hi).acct && Cut(index, st.index, lo, hi)
    ensures File(a, index, st.size) == DropRange(st, lo, hi)
  {
    hide DropRange, SameShape, IndexOk;
    var u := DropRange(st, lo, hi);
    forall p: nat ensures Lookup(u.index, p) == Lookup(index, p) {
      DropRangeAt(st, lo, hi, p);
      CutLookup(index, st.index, lo, hi, p);
    }
    SameMap(u.index, index);
  }

  lemma WaitingWrite(st: File, k: nat)
    requires Waiting(st, k) && k < |st.acct.log|
    ensures st.acct.log[k].Write? && st.acct.log[k].pgoff + st.acct.log[k].num <= Pages(st.size) && Unmapped(st.index, k)
  {
  }

  /** Once its entries are in the log, a write waits to be assigned. */
  lemma WriteStarts(st: File, es: seq<LogEntry>, all: multiset<nat>)
    requires Inv(st, all) && Enabled(st, WriteFile(es))
    ensures var t := Logged(st, es); var k := |st.acct.log|;
            Core(t, all - BlocksFrom(es, 0), k) && IndexInv(t, k) && Waiting(t, k)
  {
    hide EntriesOk, BlocksOk, CountsOk, Last, Pages, NoHoles, SizeInv, BlocksFrom, ExtentOk;
    WriteFits(st, es);
    var k := |st.acct.log|;
    var t := Logged(st, es);
    AppendCore(st, es, all);
    TakeBlocks(Append(st, es), all, BlocksFrom(es, 0), k, NewSize(st, es));
    PagesMono(st.size, t.size);
    assert t.acct.log[..k] == st.acct.log[..k];
    forall j | k <= j < |t.acct.log| ensures t.acct.log[j].Write? && t.acct.log[j].pgoff + t.acct.log[j].num <= Pages(t.size) {
      assert t.acct.log[j] in es;
    }
  }

  // ---------------------------------------------------------------- replay

  lemma {:induction false} HasTop(keys: set<nat>, lo: nat) returns (top: nat)
    ensures lo <= top && forall p | p in keys :: p < top
  {
    if keys == {} {
      top := lo;
    } else {
      var p :| p in keys;
      var t := HasTop(keys - {p}, lo);
      top := if p < t then t else p + 1;
      forall q | q in keys ensures q < top { assert q == p || q in keys - {p}; }
    }
  }

  /** `index` and `size` are what replaying the first `k` entries of the log gives. */
  ghost predicate Replayed(log: seq<LogEntry>, k: nat, index: map<nat, nat>, size: nat) {
    k <= |log| && size == LastSize(log[..k]) && forall p: nat :: Lookup(index, p) == LastLive(log[..k], p)
  }

  lemma RebuildStarts(log: seq<LogEntry>)
    ensures Replayed(log, 0, map[], 0)
  {
  }

  lemma ReplayIndexOk(log: seq<LogEntry>, k: nat, index: map<nat, nat>, size: nat)
    requires Replayed(log, k, index, size)
    ensures IndexOk(log, index) && forall p | p in index :: index[p] < k
  {
    forall p | p in index ensures index[p] < k && log[index[p]].Covers(p) {
      assert Lookup(index, p) == LastLive(log[..k], p);
    }
  }

  /** Every entry that a replayed entry replaces was marked when the file was written. */
  lemma ReplayMarks(st: File, all: multiset<nat>, k: nat, index: map<nat, nat>, size: nat)
    requires Inv(st, all) && k < |st.acct.log| && Replayed(st.acct.log, k, index, size)
    ensures IndexOk(st.acct.log, index)
    ensures forall p: nat | st.acct.log[k].Covers(p) && p in index :: Marked(st.acct.log, index[p], p)
  {
    hide Inv, LastLive, LastSize, Replayed;
    ReplayIndexOk(st.acct.log, k, index, size);
    forall p: nat | st.acct.log[k].Covers(p) && p in index ensures Marked(st.acct.log, index[p], p) {
      OverwrittenIsMarked(st, all, index[p], k, p);
    }
  }

  /** One more entry replayed: assigned, skipped when dead, or its size applied. */
  lemma ReplayNext(log: seq<LogEntry>, k: nat, index: map<nat, nat>, size: nat, u: map<nat, nat>, newSize: nat, top: nat)
    requires k < |log| && Replayed(log, k, index, size)
    requires newSize == if log[k].Other? then size else log[k].size
    requires match log[k]
             case Write(_, pgoff, num, _, _, _, _) => if log[k].Dead() then u == index else Repointed(u, index, pgoff, num, k)
             case SetAttr(_, s, _, _) => Cut(u, index, Pages(s), top) && forall p | p in index :: p < top
             case Other(_, _) => u == index
    ensures Replayed(log, k + 1, u, newSize)
  {
    hide LastLive, LastSize, Pages, Repoint;
    LastSizeNext(log, k);
    forall p: nat ensures Lookup(u, p) == LastLive(log[..k + 1], p) {
      LastLiveNext(log, k, p);
      assert Lookup(index, p) == LastLive(log[..k], p);
      if log[k].Write? {
        AssignAt(index, log[k], k, p);
      } else if log[k].SetAttr? {
        CutLookup(u, index, Pages(log[k].size), top, p);
      }
    }
  }

  lemma ReplayDone(st: File, all: multiset<nat>, index: map<nat, nat>, size: nat)
    requires Inv(st, all) && Replayed(st.acct.log, |st.acct.log|, index, size)
    ensures index == st.index && size == st.size
  {
    hide Core, IndexInv, LastLive, LastSize;
    assert st.acct.log[..|st.acct.log|] == st.acct.log;
    forall p: nat ensures Lookup(index, p) == Lookup(st.index, p) {
      InvRebuild(st, all, p);
    }
    SameMap(index, st.index);
  }

  // ---------------------------------------------------------------- the file in memory

  class Inode {
    var log: seq<LogEntry>
    var index: map<nat, nat>
    var size: nat
    /** How often the allocator holds each block, and how often each log page was charged a dead entry. */
    var free: multiset<nat>
    var invalidEntries: multiset<nat>

    function Account(): Acct
      reads this`log, this`free, this`invalidEntries
    {
      Acct(log, free, invalidEntries)
    }

    function Abs(): File
      reads this
    {
      File(Account(), index, size)
    }

    constructor (blocks: multiset<nat>)
      ensures Abs() == Init(blocks)
    {
      log, index, size, free, invalidEntries := [], map[], 0, blocks, multiset{};
    }

    /** Update a write entry in place, and charge its log page when no page is left to it. */
    method InvalidateReassign(k: nat, reassign: bool, numFree: nat)
      requires k < |log| && log[k].Write?
      modifies this`log, this`invalidEntries
      ensures log == old(log)[k := old(log)[k].(invalid := old(log)[k].invalid + numFree, reassigned := reassign || old(log)[k].reassigned)]
      ensures invalidEntries == old(invalidEntries) + DeadPage(log[k])
    {
      var e := log[k];
      if reassign { e := e.(reassigned := true); }
      if numFree > 0 { e := e.(invalid := e.invalid + numFree); }
      log := log[k := e];
      if e.invalid == e.num {
        invalidEntries := invalidEntries + multiset{e.page};
      }
    }

    /** Nothing to do for an entry that is already marked and loses no page. */
    method InvalidateWriteEntry(k: Option<nat>, reassign: bool, numFree: nat)
      requires k.Some? ==> k.value < |log| && log[k.value].Write?
      modifies this`log, this`invalidEntries
      ensures k.None? || (numFree == 0 && old(log)[k.value].reassigned) ==> log == old(log) && invalidEntries == old(invalidEntries)
      ensures k.Some? && !(numFree == 0 && old(log)[k.value].reassigned) ==>
                && log == old(log)[k.value := old(log)[k.value].(invalid := old(log)[k.value].invalid + numFree,
                                                                 reassigned := reassign || old(log)[k.value].reassigned)]
                && invalidEntries == old(invalidEntries) + DeadPage(log[k.value])
    {
      if k.None? { return; }
      if numFree == 0 && log[k.value].reassigned { return; }
      InvalidateReassign(k.value, reassign, numFree);
    }

    /** Free `numFree` blocks of an old entry, from the one for page `p` on. */
    method FreeOldEntry(k: nat, p: nat, numFree: nat) returns (freed: nat)
      requires k < |log| && log[k].Covers(p) && numFree > 0
      modifies this`log, this`invalidEntries, this`free
      ensures Account() == FreeRun(old(Account()), k, p, numFree) && freed == numFree
    {
      var nvmm := Nvmm(log[k], p);
      InvalidateWriteEntry(Some(k), true, numFree);
      free := free + BlockRange(nvmm, numFree);
      return numFree;
    }

    /** Finish the run collected so far: free it and mark its entry. */
    method FinishRun(run: Option<nat>, s: nat, n: nat, doFree: bool)
      requires run.Some? ==> run.value < |log| && log[run.value].Covers(s) && 0 < n
      requires run.Some? && !doFree ==> log[run.value].reassigned
      modifies this`log, this`invalidEntries, this`free
      ensures Account() == if doFree then Flush(old(Account()), run, s, n) else old(Account())
    {
      if run.Some? && doFree {
        var _ := FreeOldEntry(run.value, s, n);
      }
      InvalidateWriteEntry(run, true, 0);
    }

    /** The pages `[lo, cur)` of `st` are taken away, all but the pending run of them accounted for. */
    ghost predicate Progress(st: File, lo: nat, cur: nat, run: Option<nat>, s: nat, n: nat, doFree: bool)
      requires IndexOk(st.acct.log, st.index)
      reads this`log, this`free, this`invalidEntries, this`size
    {
      size == st.size &&
      if doFree then Pending(st, lo, cur, Account(), run, s, n)
      else Account() == st.acct && (run.Some? ==> Marked(log, run.value, s) && 0 < n)
    }

    /**
     Page `cur` is taken away from its old entry, if it has one: it joins the run collected so far,
     or that run is finished and a new one starts.
     */
    method TakePage(oldEntry: Option<nat>, cur: nat, run: Option<nat>, s: nat, n: nat, doFree: bool,
                    ghost st: File, ghost lo: nat, ghost all: multiset<nat>, ghost young: nat)
      returns (run': Option<nat>, s': nat, n': nat)
      requires IndexOk(st.acct.log, st.index) && lo <= cur && oldEntry == Lookup(st.index, cur)
      requires Progress(st, lo, cur, run, s, n, doFree)
      requires doFree ==> Core(st, all, young) && NoHoles(st.index)
      requires !doFree && oldEntry.Some? ==> Marked(st.acct.log, oldEntry.value, cur)
      modifies this`log, this`invalidEntries, this`free
      ensures Progress(st, lo, cur + 1, run', s', n', doFree)
    {
      hide Core, DropRange, NoHoles, FreeRun, Pending, Flush, SameShape, IndexOk;
      if oldEntry.None? {
        if doFree { RunPassesHole(st, lo, cur, Account(), run, s, n); }
        return run, s, n;
      }
      if run == oldEntry {
        if doFree { RunGrows(st, lo, cur, Account(), run.value, s, n, all, young); }
        return run, s, n + 1;
      }
      if doFree {
        PendingRun(st, lo, cur, Account(), run, s, n);
        RunTurns(st, lo, cur, Account(), run, s, n);
      }
      FinishRun(run, s, n, doFree);
      return oldEntry, cur, 1;
    }

    /** Finish the last run: all pages of `[lo, cur)` are accounted for. */
    method FinishLast(run: Option<nat>, s: nat, n: nat, doFree: bool, ghost st: File, ghost lo: nat, ghost cur: nat)
      requires IndexOk(st.acct.log, st.index) && Progress(st, lo, cur, run, s, n, doFree)
      modifies this`log, this`invalidEntries, this`free
      ensures Account() == (if doFree then DropRange(st, lo, cur).acct else st.acct) && size == st.size
    {
      hide DropRange, FreeRun, Pending, Flush, IndexOk;
      if doFree { PendingRun(st, lo, cur, Account(), run, s, n); }
      FinishRun(run, s, n, doFree);
    }

    lemma ProgressStarts(lo: nat, doFree: bool)
      requires IndexOk(log, index)
      ensures Progress(Abs(), lo, lo, None, 0, 0, doFree)
    {
      RunStarts(Abs(), lo);
    }

    /** Replace the slots of write entry `k` one by one, leaving the last run to be finished. */
    method ReplaceSlots(k: nat, doFree: bool, ghost all: multiset<nat>) returns (run: Option<nat>, s: nat, n: nat)
      requires IndexOk(log, index) && k < |log| && log[k].Write?
      requires doFree ==> Core(Abs(), all, k) && NoHoles(index)
      requires !doFree ==> forall p: nat | log[k].Covers(p) && p in index :: Marked(log, index[p], p)
      modifies this`log, this`index, this`free, this`invalidEntries
      ensures Progress(old(Abs()), old(log)[k].pgoff, old(log)[k].pgoff + old(log)[k].num, run, s, n, doFree)
      ensures Repointed(index, old(index), old(log)[k].pgoff, old(log)[k].num, k)
    {
      hide Core, DropRange, NoHoles, Repointed, IndexOk, Pending, SameShape, Shape, Progress, Marked;
      ghost var st := Abs();
      var lo, num := log[k].pgoff, log[k].num;
      var i := 0;
      run, s, n := None, 0, 0;
      ProgressStarts(lo, doFree);
      RepointNone(st.index, lo, k);
      while i != num
        invariant i <= num
        invariant Progress(st, lo, lo + i, run, s, n, doFree)
        invariant Repointed(index, st.index, lo, i, k)
      {
        RepointNext(index, st.index, lo, i, k);
        run, s, n := TakePage(Lookup(index, lo + i), lo + i, run, s, n, doFree, st, lo, all, k);
        index := index[lo + i := k];
        i := i + 1;
      }
    }

    /**
     Make the slots of write entry `k` point at it.  Old entries are marked; with `doFree` the blocks
     they gave up are freed.  Without it every old entry is already marked, and the log is only read.
     */
    method AssignWriteEntry(k: nat, doFree: bool, ghost all: multiset<nat>)
      requires IndexOk(log, index) && k < |log| && log[k].Write?
      requires doFree ==> Core(Abs(), all, k) && NoHoles(index)
      requires !doFree ==> forall p: nat | log[k].Covers(p) && p in index :: Marked(log, index[p], p)
      modifies this`log, this`index, this`free, this`invalidEntries
      ensures Abs() == if doFree then DoAssign(old(Abs()), k) else Point(old(Abs()), k)
    {
      hide Core, DropRange, NoHoles, IndexOk, DoAssign, Pending, SameShape, Shape, Repoint, Progress;
      ghost var st := Abs();
      var run, s, n := ReplaceSlots(k, doFree, all);
      FinishLast(run, s, n, doFree, st, st.acct.log[k].pgoff, st.acct.log[k].pgoff + st.acct.log[k].num);
      if doFree { AssignDone(st, k, Account(), index); }
    }

    /** The first page at or after `p` that is mapped. */
    method FindNextEntry(p: nat) returns (q: Option<nat>)
      ensures q.None? ==> forall r | r in index :: r < p
      ensures q.Some? ==> q.value in index && p <= q.value && forall r | r in index && p <= r :: q.value <= r
    {
      var left := set r | r in index && p <= r;
      q := None;
      while left != {}
        invariant left <= index.Keys && forall r | r in left :: p <= r
        invariant q.None? ==> forall r | r in index && p <= r :: r in left
        invariant q.Some? ==> q.value in index && p <= q.value && forall r | r in index && p <= r && r !in left :: q.value <= r
        decreases |left|
      {
        var r :| r in left;
        if q.None? || r < q.value { q := Some(r); }
        left := left - {r};
      }
    }

    lemma ProgressShape(st: File, lo: nat, cur: nat, run: Option<nat>, s: nat, n: nat, doFree: bool)
      requires IndexOk(st.acct.log, st.index) && Progress(st, lo, cur, run, s, n, doFree)
      ensures SameShape(st.acct.log, log)
    {
      hide DropRange, Flush;
    }

    lemma {:induction false} ProgressHole(st: File, lo: nat, cur: nat, next: nat, run: Option<nat>, s: nat, n: nat)
      requires IndexOk(st.acct.log, st.index) && lo <= cur <= next && Progress(st, lo, cur, run, s, n, true)
      requires forall p :: cur <= p < next ==> p !in st.index
      ensures Progress(st, lo, next, run, s, n, true)
      decreases next - cur
    {
      hide DropRange, Pending, IndexOk;
      if cur < next {
        RunPassesHole(st, lo, cur, Account(), run, s, n);
        ProgressHole(st, lo, cur + 1, next, run, s, n);
      }
    }

    /**
     Unmap everything from page `start` on.  A hole is skipped by jumping to the start of the next
     mapped entry, which may lie before the current page when its first pages are gone.
     */
    method DeleteFileTree(start: nat, deleteNvmm: bool, ghost top: nat, ghost all: multiset<nat>)
      requires IndexOk(log, index) && start <= top && forall p | p in index :: p < top
      requires deleteNvmm ==> Core(Abs(), all, |log|) && NoHoles(index)
      modifies this`log, this`index, this`free, this`invalidEntries
      ensures Account() == if deleteNvmm then DropRange(old(Abs()), start, top).acct else old(Account())
      ensures Cut(index, old(index), start, top)
    {
      hide Core, DropRange, NoHoles, Pending, SameShape, Shape, Progress, Cut, IndexOk, Flush;
      ghost var st := Abs();
      var pgoff := start;
      var run: Option<nat>, s: nat, n: nat := None, 0, 0;
      ProgressStarts(start, true);
      ShapeSame(log);
      CutNone(index, start);
      while true
        invariant start <= pgoff <= top
        invariant if deleteNvmm then Progress(st, start, pgoff, run, s, n, true) else Account() == st.acct
        invariant SameShape(st.acct.log, log) && Cut(index, st.index, start, pgoff)
        decreases top - pgoff
      {
        CutLookup(index, st.index, start, pgoff, pgoff);
        if pgoff in index {
          var entry := index[pgoff];
          CutNext(index, st.index, start, pgoff);
          index := index - {pgoff};
          if deleteNvmm {
            run, s, n := TakePage(Some(entry), pgoff, run, s, n, true, st, start, all, |st.acct.log|);
            ProgressShape(st, start, pgoff + 1, run, s, n, true);
          }
          pgoff := pgoff + 1;
        } else {
          var q := FindNextEntry(pgoff);
          if q.None? {
            CutHole(index, st.index, start, pgoff, top);
            if deleteNvmm { ProgressHole(st, start, pgoff, top, run, s, n); }
            break;
          }
          CutLookup(index, st.index, start, pgoff, q.value);
          EntryStart(st, log, q.value);
          var first := log[index[q.value]].pgoff;
          var next := if pgoff + 1 > first then pgoff + 1 else first;
          CutHole(index, st.index, start, pgoff, next);
          if deleteNvmm { ProgressHole(st, start, pgoff, next, run, s, n); }
          pgoff := next;
        }
      }
      if deleteNvmm { FinishLast(run, s, n, true, st, start, top); }
    }

    /** Free the blocks of a file between its new and its old size. */
    method TruncateFileBlocks(start: nat, end: nat, ghost all: multiset<nat>)
      requires Core(Abs(), all, |log|) && NoHoles(index) && forall p | p in index :: p * BLOCK_SIZE < end
      modifies this`log, this`index, this`free, this`invalidEntries
      ensures Abs() == DropRange(old(Abs()), Pages(start), Pages(end))
      ensures forall p: nat :: p in index <==> p in old(index) && p * BLOCK_SIZE < start
    {
      hide EntriesOk, BlocksOk, CountsOk, NoHoles, DropRange, SameShape, Cut, Pages;
      ghost var st := Abs();
      BelowSize(st, start, end);
      var first := Pages(start);
      if end == 0 {
        PagesAre(0, 0);
        DropNothing(st, first, 0);
        return;
      }
      var last := (end - 1) / BLOCK_SIZE;
      LastBlock(end);
      if first > last {
        DropNothing(st, first, Pages(end));
        return;
      }
      DeleteFileTree(first, true, Pages(end), all);
      DropDone(st, first, Pages(end), Account(), index);
    }

    /** Set the file size: log it, free what lies past it, and remember it. */
    method SetFileSize(page: nat, n: nat, ghost all: multiset<nat>)
      requires Inv(Abs(), all)
      modifies this
      ensures Abs() == Apply(old(Abs()), SetSize(page, n)) && Inv(Abs(), all)
      ensures size == n && forall p: nat :: p in index <==> p in old(index) && p * BLOCK_SIZE < n
    {
      hide EntriesOk, BlocksOk, CountsOk, NoHoles, IndexIsLast, DropRange, Pages, LastSize;
      ghost var st := Abs();
      AppendCore(st, [SetAttr(page, n, true, false)], all);
      PassEntry(Append(st, [SetAttr(page, n, true, false)]), |st.acct.log|, all);
      StepKeeps(st, SetSize(page, n), all);
      log := log + [SetAttr(page, n, true, false)];
      assert Abs() == Append(st, [SetAttr(page, n, true, false)]);
      PagesBelow(Abs());
      TruncateFileBlocks(n, size, all);
      size := n;
    }

    /** Apply the committed write entries from position `begin` on to the index. */
    method ReassignFileTree(begin: nat, ghost all: multiset<nat>)
      requires begin <= |log| && Core(Abs(), all, begin) && IndexInv(Abs(), begin) && Waiting(Abs(), begin)
      modifies this`log, this`index, this`free, this`invalidEntries
      ensures Abs() == AssignAll(old(Abs()), begin)
    {
      hide EntriesOk, BlocksOk, CountsOk, NothingPastEof, IndexIsLast, Pages, Waiting, SameShape, DoAssign;
      ghost var a := all;
      ghost var result := AssignAll(Abs(), begin);
      var k := begin;
      while k < |log|
        invariant begin <= k <= |log|
        invariant Core(Abs(), a, k) && IndexInv(Abs(), k) && Waiting(Abs(), k)
        invariant AssignAll(Abs(), k) == result
        decreases |log| - k
      {
        ghost var st := Abs();
        WaitingWrite(st, k);
        AssignIndexInv(st, k);
        AssignCore(st, k, a);
        WaitingNext(st, k);
        AssignKeepsIndexOk(st, k);
        SameLength(st.acct.log, DoAssign(st, k).acct.log);
        AssignWriteEntry(k, true, a);
        a := a + BlocksOf(st.acct.log[k]);
        k := k + 1;
      }
    }

    /** A write of the extents `es`: take their blocks, commit their entries, then assign them. */
    method WriteExtents(es: seq<LogEntry>, ghost all: multiset<nat>)
      requires Inv(Abs(), all) && Enabled(Abs(), WriteFile(es))
      modifies this
      ensures Abs() == Apply(old(Abs()), WriteFile(es)) && Inv(Abs(), all)
    {
      hide Core, IndexInv, LastSize, AssignAll, Pages;
      ghost var st := Abs();
      WriteStarts(st, es, all);
      StepKeeps(st, WriteFile(es), all);
      var begin := |log|;
      size := if es == [] || !es[|es| - 1].Write? then size else es[|es| - 1].size;
      free := free - BlocksFrom(es, 0);
      log := log + es;
      assert Abs() == Logged(st, es);
      ReassignFileTree(begin, all - BlocksFrom(es, 0));
    }

    /** Append an attribute or link entry that changes neither size nor pages. */
    method AppendEntry(e: LogEntry, ghost all: multiset<nat>)
      requires Inv(Abs(), all) && Enabled(Abs(), OtherEntry(e))
      modifies this`log
      ensures Abs() == Apply(old(Abs()), OtherEntry(e)) && Inv(Abs(), all)
    {
      hide Core, IndexInv, SizeInv;
      StepKeeps(Abs(), OtherEntry(e), all);
      log := log + [e];
    }

    /** Mark an entry that a later one supersedes; an entry that sets the size is left alone. */
    method InvalidateEntry(k: nat, ghost all: multiset<nat>)
      requires Inv(Abs(), all) && k < |log| && !log[k].Write? && !log[k].dropped
      requires log[k].SetAttr? ==> exists j :: k < j < |log| && log[j].SetAttr?
      modifies this`log, this`invalidEntries
      ensures Abs() == (if old(log)[k].SetAttr? && old(log)[k].setsSize then old(Abs()) else Apply(old(Abs()), Invalidate(k))) && Inv(Abs(), all)
    {
      hide Core, IndexInv, SizeInv;
      if log[k].SetAttr? && log[k].setsSize { return; }
      StepKeeps(Abs(), Invalidate(k), all);
      log := log[k := log[k].(dropped := true)];
      invalidEntries := invalidEntries + multiset{log[k].page};
    }

    /** Rebuild the index and the size from the log alone; nothing in the log is written. */
    method Rebuild(ghost all: multiset<nat>)
      requires Inv(Abs(), all)
      modifies this
      ensures Abs() == old(Abs())
    {
      hide Core, IndexInv, LastSize, LastLive, Pages, Cut, Last, DropRange, SameShape, Replayed, IndexOk;
      ghost var st := Abs();
      index, size := map[], 0;
      var k := 0;
      RebuildStarts(log);
      while k < |log|
        invariant k <= |log| && Account() == st.acct && Replayed(log, k, index, size)
      {
        ghost var index0, size0, top := index, size, 0;
        ReplayIndexOk(log, k, index, size);
        var e := log[k];
        match e {
          case Write(_, _, num, _, newSize, invalid, _) =>
            if num != invalid {
              ReplayMarks(st, all, k, index, size);
              AssignWriteEntry(k, false, all);
            }
            size := newSize;
          case SetAttr(_, newSize, _, _) =>
            top := HasTop(index.Keys, Pages(newSize));
            DeleteFileTree(Pages(newSize), false, top, all);
            size := newSize;
          case Other(_, _) =>
        }
        ReplayNext(log, k, index0, size0, index, size, top);
        k := k + 1;
      }
      ReplayDone(st, all, index, size);
    }
  }
}
