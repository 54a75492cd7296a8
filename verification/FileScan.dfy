/**
 What a recovery scan of a NOVA file log marks as used, page by page: the block the log leaves at
 the page, and every replaced block that some snapshot still holds.
 */
module FileScan {
  import opened Common
  import opened FileLog
  import opened FileKeeps
  import opened FileSafety
  import FileCompact

  /** Does a snapshot keep the block that entry `j` held when entry `k` takes its page? */
  type Keep = (nat, nat) -> bool

  /** The file size the scan believes in, starting from whatever an earlier pass left there. */
  function Tracked(log: seq<LogEntry>, s0: nat): nat {
    if log == [] then s0
    else if log[|log| - 1].Other? then Tracked(log[..|log| - 1], s0) else log[|log| - 1].size
  }

  /** Does entry `e` clear page `p`, when the size before it was `size`?  Only what a shrink cuts off is cleared. */
  predicate Clears(e: LogEntry, size: nat, p: nat) {
    e.SetAttr? && e.size < size && Pages(e.size) <= p < Pages(size)
  }

  predicate Fills(e: LogEntry, p: nat) { e.Covers(p) && !e.Dead() }

  /** The entry in the ring at page `p` after the whole log. */
  function RingAt(log: seq<LogEntry>, s0: nat, p: nat): (r: Option<nat>)
    ensures r.Some? ==> r.value < |log| && log[r.value].Covers(p)
  {
    if log == [] then None
    else
      var n := |log| - 1;
      if Fills(log[n], p) then Some(n)
      else if Clears(log[n], Tracked(log[..n], s0), p) then None
      else RingAt(log[..n], s0, p)
  }

  /** The blocks marked because a snapshot keeps what was replaced at page `p`. */
  function KeptAt(log: seq<LogEntry>, s0: nat, keep: Keep, p: nat): set<nat> {
    if log == [] then {}
    else
      var n := |log| - 1;
      KeptAt(log[..n], s0, keep, p) + KeptBy(log, s0, keep, n, p)
  }

  /** What entry `n` marks at page `p`. */
  function KeptBy(log: seq<LogEntry>, s0: nat, keep: Keep, n: nat, p: nat): set<nat>
    requires n < |log|
  {
    var before := RingAt(log[..n], s0, p);
    if before.Some? && (Fills(log[n], p) || Clears(log[n], Tracked(log[..n], s0), p)) && keep(before.value, n)
    then {Nvmm(log[before.value], p)} else {}
  }

  /** All that a scan marks for page `p`. */
  function MarksAt(log: seq<LogEntry>, s0: nat, keep: Keep, p: nat): set<nat> {
    KeptAt(log, s0, keep, p) + match RingAt(log, s0, p) case None => {} case Some(k) => {Nvmm(log[k], p)}
  }

  function MarksIn(log: seq<LogEntry>, s0: nat, keep: Keep, lo: nat, hi: nat): set<nat>
    decreases hi
  {
    if hi <= lo then {} else MarksIn(log, s0, keep, lo, hi - 1) + MarksAt(log, s0, keep, hi - 1)
  }

  // ---------------------------------------------------------------- one entry more

  lemma RingNext(log: seq<LogEntry>, k: nat, s0: nat, p: nat)
    requires k < |log|
    ensures RingAt(log[..k + 1], s0, p) ==
              if Fills(log[k], p) then Some(k) else if Clears(log[k], Tracked(log[..k], s0), p) then None else RingAt(log[..k], s0, p)
  {
    assert log[..k + 1][..k] == log[..k];
  }

  lemma TrackedNext(log: seq<LogEntry>, k: nat, s0: nat)
    requires k < |log|
    ensures Tracked(log[..k + 1], s0) == if log[k].Other? then Tracked(log[..k], s0) else log[k].size
  {
    assert log[..k + 1][..k] == log[..k];
  }

  lemma KeptNext(log: seq<LogEntry>, k: nat, s0: nat, keep: Keep, p: nat)
    requires k < |log|
    ensures KeptAt(log[..k + 1], s0, keep, p) == KeptAt(log[..k], s0, keep, p) + KeptBy(log, s0, keep, k, p)
  {
    hide RingAt;
    assert log[..k + 1][..k] == log[..k];
    var before := RingAt(log[..k], s0, p);
    if before.Some? {
      assert log[..k + 1][before.value] == log[before.value];
    }
  }

  // ---------------------------------------------------------------- the size left by an earlier pass

  /** With no size recorded yet the ring is still empty, so the stale size of an earlier pass does no harm. */
  lemma {:induction false} StaleSize(log: seq<LogEntry>, s0: nat, s1: nat, p: nat)
    ensures RingAt(log, s0, p) == RingAt(log, s1, p)
    ensures RingAt(log, s0, p) == None || Tracked(log, s0) == Tracked(log, s1)
  {
    if log != [] {
      StaleSize(log[..|log| - 1], s0, s1, p);
    }
  }

  lemma {:induction false} StaleKept(log: seq<LogEntry>, s0: nat, s1: nat, keep: Keep, p: nat)
    ensures KeptAt(log, s0, keep, p) == KeptAt(log, s1, keep, p)
  {
    hide RingAt, Tracked;
    if log != [] {
      StaleKept(log[..|log| - 1], s0, s1, keep, p);
      StaleSize(log[..|log| - 1], s0, s1, p);
    }
  }

  lemma StaleMarks(log: seq<LogEntry>, s0: nat, s1: nat, keep: Keep, p: nat)
    ensures MarksAt(log, s0, keep, p) == MarksAt(log, s1, keep, p)
  {
    hide RingAt, KeptAt;
    StaleSize(log, s0, s1, p);
    StaleKept(log, s0, s1, keep, p);
  }

  lemma {:induction false} StaleMarksIn(log: seq<LogEntry>, s0: nat, s1: nat, keep: Keep, lo: nat, hi: nat)
    ensures MarksIn(log, s0, keep, lo, hi) == MarksIn(log, s1, keep, lo, hi)
    decreases hi
  {
    hide MarksAt;
    if lo < hi {
      StaleMarksIn(log, s0, s1, keep, lo, hi - 1);
      StaleMarks(log, s0, s1, keep, hi - 1);
    }
  }

  // ---------------------------------------------------------------- the ring and the rebuilt index

  lemma {:induction false} TrackedIsLast(log: seq<LogEntry>)
    ensures Tracked(log, 0) == LastSize(log)
  {
    if log != [] {
      TrackedIsLast(log[..|log| - 1]);
    }
  }

  /** Nothing is mapped past the recorded size, so a shrink that clears only up to it clears all it must. */
  lemma {:induction false} RingIsRebuild(log: seq<LogEntry>, p: nat)
    requires SizesOk(log)
    ensures RingAt(log, 0, p) == LastLive(log, p)
    ensures LastLive(log, p).Some? ==> p < Pages(LastSize(log))
  {
    hide Pages;
    if log != [] {
      var n := |log| - 1;
      FileCompact.PrefixSizes(log, n);
      RingIsRebuild(log[..n], p);
      TrackedIsLast(log[..n]);
      assert SizeOk(log, n);
      if log[n].Write? {
        PagesMono(LastSize(log[..n]), log[n].size);
      } else if log[n].SetAttr? && !(log[n].size < LastSize(log[..n])) {
        PagesMono(LastSize(log[..n]), log[n].size);
      }
    }
  }

  /** Between two pages left to the same entry there is no hole. */
  lemma {:induction false} NoHoleBetween(log: seq<LogEntry>, p: nat, q: nat, r: nat)
    requires p <= q <= r && LastLive(log, p).Some? && LastLive(log, p) == LastLive(log, r)
    ensures LastLive(log, q).Some?
  {
    hide Pages;
    if log != [] {
      var n := |log| - 1;
      if !Fills(log[n], p) && !Fills(log[n], q) && !Fills(log[n], r) {
        NoHoleBetween(log[..n], p, q, r);
      }
    }
  }

  /**
   No block that a rebuild of the file maps is missing from the marks, and without snapshots the
   marks are exactly those blocks.
   */
  lemma ScanIsSafe(log: seq<LogEntry>, s0: nat, keep: Keep, p: nat)
    requires SizesOk(log)
    ensures LastLive(log, p).Some? ==> Nvmm(log[LastLive(log, p).value], p) in MarksAt(log, s0, keep, p)
    ensures (forall j, k :: !keep(j, k)) ==>
              MarksAt(log, s0, keep, p) == match LastLive(log, p) case None => {} case Some(k) => {Nvmm(log[k], p)}
  {
    hide RingAt, LastLive;
    StaleSize(log, s0, 0, p);
    RingIsRebuild(log, p);
    if forall j, k :: !keep(j, k) {
      NothingKept(log, s0, keep, p);
    }
  }

  lemma {:induction false} NothingKept(log: seq<LogEntry>, s0: nat, keep: Keep, p: nat)
    requires forall j, k :: !keep(j, k)
    ensures KeptAt(log, s0, keep, p) == {}
  {
    hide RingAt;
    if log != [] {
      NothingKept(log[..|log| - 1], s0, keep, p);
    }
  }

  /** Every block a file uses after any run of writes and truncates is marked, so none is taken for free. */
  lemma LiveBlocksMarked(u: File, all: multiset<nat>, s0: nat, keep: Keep, p: nat)
    requires Reachable(u, all) && p in u.index
    ensures IndexOk(u.acct.log, u.index) && Nvmm(u.acct.log[u.index[p]], p) in MarksAt(u.acct.log, s0, keep, p)
  {
    hide Reachable, LastLive, MarksAt, SizesOk, Core, IndexInv;
    ReachableInv(u, all);
    RebuildEqualsMemory(u, all, p);
    IndexAccounting(u, all);
    ScanIsSafe(u.acct.log, s0, keep, p);
  }
}
