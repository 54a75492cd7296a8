/**
 The PMFS undo log as recovery sees it: a ring of 64-byte entries, each made valid by its generation
 id, walked backward from the tail to the head.
 */
module PmfsLog {
  import opened Common

  /** A log entry; `data` holds the at most 48 old bytes found at `addr`. */
  datatype Slot = Slot(gen: nat, tid: nat, start: bool, commit: bool, abort: bool, addr: nat, data: seq<Byte>)
  {
    predicate Ends() { commit || abort }
  }

  /** Copy the old bytes of an entry back over the data. */
  function Write(mem: seq<Byte>, e: Slot): (r: seq<Byte>)
    ensures |r| == |mem|
  {
    if e.addr + |e.data| <= |mem| then mem[..e.addr] + e.data + mem[e.addr + |e.data|..] else mem
  }

  predicate Covers(e: Slot, len: nat, a: nat) {
    e.addr <= a < e.addr + |e.data| <= len
  }

  lemma WriteAt(mem: seq<Byte>, e: Slot, a: nat)
    requires a < |mem|
    ensures Write(mem, e)[a] == if Covers(e, |mem|, a) then e.data[a - e.addr] else mem[a]
  {
  }

  /** Undo the valid entries of `[lo, hi)`, newest first. */
  function UndoRange(slots: seq<Slot>, g: nat, lo: nat, hi: nat, mem: seq<Byte>): (r: seq<Byte>)
    requires hi <= |slots|
    ensures |r| == |mem|
  {
    if hi <= lo then mem
    else UndoRange(slots, g, lo, hi - 1, if slots[hi - 1].gen == g then Write(mem, slots[hi - 1]) else mem)
  }

  /** The oldest valid entry of `[lo, hi)` covering `a`, or `hi`. */
  function First(slots: seq<Slot>, g: nat, lo: nat, hi: nat, len: nat, a: nat): (f: nat)
    requires lo <= hi <= |slots|
    ensures lo <= f <= hi
    ensures f < hi ==> slots[f].gen == g && Covers(slots[f], len, a)
    ensures forall i :: lo <= i < f ==> !(slots[i].gen == g && Covers(slots[i], len, a))
    decreases hi - lo
  {
    if lo == hi || (slots[lo].gen == g && Covers(slots[lo], len, a)) then lo
    else First(slots, g, lo + 1, hi, len, a)
  }

  /** What was there first wins: undoing restores the oldest logged value, whatever the data holds now. */
  lemma {:induction false} UndoRangeAt(slots: seq<Slot>, g: nat, lo: nat, hi: nat, mem: seq<Byte>, a: nat)
    requires lo <= hi <= |slots| && a < |mem|
    ensures var f := First(slots, g, lo, hi, |mem|, a);
            UndoRange(slots, g, lo, hi, mem)[a] == if f < hi then slots[f].data[a - slots[f].addr] else mem[a]
  {
    if lo < hi {
      var e := slots[hi - 1];
      var m := if e.gen == g then Write(mem, e) else mem;
      UndoRangeAt(slots, g, lo, hi - 1, m, a);
      WriteAt(mem, e, a);
      FirstPrefix(slots, g, lo, hi, |mem|, a);
    }
  }

  lemma {:induction false} FirstPrefix(slots: seq<Slot>, g: nat, lo: nat, hi: nat, len: nat, a: nat)
    requires lo < hi <= |slots|
    ensures var f := First(slots, g, lo, hi - 1, len, a);
            First(slots, g, lo, hi, len, a) ==
              if f < hi - 1 || (slots[f].gen == g && Covers(slots[f], len, a)) then f else hi
    decreases hi - lo
  {
    if lo + 1 < hi && !(slots[lo].gen == g && Covers(slots[lo], len, a)) {
      FirstPrefix(slots, g, lo + 1, hi, len, a);
    }
  }

  // ---------------------------------------------------------------- one segment of the ring

  predicate Valid(slots: seq<Slot>, g: nat, i: nat)
    requires i < |slots|
  {
    slots[i].gen == g
  }

  /**
   Where the backward search for the start of a transaction stops: at a start entry, at the end of
   the segment, or just above the closing entry of another transaction.
   */
  function StopAt(slots: seq<Slot>, g: nat, base: nat, k: nat): (j: nat)
    requires base < k <= |slots|
    ensures base <= j < k
    ensures forall i :: j < i < k ==> !(Valid(slots, g, i) && slots[i].start)
    ensures forall i :: j <= i < k - 1 ==> !(Valid(slots, g, i) && slots[i].Ends())
    ensures (Valid(slots, g, j) && slots[j].start) || j == base || (Valid(slots, g, j - 1) && slots[j - 1].Ends())
  {
    if Valid(slots, g, k - 1) && slots[k - 1].start then k - 1
    else if k - 1 == base then base
    else if Valid(slots, g, k - 2) && slots[k - 2].Ends() then k - 1
    else StopAt(slots, g, base, k - 1)
  }

  /** The transaction found between `j` and `k` is undone: it has a start and no closing entry. */
  predicate Undone(slots: seq<Slot>, g: nat, j: nat, k: nat)
    requires j < k <= |slots|
  {
    Valid(slots, g, j) && slots[j].start && !slots[k - 1].Ends()
  }

  /** Recovery of the slots `[base, k)`, all written under generation `g`. */
  function Walk(slots: seq<Slot>, g: nat, base: nat, k: nat, mem: seq<Byte>): (r: seq<Byte>)
    requires base <= k <= |slots|
    ensures |r| == |mem|
    decreases k
  {
    if k == base then mem
    else if !Valid(slots, g, k - 1) then Walk(slots, g, base, k - 1, mem)
    else
      var j := StopAt(slots, g, base, k);
      Walk(slots, g, base, j, if Undone(slots, g, j, k) then UndoRange(slots, g, j, k, mem) else mem)
  }

  /** The addresses recovery of a segment may write. */
  ghost predicate Touched(slots: seq<Slot>, g: nat, base: nat, k: nat, len: nat, a: nat)
    requires base <= k <= |slots|
    decreases k
  {
    if k == base then false
    else if !Valid(slots, g, k - 1) then Touched(slots, g, base, k - 1, len, a)
    else
      var j := StopAt(slots, g, base, k);
      (Undone(slots, g, j, k) && First(slots, g, j, k, len, a) < k) || Touched(slots, g, base, j, len, a)
  }

  /** Recovery overwrites what it touches with values from the log alone, and leaves the rest. */
  lemma {:induction false} WalkAt(slots: seq<Slot>, g: nat, base: nat, k: nat, m1: seq<Byte>, m2: seq<Byte>, a: nat)
    requires base <= k <= |slots| && a < |m1| == |m2|
    requires Touched(slots, g, base, k, |m1|, a) || m1[a] == m2[a]
    ensures Walk(slots, g, base, k, m1)[a] == Walk(slots, g, base, k, m2)[a]
    ensures !Touched(slots, g, base, k, |m1|, a) ==> Walk(slots, g, base, k, m1)[a] == m1[a]
    decreases k
  {
    if k == base {
    } else if !Valid(slots, g, k - 1) {
      WalkAt(slots, g, base, k - 1, m1, m2, a);
    } else {
      var j := StopAt(slots, g, base, k);
      if Undone(slots, g, j, k) {
        UndoRangeAt(slots, g, j, k, m1, a);
        UndoRangeAt(slots, g, j, k, m2, a);
        WalkAt(slots, g, base, j, UndoRange(slots, g, j, k, m1), UndoRange(slots, g, j, k, m2), a);
      } else {
        WalkAt(slots, g, base, j, m1, m2, a);
      }
    }
  }

  /** With no valid entry there is nothing to undo. */
  lemma {:induction false} WalkNothing(slots: seq<Slot>, g: nat, base: nat, k: nat, mem: seq<Byte>)
    requires base <= k <= |slots| && forall i :: base <= i < k ==> !Valid(slots, g, i)
    ensures Walk(slots, g, base, k, mem) == mem
    decreases k
  {
    if k > base {
      WalkNothing(slots, g, base, k - 1, mem);
    }
  }

  // ---------------------------------------------------------------- transactions in a segment

  /** The slots `[lo, hi)` reserved by one transaction. */
  datatype Region = Region(lo: nat, hi: nat)

  ghost predicate Started(slots: seq<Slot>, g: nat, r: Region)
    requires r.lo < |slots|
  {
    Valid(slots, g, r.lo) && slots[r.lo].start
  }

  ghost predicate Closed(slots: seq<Slot>, g: nat, r: Region)
    requires r.hi <= |slots|
  {
    exists c :: r.lo <= c < r.hi && Valid(slots, g, c) && slots[c].Ends()
  }

  /** A start only at the bottom; a closing entry only on top, and only once the start is there. */
  ghost predicate WellFormed(slots: seq<Slot>, g: nat, r: Region)
    requires r.lo < r.hi <= |slots|
  {
    && (forall i :: r.lo < i < r.hi && Valid(slots, g, i) ==> !slots[i].start)
    && (forall c, i :: r.lo <= c < r.hi && Valid(slots, g, c) && slots[c].Ends() && c < i < r.hi ==> !Valid(slots, g, i))
    && (Closed(slots, g, r) ==> Started(slots, g, r))
  }

  ghost predicate Apart(r: Region, s: Region) { r.hi <= s.lo || s.hi <= r.lo }

  /** Every valid slot of `[base, top)` belongs to one of the well-formed, disjoint regions. */
  ghost predicate Layout(slots: seq<Slot>, g: nat, base: nat, top: nat, rs: set<Region>) {
    && base <= top <= |slots|
    && (forall r | r in rs :: base <= r.lo < r.hi <= top && WellFormed(slots, g, r))
    && (forall r, s | r in rs && s in rs && r != s :: Apart(r, s))
    && (forall i :: base <= i < top && Valid(slots, g, i) ==> exists r :: r in rs && r.lo <= i < r.hi)
  }

  /** For an open transaction the oldest value logged for `a` is the one to restore. */
  ghost predicate Restores(slots: seq<Slot>, g: nat, r: Region, spec: seq<Byte>)
    requires r.lo < r.hi <= |slots|
  {
    !Closed(slots, g, r) ==>
      forall a | 0 <= a < |spec| ::
        var f := First(slots, g, r.lo, r.hi, |spec|, a);
        f < r.hi ==> slots[f].data[a - slots[f].addr] == spec[a]
  }

  /** An open transaction below `k`, with its start, covers `a`. */
  ghost predicate OpenCover(slots: seq<Slot>, g: nat, rs: set<Region>, k: nat, len: nat, a: nat)
    requires forall r | r in rs :: r.lo < r.hi <= |slots|
  {
    exists r :: r in rs && r.lo < k && Started(slots, g, r) && !Closed(slots, g, r)
                && First(slots, g, r.lo, r.hi, len, a) < r.hi
  }

  /** `k` does not cut through the valid entries of any transaction. */
  ghost predicate Clean(slots: seq<Slot>, g: nat, rs: set<Region>, k: nat)
    requires forall r | r in rs :: r.hi <= |slots|
  {
    forall r, i | r in rs && r.lo < k <= i < r.hi :: !Valid(slots, g, i)
  }

  /** The data are as they should be but for open transactions still to be undone, and `exc`. */
  ghost predicate Pending(slots: seq<Slot>, g: nat, rs: set<Region>, k: nat, mem: seq<Byte>, spec: seq<Byte>, exc: iset<nat>)
    requires forall r | r in rs :: r.lo < r.hi <= |slots|
  {
    |mem| == |spec| &&
    forall a | 0 <= a < |spec| :: mem[a] == spec[a] || a in exc || OpenCover(slots, g, rs, k, |spec|, a)
  }

  /** The closing entry just examined leads down to the start of its own transaction. */
  lemma StopClosed(slots: seq<Slot>, g: nat, base: nat, top: nat, rs: set<Region>, r: Region, k: nat)
    requires Layout(slots, g, base, top, rs) && base < k <= top
    requires r in rs && r.lo <= k - 1 < r.hi && Valid(slots, g, k - 1) && slots[k - 1].Ends()
    ensures StopAt(slots, g, base, k) == r.lo && Closed(slots, g, r)
  {
    hide StopAt;
    var j := StopAt(slots, g, base, k);
    assert WellFormed(slots, g, r) && Closed(slots, g, r);
  }

  lemma WalkClosed(slots: seq<Slot>, g: nat, base: nat, top: nat, rs: set<Region>, k: nat, mem: seq<Byte>, spec: seq<Byte>, exc: iset<nat>)
    requires Layout(slots, g, base, top, rs) && base < k <= top && Valid(slots, g, k - 1) && slots[k - 1].Ends()
    requires Clean(slots, g, rs, k) && Pending(slots, g, rs, k, mem, spec, exc)
    ensures var j := StopAt(slots, g, base, k); Clean(slots, g, rs, j) && Pending(slots, g, rs, j, mem, spec, exc)
  {
    hide StopAt, First, Started, Closed, WellFormed;
    var j := StopAt(slots, g, base, k);
    var r :| r in rs && r.lo <= k - 1 < r.hi;
    StopClosed(slots, g, base, top, rs, r, k);
    forall s | s in rs && s.lo < k && s != r ensures s.lo < s.hi <= j {
      assert Apart(r, s);
    }
  }

  /** A region holding a slot of `[lo, k)`, where nothing closes and nothing is cut, is open. */
  lemma StaysOpen(slots: seq<Slot>, g: nat, rs: set<Region>, r: Region, lo: nat, k: nat)
    requires (forall s | s in rs :: s.hi <= |slots|) && r in rs && lo < k <= |slots|
    requires lo <= r.lo < k && Clean(slots, g, rs, k)
    requires forall i :: lo <= i < k ==> !(Valid(slots, g, i) && slots[i].Ends())
    ensures !Closed(slots, g, r)
  {
  }

  lemma FirstAgrees(slots: seq<Slot>, g: nat, lo: nat, k: nat, r: Region, len: nat, a: nat)
    requires lo <= k <= |slots| && lo <= r.lo < r.hi <= |slots|
    requires var f := First(slots, g, lo, k, len, a); f < k && r.lo <= f < r.hi
    ensures First(slots, g, r.lo, r.hi, len, a) == First(slots, g, lo, k, len, a)
  {
    hide First;
    var f, f' := First(slots, g, lo, k, len, a), First(slots, g, r.lo, r.hi, len, a);
  }

  lemma UndoneValue(slots: seq<Slot>, g: nat, base: nat, top: nat, rs: set<Region>, r0: Region, k: nat, spec: seq<Byte>, a: nat)
    requires Layout(slots, g, base, top, rs) && base < k <= top
    requires forall r | r in rs :: Restores(slots, g, r, spec)
    requires Clean(slots, g, rs, k) && r0 in rs && r0.lo < k && a < |spec|
    requires forall i :: r0.lo <= i < k ==> !(Valid(slots, g, i) && slots[i].Ends())
    requires First(slots, g, r0.lo, k, |spec|, a) < k
    ensures var f := First(slots, g, r0.lo, k, |spec|, a); slots[f].data[a - slots[f].addr] == spec[a]
  {
    hide First, Closed, Started, WellFormed, Restores;
    var f := First(slots, g, r0.lo, k, |spec|, a);
    assert Valid(slots, g, f);
    var r :| r in rs && r.lo <= f < r.hi;
    assert r.lo >= r0.lo by {
      if r != r0 { assert Apart(r, r0); }
    }
    StaysOpen(slots, g, rs, r, r0.lo, k);
    FirstAgrees(slots, g, r0.lo, k, r, |spec|, a);
    RestoresAt(slots, g, r, spec, a);
  }

  lemma RestoresAt(slots: seq<Slot>, g: nat, r: Region, spec: seq<Byte>, a: nat)
    requires r.lo < r.hi <= |slots| && a < |spec| && !Closed(slots, g, r) && Restores(slots, g, r, spec)
    ensures var f := First(slots, g, r.lo, r.hi, |spec|, a);
            f < r.hi ==> slots[f].data[a - slots[f].addr] == spec[a]
  {
    hide First;
  }

  /** Undoing what lies between a start and `k` settles every address it covers. */
  lemma UndonePending(slots: seq<Slot>, g: nat, base: nat, top: nat, rs: set<Region>, r0: Region, k: nat, mem: seq<Byte>, spec: seq<Byte>, exc: iset<nat>)
    requires Layout(slots, g, base, top, rs) && base < k <= top
    requires forall r | r in rs :: Restores(slots, g, r, spec)
    requires Clean(slots, g, rs, k) && Pending(slots, g, rs, k, mem, spec, exc)
    requires r0 in rs && r0.lo < k
    requires forall i :: r0.lo <= i < k ==> !(Valid(slots, g, i) && slots[i].Ends())
    ensures Pending(slots, g, rs, r0.lo, UndoRange(slots, g, r0.lo, k, mem), spec, exc)
  {
    hide UndoRange, WellFormed, Restores, StopAt;
    var j := r0.lo;
    var m := UndoRange(slots, g, j, k, mem);
    forall a | 0 <= a < |spec| ensures m[a] == spec[a] || a in exc || OpenCover(slots, g, rs, j, |spec|, a) {
      UndoRangeAt(slots, g, j, k, mem, a);
      if First(slots, g, j, k, |spec|, a) < k {
        UndoneValue(slots, g, base, top, rs, r0, k, spec, a);
      } else if mem[a] != spec[a] && a !in exc {
        CoverBelow(slots, g, rs, j, k, |spec|, a);
      }
    }
  }

  lemma CoverBelow(slots: seq<Slot>, g: nat, rs: set<Region>, j: nat, k: nat, len: nat, a: nat)
    requires forall r | r in rs :: r.lo < r.hi <= |slots|
    requires j < k <= |slots| && Clean(slots, g, rs, k)
    requires OpenCover(slots, g, rs, k, len, a) && First(slots, g, j, k, len, a) == k
    ensures OpenCover(slots, g, rs, j, len, a)
  {
    hide First, Started, Closed;
    var r :| r in rs && r.lo < k && Started(slots, g, r) && !Closed(slots, g, r)
             && First(slots, g, r.lo, r.hi, len, a) < r.hi;
    var f := First(slots, g, r.lo, r.hi, len, a);
    assert Valid(slots, g, f);
    assert f < j;
  }

  lemma StartRegion(slots: seq<Slot>, g: nat, base: nat, top: nat, rs: set<Region>, j: nat) returns (r: Region)
    requires Layout(slots, g, base, top, rs) && base <= j < top && Valid(slots, g, j) && slots[j].start
    ensures r in rs && r.lo == j
  {
    hide Closed;
    r :| r in rs && r.lo <= j < r.hi;
    assert WellFormed(slots, g, r);
  }

  /** An open transaction with its start: its region starts where the search stops. */
  lemma WalkUndone(slots: seq<Slot>, g: nat, base: nat, top: nat, rs: set<Region>, k: nat, mem: seq<Byte>, spec: seq<Byte>, exc: iset<nat>)
    requires Layout(slots, g, base, top, rs) && base < k <= top && Valid(slots, g, k - 1) && !slots[k - 1].Ends()
    requires forall r | r in rs :: Restores(slots, g, r, spec)
    requires Clean(slots, g, rs, k) && Pending(slots, g, rs, k, mem, spec, exc)
    requires var j := StopAt(slots, g, base, k); Valid(slots, g, j) && slots[j].start
    ensures var j := StopAt(slots, g, base, k);
            Clean(slots, g, rs, j) && Pending(slots, g, rs, j, UndoRange(slots, g, j, k, mem), spec, exc)
  {
    hide UndoRange, Restores, StopAt, Pending, First, Clean, Closed, Started;
    var j := StopAt(slots, g, base, k);
    var r0 := StartRegion(slots, g, base, top, rs, j);
    CleanBelow(slots, g, base, top, rs, r0);
    UndonePending(slots, g, base, top, rs, r0, k, mem, spec, exc);
  }

  lemma CleanBelow(slots: seq<Slot>, g: nat, base: nat, top: nat, rs: set<Region>, r0: Region)
    requires Layout(slots, g, base, top, rs) && r0 in rs
    ensures Clean(slots, g, rs, r0.lo)
  {
    hide WellFormed;
    forall s | s in rs && s.lo < r0.lo ensures s.hi <= r0.lo {
      assert Apart(r0, s);
    }
  }

  lemma CleanAbove(slots: seq<Slot>, g: nat, base: nat, top: nat, rs: set<Region>, j: nat)
    requires Layout(slots, g, base, top, rs) && base < j <= top && Valid(slots, g, j - 1) && slots[j - 1].Ends()
    ensures Clean(slots, g, rs, j)
  {
    var d :| d in rs && d.lo <= j - 1 < d.hi;
    assert WellFormed(slots, g, d);
    forall s, i | s in rs && s.lo < j <= i < s.hi ensures !Valid(slots, g, i) {
      if s != d { assert Apart(d, s); }
    }
  }

  /** Leftover entries of a transaction whose start never became durable are passed over. */
  lemma WalkPassed(slots: seq<Slot>, g: nat, base: nat, top: nat, rs: set<Region>, k: nat, mem: seq<Byte>, spec: seq<Byte>, exc: iset<nat>)
    requires Layout(slots, g, base, top, rs) && base < k <= top && Valid(slots, g, k - 1)
    requires Clean(slots, g, rs, k) && Pending(slots, g, rs, k, mem, spec, exc)
    requires var j := StopAt(slots, g, base, k); !(Valid(slots, g, j) && slots[j].start)
    ensures var j := StopAt(slots, g, base, k); Clean(slots, g, rs, j) && Pending(slots, g, rs, j, mem, spec, exc)
  {
    hide StopAt, First, Closed, WellFormed;
    var j := StopAt(slots, g, base, k);
    if j > base {
      CleanAbove(slots, g, base, top, rs, j);
    }
    forall r | r in rs && r.lo < k && Started(slots, g, r) ensures r.lo < j {}
  }

  lemma WalkSkipped(slots: seq<Slot>, g: nat, base: nat, top: nat, rs: set<Region>, k: nat, mem: seq<Byte>, spec: seq<Byte>, exc: iset<nat>)
    requires Layout(slots, g, base, top, rs) && base < k <= top && !Valid(slots, g, k - 1)
    requires Clean(slots, g, rs, k) && Pending(slots, g, rs, k, mem, spec, exc)
    ensures Clean(slots, g, rs, k - 1) && Pending(slots, g, rs, k - 1, mem, spec, exc)
  {
    hide First, Closed, WellFormed;
    forall r | r in rs && r.lo < k && Started(slots, g, r) ensures r.lo < k - 1 {}
  }

  /**
   Recovery of one segment leaves exactly `spec`, up to `exc`: open transactions are rolled back to
   the values they found, closed ones and those without a durable start are left alone.
   */
  lemma {:induction false} WalkCorrect(slots: seq<Slot>, g: nat, base: nat, top: nat, rs: set<Region>, k: nat, mem: seq<Byte>, spec: seq<Byte>, exc: iset<nat>)
    requires Layout(slots, g, base, top, rs) && base <= k <= top
    requires forall r | r in rs :: Restores(slots, g, r, spec)
    requires Clean(slots, g, rs, k) && Pending(slots, g, rs, k, mem, spec, exc)
    ensures forall a | 0 <= a < |spec| :: Walk(slots, g, base, k, mem)[a] == spec[a] || a in exc
    decreases k
  {
    hide First, Closed, Started, WellFormed, Restores, UndoRange, StopAt, Clean;
    if k == base {
    } else if !Valid(slots, g, k - 1) {
      WalkSkipped(slots, g, base, top, rs, k, mem, spec, exc);
      WalkCorrect(slots, g, base, top, rs, k - 1, mem, spec, exc);
    } else {
      var j := StopAt(slots, g, base, k);
      if slots[k - 1].Ends() {
        WalkClosed(slots, g, base, top, rs, k, mem, spec, exc);
        WalkCorrect(slots, g, base, top, rs, j, mem, spec, exc);
      } else if Valid(slots, g, j) && slots[j].start {
        WalkUndone(slots, g, base, top, rs, k, mem, spec, exc);
        WalkCorrect(slots, g, base, top, rs, j, UndoRange(slots, g, j, k, mem), spec, exc);
      } else {
        WalkPassed(slots, g, base, top, rs, k, mem, spec, exc);
        WalkCorrect(slots, g, base, top, rs, j, mem, spec, exc);
      }
    }
  }

  // ---------------------------------------------------------------- the ring

  /** Recovery of the whole ring; when it wrapped, the older part carries the generation before. */
  function Recover(slots: seq<Slot>, head: nat, tail: nat, g: nat, mem: seq<Byte>): (r: seq<Byte>)
    requires head <= |slots| && tail <= |slots| && (tail < head ==> g > 0)
    ensures |r| == |mem|
  {
    if head <= tail then Walk(slots, g, head, tail, mem)
    else Walk(slots, g - 1, head, |slots|, Walk(slots, g, 0, tail, mem))
  }

  ghost predicate RecoverTouched(slots: seq<Slot>, head: nat, tail: nat, g: nat, len: nat, a: nat)
    requires head <= |slots| && tail <= |slots| && (tail < head ==> g > 0)
  {
    if head <= tail then Touched(slots, g, head, tail, len, a)
    else Touched(slots, g, 0, tail, len, a) || Touched(slots, g - 1, head, |slots|, len, a)
  }

  /**
   Recovery can be restarted: however much of what it writes has already reached memory, a fresh
   recovery gives the same data.
   */
  lemma RecoverAgain(slots: seq<Slot>, head: nat, tail: nat, g: nat, mem: seq<Byte>, torn: seq<Byte>)
    requires head <= |slots| && tail <= |slots| && (tail < head ==> g > 0) && |torn| == |mem|
    requires forall a | 0 <= a < |mem| :: RecoverTouched(slots, head, tail, g, |mem|, a) || torn[a] == mem[a]
    ensures Recover(slots, head, tail, g, torn) == Recover(slots, head, tail, g, mem)
  {
    var x, y := Recover(slots, head, tail, g, torn), Recover(slots, head, tail, g, mem);
    forall a | 0 <= a < |mem| ensures x[a] == y[a] {
      if head <= tail {
        WalkAt(slots, g, head, tail, torn, mem, a);
      } else {
        var t, m := Walk(slots, g, 0, tail, torn), Walk(slots, g, 0, tail, mem);
        if Touched(slots, g, 0, tail, |mem|, a) || torn[a] == mem[a] {
          WalkAt(slots, g, 0, tail, torn, mem, a);
        }
        WalkAt(slots, g - 1, head, |slots|, t, m, a);
      }
    }
  }
}
