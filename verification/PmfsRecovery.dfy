/** Recovery of a crashed PMFS journal leaves exactly the effects of the committed transactions. */
module PmfsRecovery {
  import opened Common
  import opened PmfsLog
  import opened PmfsCrash
  import opened PmfsAtomicity

  /** The reservations of generation `g` whose tail update is covered by the durable tail. */
  ghost function Regions(st: St, g: nat): set<Region>
    requires Shape(st)
  {
    set t | 0 <= t < |st.txs| && st.txs[t].gen == g && st.txs[t].ti <= st.pt :: Region(st.txs[t].lo, st.txs[t].hi)
  }

  /** The slots of generation `g` that recovery examines. */
  predicate Segment(st: St, g: nat, base: nat, top: nat)
    requires Shape(st)
  {
    var p := st.tails[st.pt];
    (g == st.g0 && base == st.head && top == if p.gen == g then p.tail else |st.vslots|) ||
    (g == st.g0 + 1 == p.gen && base == 0 && top == p.tail)
  }

  lemma TxInSegment(st: St, g: nat, base: nat, top: nat, t: nat)
    requires Owned(st) && Segment(st, g, base, top) && t < |st.txs| && st.txs[t].gen == g && st.txs[t].ti <= st.pt
    ensures base <= st.txs[t].lo < st.txs[t].hi <= top <= |st.vslots|
  {
    assert TxShape(st.txs[t], |st.vslots|) && TxOk(st, st.txs[t]);
    assert TailIn(st.tails[st.pt], st.head, |st.vslots|, st.g0);
    assert Before(st.tails[st.txs[t].ti], st.tails[st.pt].gen, st.tails[st.pt].tail);
    hide TailsOk, TxsOk, SlotsOk, Shape;
  }

  /** A durable entry of a transaction's generation within its slots is one it wrote. */
  lemma ValidIsOwn(st: St, t: nat, i: nat)
    requires Owned(st) && t < |st.txs| && st.txs[t].lo <= i < st.txs[t].hi && i < |st.pslots|
    requires st.pslots[i].gen == st.txs[t].gen
    ensures i < st.txs[t].lo + st.txs[t].used && st.pslots[i] == st.vslots[i]
  {
    OwnerGen(st, t, i);
    assert SlotOk(st, i);
    assert Written(st, i);
    var j :| 0 <= j < |st.txs| && st.txs[j].lo <= i < st.txs[j].lo + st.txs[j].used;
    assert TxShape(st.txs[j], |st.vslots|);
    hide TailsOk, TxsOk, SlotsOk, Written;
    OwnersDiffer(st, t, j, i);
  }

  lemma ValidHasOwner(st: St, g: nat, base: nat, top: nat, i: nat) returns (t: nat)
    requires Owned(st) && Segment(st, g, base, top) && base <= i < top && i < |st.pslots| && st.pslots[i].gen == g
    ensures t < |st.txs| && st.txs[t].gen == g && st.txs[t].ti <= st.pt && st.txs[t].lo <= i < st.txs[t].hi
  {
    assert TailIn(st.tails[st.pt], st.head, |st.vslots|, st.g0);
    assert SegGen(st, i) == g;
    assert SlotOk(st, i);
    t :| 0 <= t < |st.txs| && st.txs[t].lo <= i < st.txs[t].lo + st.txs[t].used;
    assert TxShape(st.txs[t], |st.vslots|);
    OwnerGen(st, t, i);
    assert TxOk(st, st.txs[t]);
    hide TailsOk, TxsOk, SlotsOk;
  }

  /** A closing entry is durable exactly when the transaction is not to be rolled back. */
  lemma ClosedIsNotOpen(st: St, t: nat)
    requires Owned(st) && t < |st.txs|
    ensures var x := st.txs[t];
            x.hi <= |st.pslots| && (Closed(st.pslots, x.gen, Region(x.lo, x.hi)) <==> !Open(st, t))
  {
    var x := st.txs[t];
    assert TxShape(x, |st.vslots|) && EntriesOk(st.vslots, x) && Durable(st, x);
    if !Open(st, t) {
      hide TailsOk, TxsOk, SlotsOk;
      var c := x.lo + x.used - 1;
      assert Valid(st.pslots, x.gen, c) && st.pslots[c].Ends();
    } else if Closed(st.pslots, x.gen, Region(x.lo, x.hi)) {
      var c :| x.lo <= c < x.hi && Valid(st.pslots, x.gen, c) && st.pslots[c].Ends();
      ValidIsOwn(st, t, c);
      hide TailsOk, TxsOk, SlotsOk;
      assert false;
    }
  }

  lemma StartDurable(st: St, t: nat)
    requires Owned(st) && t < |st.txs| && (st.txs[t].fenced > 0 || !Open(st, t))
    ensures var x := st.txs[t]; x.lo < |st.pslots| && Started(st.pslots, x.gen, Region(x.lo, x.hi))
  {
    var x := st.txs[t];
    assert TxShape(x, |st.vslots|) && EntriesOk(st.vslots, x) && Durable(st, x);
    hide TailsOk, TxsOk, SlotsOk;
  }

  lemma RegionWellFormed(st: St, t: nat)
    requires Owned(st) && t < |st.txs|
    ensures var x := st.txs[t]; x.lo < x.hi <= |st.pslots| && WellFormed(st.pslots, x.gen, Region(x.lo, x.hi))
  {
    var x := st.txs[t];
    var r := Region(x.lo, x.hi);
    assert TxShape(x, |st.vslots|) && EntriesOk(st.vslots, x);
    ClosedIsNotOpen(st, t);
    if !Open(st, t) { StartDurable(st, t); }
    hide TailsOk, TxsOk, SlotsOk, Open, Closed, Started;
    forall i: nat | r.lo <= i < r.hi && Valid(st.pslots, x.gen, i)
      ensures i < x.lo + x.used && st.pslots[i] == st.vslots[i]
    {
      ValidIsOwn(st, t, i);
    }
  }

  lemma RegionRestores(st: St, t: nat)
    requires Owned(st) && OldOk(st) && t < |st.txs|
    ensures var x := st.txs[t]; x.lo < x.hi <= |st.pslots| && Restores(st.pslots, x.gen, Region(x.lo, x.hi), st.spec)
  {
    var x := st.txs[t];
    assert TxShape(x, |st.vslots|) && EntriesOk(st.vslots, x) && Durable(st, x);
    ClosedIsNotOpen(st, t);
    if Open(st, t) {
      assert OldValues(st, x);
      hide TailsOk, TxsOk, SlotsOk, Open, OldOk, OldValues, Closed;
      forall i: nat | x.lo <= i < x.hi && st.pslots[i].gen == x.gen
        ensures i < x.lo + x.used && st.pslots[i] == st.vslots[i]
      {
        ValidIsOwn(st, t, i);
      }
      forall a | 0 <= a < |st.spec|
        ensures var f := First(st.pslots, x.gen, x.lo, x.hi, |st.spec|, a);
                f < x.hi ==> st.pslots[f].data[a - st.pslots[f].addr] == st.spec[a]
      {
        hide First, EntriesOk, Durable, Shape, Owned;
        FirstOld(st, t, st.pslots, x.hi, a);
      }
    }
  }

  // ---------------------------------------------------------------- one segment

  lemma RegionOf(st: St, g: nat, r: Region) returns (t: nat)
    requires Shape(st) && r in Regions(st, g)
    ensures t < |st.txs| && st.txs[t].gen == g && st.txs[t].ti <= st.pt && r == Region(st.txs[t].lo, st.txs[t].hi)
  {
    t :| 0 <= t < |st.txs| && st.txs[t].gen == g && st.txs[t].ti <= st.pt && r == Region(st.txs[t].lo, st.txs[t].hi);
  }

  lemma SegmentLayout(st: St, g: nat, base: nat, top: nat)
    requires Owned(st) && Segment(st, g, base, top) && base <= top <= |st.vslots|
    ensures Layout(st.pslots, g, base, top, Regions(st, g))
  {
    var rs := Regions(st, g);
    forall r | r in rs ensures base <= r.lo < r.hi <= top && WellFormed(st.pslots, g, r) {
      var t := RegionOf(st, g, r);
      TxInSegment(st, g, base, top, t);
      RegionWellFormed(st, t);
      hide TailsOk, TxsOk, SlotsOk, Shape, Regions, WellFormed;
    }
    forall r, s | r in rs && s in rs && r != s ensures Apart(r, s) {
      var i := RegionOf(st, g, r);
      var j := RegionOf(st, g, s);
      hide TailsOk, SlotsOk, Shape, Regions;
    }
    forall i: nat | base <= i < top && Valid(st.pslots, g, i) ensures exists r :: r in rs && r.lo <= i < r.hi {
      var t := ValidHasOwner(st, g, base, top, i);
      hide TailsOk, TxsOk, SlotsOk, Shape;
      assert Region(st.txs[t].lo, st.txs[t].hi) in rs;
    }
  }

  lemma SegmentRestores(st: St, g: nat)
    requires Owned(st) && OldOk(st)
    ensures forall r | r in Regions(st, g) :: r.lo < r.hi <= |st.pslots| && Restores(st.pslots, g, r, st.spec)
  {
    forall r | r in Regions(st, g) ensures r.lo < r.hi <= |st.pslots| && Restores(st.pslots, g, r, st.spec) {
      var t := RegionOf(st, g, r);
      RegionRestores(st, t);
      hide TailsOk, TxsOk, SlotsOk, Shape, Regions, Restores;
    }
  }

  lemma SegmentTop(st: St, g: nat, base: nat, top: nat)
    requires Owned(st) && Segment(st, g, base, top)
    ensures base <= top <= |st.vslots| && forall r | r in Regions(st, g) :: r.lo < r.hi <= top
  {
    assert TailIn(st.tails[st.pt], st.head, |st.vslots|, st.g0);
    forall r | r in Regions(st, g) ensures r.lo < r.hi <= top {
      var t := RegionOf(st, g, r);
      TxInSegment(st, g, base, top, t);
    }
  }

  /** An address whose data may be wrong is covered by an open transaction recovery will find. */
  lemma BusyIsCovered(st: St, a: nat, t: nat, g: nat, base: nat, top: nat)
    requires Owned(st) && a < |st.mem| && Open(st, t) && Guarded(st, t, a) && g == st.txs[t].gen
    requires Segment(st, g, base, top) && base <= top <= |st.vslots|
    requires forall r | r in Regions(st, g) :: r.lo < r.hi <= top
    ensures OpenCover(st.pslots, g, Regions(st, g), top, |st.spec|, a)
  {
    var x := st.txs[t];
    var r := Region(x.lo, x.hi);
    assert TxShape(x, |st.vslots|) && TxOk(st, x) && EntriesOk(st.vslots, x) && Durable(st, x);
    StartDurable(st, t);
    ClosedIsNotOpen(st, t);
    assert x.fenced > 0;
    assert r in Regions(st, g);
    hide TailsOk, TxsOk, TxOk, SlotsOk, Open, Closed, Started, Regions, First;
    GuardedFirst(st, t, st.pslots, x.hi, a);
  }

  // ---------------------------------------------------------------- the crash theorem

  /** What a fresh mount recovers from the durable state. */
  function Recovered(st: St): seq<Byte>
    requires Shape(st) && Recoverable(st)
  {
    Recover(st.pslots, st.head, st.tails[st.pt].tail, st.tails[st.pt].gen, st.pm)
  }

  predicate Recoverable(st: St)
    requires Shape(st)
  {
    var p := st.tails[st.pt];
    p.tail <= |st.pslots| && (p.tail < st.head ==> p.gen > 0)
  }

  lemma AlwaysRecoverable(st: St)
    requires Owned(st)
    ensures Recoverable(st)
    ensures var p := st.tails[st.pt];
            if st.head <= p.tail then p.gen == st.g0 && Segment(st, st.g0, st.head, p.tail)
            else p.gen == st.g0 + 1 && Segment(st, st.g0, st.head, |st.vslots|) && Segment(st, st.g0 + 1, 0, p.tail)
  {
    assert TailIn(st.tails[st.pt], st.head, |st.vslots|, st.g0);
  }

  lemma RegionsFit(st: St, g: nat)
    requires Shape(st)
    ensures forall r | r in Regions(st, g) :: r.lo < r.hi <= |st.pslots|
  {
    forall r | r in Regions(st, g) ensures r.lo < r.hi <= |st.pslots| {
      var t := RegionOf(st, g, r);
      assert TxShape(st.txs[t], |st.vslots|);
    }
  }

  /** The addresses an open transaction of generation `g` below `top` may have changed. */
  ghost function CoveredIn(st: St, g: nat, top: nat): iset<nat>
    requires Shape(st)
  {
    RegionsFit(st, g);
    iset a: nat | OpenCover(st.pslots, g, Regions(st, g), top, |st.spec|, a)
  }

  /** Recovering one segment repairs every byte but those only the other segment can repair. */
  lemma SegmentRecovers(st: St, g: nat, base: nat, top: nat, mem: seq<Byte>, exc: iset<nat>)
    requires Owned(st) && OldOk(st) && Segment(st, g, base, top) && |mem| == |st.spec|
    requires forall a: nat | a < |mem| :: mem[a] == st.spec[a] || a in exc || a in CoveredIn(st, g, top)
    ensures base <= top <= |st.pslots|
    ensures forall a: nat | a < |mem| :: Walk(st.pslots, g, base, top, mem)[a] == st.spec[a] || a in exc
  {
    SegmentTop(st, g, base, top);
    SegmentLayout(st, g, base, top);
    SegmentRestores(st, g);
    var rs := Regions(st, g);
    assert Clean(st.pslots, g, rs, top);
    assert Pending(st.pslots, g, rs, top, mem, st.spec, exc);
    hide *;
    WalkCorrect(st.pslots, g, base, top, rs, top, mem, st.spec, exc);
  }

  lemma WrongIsCovered(st: St, a: nat)
    requires Inv(st) && a < |st.mem| && st.pm[a] != st.spec[a]
    ensures var p := st.tails[st.pt];
            if st.head <= p.tail then a in CoveredIn(st, st.g0, p.tail)
            else a in CoveredIn(st, st.g0, |st.vslots|) || a in CoveredIn(st, st.g0 + 1, p.tail)
  {
    InvParts(st);
    AlwaysRecoverable(st);
    var p := st.tails[st.pt];
    assert Busy(st, a) by {
      if !Busy(st, a) { CurrentAt(st, a); }
    }
    var t: nat :| Open(st, t) && Guarded(st, t, a);
    assert TxOk(st, st.txs[t]) && st.txs[t].fenced > 0;
    assert Before(st.tails[st.txs[t].ti], p.gen, p.tail);
    var g := st.txs[t].gen;
    hide Inv, TailsOk, TxsOk, SlotsOk, CurrentOk, OldOk, DisjointOk, ClosingOk, Open, Guarded, OpenCover;
    if g == st.g0 {
      var top := if st.head <= p.tail then p.tail else |st.vslots|;
      SegmentTop(st, g, st.head, top);
      BusyIsCovered(st, a, t, g, st.head, top);
    } else {
      SegmentTop(st, g, 0, p.tail);
      BusyIsCovered(st, a, t, g, 0, p.tail);
    }
  }

  /**
   A crash at any moment, with any set of evicted lines, followed by recovery leaves exactly the
   effects of the transactions whose commit entry became durable.
   */
  lemma CrashAtomic(st: St)
    requires Inv(st)
    ensures Recoverable(st) && Recovered(st) == st.spec
  {
    InvParts(st);
    AlwaysRecoverable(st);
    var p := st.tails[st.pt];
    var n := |st.vslots|;
    forall a: nat | a < |st.mem| && st.pm[a] != st.spec[a]
      ensures if st.head <= p.tail then a in CoveredIn(st, st.g0, p.tail)
              else a in CoveredIn(st, st.g0, n) || a in CoveredIn(st, st.g0 + 1, p.tail)
    {
      WrongIsCovered(st, a);
    }
    hide Inv, TailsOk, TxsOk, SlotsOk, CurrentOk, OldOk, DisjointOk, ClosingOk, CoveredIn, Walk;
    if st.head <= p.tail {
      SegmentRecovers(st, st.g0, st.head, p.tail, st.pm, iset{});
    } else {
      SegmentRecovers(st, st.g0 + 1, 0, p.tail, st.pm, CoveredIn(st, st.g0, n));
      SegmentRecovers(st, st.g0, st.head, n, Walk(st.pslots, st.g0 + 1, 0, p.tail, st.pm), iset{});
    }
  }

  /** A byte logged by an open transaction is recovered to the oldest value in its log. */
  lemma OpenRolledBack(st: St, t: nat, a: nat)
    requires Inv(st) && Open(st, t) && Guarded(st, t, a)
    ensures var x := st.txs[t];
            var f := First(st.vslots, x.gen, x.lo, x.lo + x.used, |st.mem|, a);
            f < x.lo + x.used && Recoverable(st) && Recovered(st)[a] == st.vslots[f].data[a - st.vslots[f].addr]
  {
    CrashAtomic(st);
    assert EntriesOk(st.vslots, st.txs[t]) && OldValues(st, st.txs[t]);
    hide Inv, First, Open, Recovered, Guarded, EntriesOk, OldValues, Cov, Covers;
    OldestIsSpec(st, t, a);
  }

  lemma ClosedNotBusy(st: St, t: nat, a: nat)
    requires Shape(st) && DisjointOk(st) && t < |st.txs| && st.txs[t].Active() && !Open(st, t) && Guarded(st, t, a)
    ensures !Busy(st, a)
  {
    GuardedLogged(st, t, a);
    forall j: nat | Open(st, j) && Guarded(st, j, a) ensures false {
      GuardedLogged(st, j, a);
      hide Logged, Guarded, Shape;
      assert false;
    }
  }

  /** Once its commit entry is durable, a transaction's data are what recovery produces. */
  lemma CommitSurvives(st: St, t: nat, a: nat)
    requires Inv(st) && Enabled(st, CommitFence(t)) && Guarded(st, t, a)
    ensures Recoverable(st) && Recovered(st)[a] == st.mem[a]
  {
    CrashAtomic(st);
    hide TailsOk, TxsOk, SlotsOk, OldOk, CurrentOk, ClosingOk, DisjointOk, Recovered;
    ClosedNotBusy(st, t, a);
    CurrentAt(st, a);
  }

  /** With no transaction open, a crash loses nothing. */
  lemma NothingLost(st: St)
    requires Inv(st) && forall t: nat :: !Open(st, t)
    ensures Recoverable(st) && Recovered(st) == st.mem
  {
    CrashAtomic(st);
  }

  // ---------------------------------------------------------------- recovery is cut short

  /** What is durable between two attempts at recovery; the tail does not change. */
  datatype Disk = Disk(head: nat, gen: nat, data: seq<Byte>)

  predicate Mountable(slots: seq<Slot>, tail: nat, d: Disk) {
    d.head <= |slots| && tail <= |slots| && (tail < d.head ==> d.gen > 0)
  }

  function Mounted(slots: seq<Slot>, tail: nat, d: Disk): seq<Byte>
    requires Mountable(slots, tail, d)
  {
    Recover(slots, d.head, tail, d.gen, d.data)
  }

  /** Recovery from `d` is stopped at `e`: during the undo, after the generation store, or done. */
  ghost predicate Interrupted(slots: seq<Slot>, tail: nat, d: Disk, e: Disk) {
    Mountable(slots, tail, d) && |e.data| == |d.data| &&
    ((e.head == d.head && e.gen == d.gen &&
      forall a | 0 <= a < |d.data| :: RecoverTouched(slots, d.head, tail, d.gen, |d.data|, a) || e.data[a] == d.data[a])
     || (e == Disk(d.head, d.gen + 1, Mounted(slots, tail, d)))
     || (e == Disk(tail, d.gen + 1, Mounted(slots, tail, d))))
  }

  /** Either the undo is still to be finished, or the data are final and nothing looks valid. */
  ghost predicate OnTheWay(st: St, d: Disk)
    requires Shape(st)
  {
    var p := st.tails[st.pt];
    Recoverable(st) && |d.data| == |st.spec| &&
    ((d.head == st.head && d.gen == p.gen &&
      forall a | 0 <= a < |st.pm| :: RecoverTouched(st.pslots, st.head, p.tail, p.gen, |st.pm|, a) || d.data[a] == st.pm[a])
     || ((d.head == st.head || d.head == p.tail) && d.gen > p.gen && d.data == st.spec))
  }

  lemma {:induction false} TouchedNothing(slots: seq<Slot>, g: nat, base: nat, k: nat, len: nat, a: nat)
    requires base <= k <= |slots| && forall i :: base <= i < k ==> !Valid(slots, g, i)
    ensures !Touched(slots, g, base, k, len, a)
    decreases k
  {
    if k > base {
      TouchedNothing(slots, g, base, k - 1, len, a);
    }
  }

  lemma GensBelow(st: St, i: nat)
    requires Owned(st) && i < |st.pslots|
    ensures st.pslots[i].gen <= SegGen(st, i)
  {
    assert SlotOk(st, i);
  }

  /** After the generation store recovery finds no valid entry. */
  lemma BumpedNothing(st: St, d: Disk)
    requires Owned(st) && Recoverable(st)
    requires var p := st.tails[st.pt]; d.gen > p.gen && (d.head == st.head || d.head == p.tail) && |d.data| == |st.pm|
    ensures var p := st.tails[st.pt];
            && Mountable(st.pslots, p.tail, d)
            && Mounted(st.pslots, p.tail, d) == d.data
            && forall a | 0 <= a < |d.data| :: !RecoverTouched(st.pslots, d.head, p.tail, d.gen, |d.data|, a)
  {
    var p := st.tails[st.pt];
    var n := |st.pslots|;
    AlwaysRecoverable(st);
    forall i: nat | i < n ensures st.pslots[i].gen <= SegGen(st, i) { GensBelow(st, i); }
    hide TailsOk, TxsOk, SlotsOk, Shape, Walk, Touched;
    if d.head <= p.tail {
      WalkNothing(st.pslots, d.gen, d.head, p.tail, d.data);
      forall a | 0 <= a < |d.data| ensures !RecoverTouched(st.pslots, d.head, p.tail, d.gen, |d.data|, a) {
        TouchedNothing(st.pslots, d.gen, d.head, p.tail, |d.data|, a);
      }
    } else {
      WalkNothing(st.pslots, d.gen, 0, p.tail, d.data);
      WalkNothing(st.pslots, d.gen - 1, d.head, n, d.data);
      forall a | 0 <= a < |d.data| ensures !RecoverTouched(st.pslots, d.head, p.tail, d.gen, |d.data|, a) {
        TouchedNothing(st.pslots, d.gen, 0, p.tail, |d.data|, a);
        TouchedNothing(st.pslots, d.gen - 1, d.head, n, |d.data|, a);
      }
    }
  }

  lemma OnTheWayMounts(st: St, d: Disk)
    requires Inv(st) && OnTheWay(st, d)
    ensures var p := st.tails[st.pt]; Mountable(st.pslots, p.tail, d) && Mounted(st.pslots, p.tail, d) == st.spec
  {
    InvParts(st);
    CrashAtomic(st);
    hide Inv, DataOk, TailsOk, TxsOk, SlotsOk;
    var p := st.tails[st.pt];
    if d.gen > p.gen {
      BumpedNothing(st, d);
    } else {
      RecoverAgain(st.pslots, st.head, p.tail, p.gen, st.pm, d.data);
    }
  }

  lemma InterruptedOnTheWay(st: St, d: Disk, e: Disk)
    requires Inv(st) && OnTheWay(st, d) && Interrupted(st.pslots, st.tails[st.pt].tail, d, e)
    ensures OnTheWay(st, e)
  {
    OnTheWayMounts(st, d);
    InvParts(st);
    hide Inv, DataOk, TailsOk, TxsOk, SlotsOk, Mounted, RecoverTouched;
    if d.gen > st.tails[st.pt].gen {
      BumpedNothing(st, d);
      if e.gen == d.gen { assert e.data == d.data; }
    }
  }

  /** A sequence of attempts at recovery, the first of which finds what the crash left. */
  ghost predicate Attempts(st: St, ds: seq<Disk>)
    requires Shape(st)
  {
    && ds != [] && ds[0] == Disk(st.head, st.tails[st.pt].gen, st.pm)
    && forall i :: 0 <= i < |ds| - 1 ==> Interrupted(st.pslots, st.tails[st.pt].tail, ds[i], ds[i + 1])
  }

  lemma {:induction false} AttemptsOnTheWay(st: St, ds: seq<Disk>, i: nat)
    requires Inv(st) && Attempts(st, ds) && i < |ds|
    ensures OnTheWay(st, ds[i])
  {
    if i == 0 {
      CrashAtomic(st);
    } else {
      AttemptsOnTheWay(st, ds, i - 1);
      hide Inv, OnTheWay, Interrupted;
      InterruptedOnTheWay(st, ds[i - 1], ds[i]);
    }
  }

  /**
   However often recovery is itself cut short by a crash, the next attempt reaches the same data;
   and once an attempt has finished, no entry in the ring carries the generation it would be
   checked against, so the machine is back in an initial state.
   */
  lemma RecoveryRestarts(st: St, ds: seq<Disk>)
    requires Inv(st) && Attempts(st, ds)
    ensures forall i :: 0 <= i < |ds| ==>
              Mountable(st.pslots, st.tails[st.pt].tail, ds[i]) && Mounted(st.pslots, st.tails[st.pt].tail, ds[i]) == st.spec
    ensures var d := ds[|ds| - 1];
            d.gen > st.tails[st.pt].gen ==> d.data == st.spec && Quiet(st.pslots, st.tails[st.pt].tail, d.gen)
  {
    forall i: nat | i < |ds|
      ensures Mountable(st.pslots, st.tails[st.pt].tail, ds[i]) && Mounted(st.pslots, st.tails[st.pt].tail, ds[i]) == st.spec
    {
      AttemptsOnTheWay(st, ds, i);
      OnTheWayMounts(st, ds[i]);
    }
    var d := ds[|ds| - 1];
    if d.gen > st.tails[st.pt].gen {
      AttemptsOnTheWay(st, ds, |ds| - 1);
      InvParts(st);
      AlwaysRecoverable(st);
      forall i: nat | i < |st.pslots| ensures st.pslots[i].gen <= SegGen(st, i) { GensBelow(st, i); }
      assert TailIn(st.tails[st.pt], st.head, |st.vslots|, st.g0);
    }
  }

  // ---------------------------------------------------------------- every run, every crash

  ghost predicate Run(st: St, steps: seq<Step>, u: St)
    requires Inv(st)
    decreases |steps|
  {
    if steps == [] then u == st
    else Enabled(st, steps[0]) && (StepKeeps(st, steps[0]); Run(Apply(st, steps[0]), steps[1..], u))
  }

  lemma {:induction false} RunKeeps(st: St, steps: seq<Step>, u: St)
    requires Inv(st) && Run(st, steps, u)
    ensures Inv(u)
    decreases |steps|
  {
    hide TailsOk, TxsOk, SlotsOk, OldOk, CurrentOk, ClosingOk, DisjointOk, Apply, Enabled;
    if steps != [] {
      StepKeeps(st, steps[0]);
      RunKeeps(Apply(st, steps[0]), steps[1..], u);
    }
  }

  /** One boot: a run that ends in the state `crash`, and the attempts at recovering from it. */
  datatype Boot = Boot(steps: seq<Step>, crash: St, attempts: seq<Disk>)

  /** The journal as a finished recovery leaves it. */
  function Next(b: Boot): St
    requires Shape(b.crash) && b.attempts != []
  {
    var d := b.attempts[|b.attempts| - 1];
    Init(b.crash.pslots, b.crash.tails[b.crash.pt].tail, d.gen, d.data)
  }

  /** `boots` is a history of runs, crashes and recoveries that starts with the journal `st`. */
  ghost predicate History(st: St, boots: seq<Boot>)
    decreases |boots|
  {
    boots != [] ==>
      var b := boots[0];
      && Inv(st) && Run(st, b.steps, b.crash)
      && Shape(b.crash) && Attempts(b.crash, b.attempts)
      && (|boots| > 1 ==> b.attempts[|b.attempts| - 1].gen > b.crash.tails[b.crash.pt].gen && History(Next(b), boots[1..]))
  }

  /** In every history each attempt at recovery yields exactly what was committed before that crash. */
  lemma {:induction false} EveryCrashAtomic(st: St, boots: seq<Boot>, i: nat, j: nat)
    requires Inv(st) && History(st, boots) && i < |boots| && j < |boots[i].attempts|
    ensures var b := boots[i];
            && Inv(b.crash) && Mountable(b.crash.pslots, b.crash.tails[b.crash.pt].tail, b.attempts[j])
            && Mounted(b.crash.pslots, b.crash.tails[b.crash.pt].tail, b.attempts[j]) == b.crash.spec
    ensures i + 1 < |boots| ==> Next(boots[i]).mem == Next(boots[i]).spec == boots[i].crash.spec
    decreases |boots|
  {
    var b := boots[0];
    hide Run, Mounted, Attempts, Quiet;
    RunKeeps(st, b.steps, b.crash);
    assert b.attempts != [] by { AttemptsSome(b.crash, b.attempts); }
    RecoveryRestarts(b.crash, b.attempts);
    if i > 0 {
      var d := b.attempts[|b.attempts| - 1];
      InitInv(b.crash.pslots, b.crash.tails[b.crash.pt].tail, d.gen, d.data);
      hide Inv, Init;
      EveryCrashAtomic(Next(b), boots[1..], i - 1, j);
    }
  }

  lemma AttemptsSome(st: St, ds: seq<Disk>)
    requires Shape(st) && Attempts(st, ds)
    ensures ds != []
  {
  }
}
