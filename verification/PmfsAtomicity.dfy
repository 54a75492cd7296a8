/** Every step of the PMFS journal keeps its invariant, and recovery after a crash is exact. */
module PmfsAtomicity {
  import opened Common
  import opened PmfsLog
  import opened PmfsCrash

  // ---------------------------------------------------------------- slots and their owners

  /** Two transactions never own a slot in common. */
  lemma OwnersDiffer(st: St, i: nat, j: nat, k: nat)
    requires Shape(st) && TxsOk(st) && i < |st.txs| && j < |st.txs|
    requires st.txs[i].lo <= k < st.txs[i].hi && st.txs[j].lo <= k < st.txs[j].hi
    ensures i == j
  {
    hide TxShape;
    assert TxOk(st, st.txs[i]) && TxOk(st, st.txs[j]);
  }

  lemma OwnerGen(st: St, t: nat, k: nat)
    requires Shape(st) && TxsOk(st) && t < |st.txs| && st.txs[t].lo <= k < st.txs[t].hi
    ensures SegGen(st, k) == st.txs[t].gen
  {
    assert TxOk(st, st.txs[t]);
  }

  /** The next slot of a transaction has not been written in this generation. */
  lemma NextFree(st: St, t: nat)
    requires Shape(st) && TxsOk(st) && SlotsOk(st) && t < |st.txs| && st.txs[t].used < st.txs[t].hi - st.txs[t].lo
    ensures var x := st.txs[t];
            var k := x.lo + x.used;
            SegGen(st, k) == x.gen && st.vslots[k].gen < x.gen && st.pslots[k].gen < x.gen
  {
    var x := st.txs[t];
    var k := x.lo + x.used;
    OwnerGen(st, t, k);
    assert TxShape(x, |st.vslots|);
    assert SlotOk(st, k);
  }

  // ---------------------------------------------------------------- one transaction moves on

  /** Using more entries, or knowing more of them durable, keeps reservations as they are. */
  lemma MovedTxs(st: St, u: St, t: nat)
    requires Shape(st) && TailsOk(st) && TxsOk(st) && t < |st.txs| == |u.txs|
    requires u.head == st.head && u.g0 == st.g0 && |u.vslots| == |u.pslots| == |st.vslots|
    requires |u.mem| == |u.pm| == |u.spec| && u.tails == st.tails && u.pt == st.pt
    requires var x, y := st.txs[t], u.txs[t];
             u.txs == st.txs[t := y] && x.lo == y.lo && x.hi == y.hi && x.gen == y.gen && x.ti == y.ti &&
             TxShape(y, |st.vslots|) && (y.fenced > 0 ==> y.ti <= st.pt)
    ensures Shape(u) && TailsOk(u) && TxsOk(u)
  {
    hide TxShape, Before;
    forall i | 0 <= i < |u.txs| ensures TxOk(u, u.txs[i]) {
      assert TxOk(st, st.txs[i]);
    }
  }

  predicate MayWrite(st: St, t: nat, e: Slot, phase: Phase)
    requires Shape(st)
  {
    && t < |st.txs| && st.txs[t].phase == Running && st.txs[t].used < st.txs[t].hi - st.txs[t].lo
    && (phase == Running || (st.txs[t].used == st.txs[t].fenced && (phase == Committing || phase == Aborting)))
    && (e.Ends() <==> phase != Running) && (e.Ends() ==> e.data == [])
  }

  lemma WriteTxs(st: St, t: nat, e: Slot, phase: Phase)
    requires Shape(st) && TailsOk(st) && TxsOk(st) && MayWrite(st, t, e, phase)
    ensures st.txs[t].lo + st.txs[t].used < |st.vslots|
    ensures var u := WriteSlot(st, t, e, phase); Shape(u) && TailsOk(u) && TxsOk(u)
  {
    assert TxShape(st.txs[t], |st.vslots|) && TxOk(st, st.txs[t]);
    hide TxOk, Before, TailsOk, TxsOk;
    MovedTxs(st, WriteSlot(st, t, e, phase), t);
  }

  lemma WriteEntries(st: St, u: St, t: nat, e: Slot, phase: Phase, i: nat)
    requires Shape(st) && TxsOk(st) && SlotsOk(st) && MayWrite(st, t, e, phase)
    requires st.txs[t].lo + st.txs[t].used < |st.vslots| && u == WriteSlot(st, t, e, phase) && i < |st.txs|
    ensures TxShape(u.txs[i], |st.vslots|)
    ensures EntriesOk(u.vslots, u.txs[i]) && Durable(u, u.txs[i])
  {
    var k := st.txs[t].lo + st.txs[t].used;
    assert TxShape(st.txs[t], |st.vslots|) && TxShape(st.txs[i], |st.vslots|);
    assert EntriesOk(st.vslots, st.txs[i]) && Durable(st, st.txs[i]);
    if i != t && st.txs[i].lo <= k < st.txs[i].hi {
      hide TxsOk, SlotsOk;
      OwnersDiffer(st, t, i, k);
      assert false;
    }
    hide TxsOk, SlotsOk, Shape;
  }

  lemma WrittenKept(st: St, u: St, i: nat)
    requires |st.txs| <= |u.txs|
    requires forall j :: 0 <= j < |st.txs| ==> u.txs[j].lo == st.txs[j].lo && u.txs[j].used >= st.txs[j].used
    ensures Written(st, i) ==> Written(u, i)
  {
    if Written(st, i) {
      var j :| 0 <= j < |st.txs| && st.txs[j].lo <= i < st.txs[j].lo + st.txs[j].used;
      assert u.txs[j].lo <= i < u.txs[j].lo + u.txs[j].used;
    }
  }

  lemma WriteSlotOk(st: St, u: St, t: nat, e: Slot, phase: Phase, i: nat)
    requires Shape(st) && TxsOk(st) && SlotsOk(st) && MayWrite(st, t, e, phase)
    requires st.txs[t].lo + st.txs[t].used < |st.vslots| && u == WriteSlot(st, t, e, phase) && i < |st.vslots|
    ensures SlotOk(u, i)
  {
    NextFree(st, t);
    assert SlotOk(st, i);
    hide TxsOk, TxOk, SlotsOk, TxShape, MayWrite, EntriesOk, Durable;
    var k := st.txs[t].lo + st.txs[t].used;
    if i == k {
      assert u.txs[t].lo <= i < u.txs[t].lo + u.txs[t].used;
    } else {
      hide Shape;
      WrittenKept(st, u, i);
    }
  }

  lemma WriteSlots(st: St, t: nat, e: Slot, phase: Phase)
    requires Shape(st) && TailsOk(st) && TxsOk(st) && SlotsOk(st) && MayWrite(st, t, e, phase)
    ensures st.txs[t].lo + st.txs[t].used < |st.vslots|
    ensures var u := WriteSlot(st, t, e, phase); Shape(u) && SlotsOk(u)
  {
    WriteTxs(st, t, e, phase);
    hide TailsOk, TxsOk, TxOk, EntriesOk, Durable, SlotOk, MayWrite;
    var u := WriteSlot(st, t, e, phase);
    forall i | 0 <= i < |u.txs| ensures EntriesOk(u.vslots, u.txs[i]) && Durable(u, u.txs[i]) {
      WriteEntries(st, u, t, e, phase, i);
    }
    forall i | 0 <= i < |u.vslots| ensures SlotOk(u, i) {
      WriteSlotOk(st, u, t, e, phase, i);
    }
  }

  // ---------------------------------------------------------------- fences

  /** What a fence of transaction `t` learns: all its entries are durable. */
  predicate MayFence(st: St, t: nat, phase: Phase)
    requires Shape(st)
  {
    && t < |st.txs| && st.pt >= st.txs[t].ti
    && match st.txs[t].phase {
         case Running => phase == Running
         case Committing => phase == Committed && !TopMissing(st, t)
         case Aborting => phase == Aborted && !TopMissing(st, t)
         case _ => false
       }
  }

  function Fence(st: St, t: nat, phase: Phase): St
    requires t < |st.txs|
  {
    st.(txs := st.txs[t := st.txs[t].(fenced := st.txs[t].used, phase := phase)])
  }

  lemma FenceTxs(st: St, t: nat, phase: Phase)
    requires Shape(st) && TailsOk(st) && TxsOk(st) && MayFence(st, t, phase)
    ensures var u := Fence(st, t, phase); Shape(u) && TailsOk(u) && TxsOk(u)
  {
    assert TxShape(st.txs[t], |st.vslots|) && TxOk(st, st.txs[t]);
    hide TxOk, Before, TailsOk, TxsOk;
    MovedTxs(st, Fence(st, t, phase), t);
  }

  lemma FenceEntries(st: St, t: nat, phase: Phase)
    requires Shape(st) && SlotsOk(st) && MayFence(st, t, phase)
    requires st.txs[t].phase == Running ==> forall i | st.txs[t].lo <= i < st.txs[t].lo + st.txs[t].used :: st.pslots[i] == st.vslots[i]
    ensures var y := Fence(st, t, phase).txs[t];
            TxShape(y, |st.vslots|) && EntriesOk(st.vslots, y) && Durable(st, y)
  {
    hide SlotOk;
    var x := st.txs[t];
    assert TxShape(x, |st.vslots|) && EntriesOk(st.vslots, x) && Durable(st, x);
  }

  lemma FenceSlots(st: St, t: nat, phase: Phase)
    requires Shape(st) && TailsOk(st) && TxsOk(st) && SlotsOk(st) && MayFence(st, t, phase)
    requires st.txs[t].phase == Running ==> forall i | st.txs[t].lo <= i < st.txs[t].lo + st.txs[t].used :: st.pslots[i] == st.vslots[i]
    ensures var u := Fence(st, t, phase); Shape(u) && SlotsOk(u)
  {
    FenceTxs(st, t, phase);
    FenceEntries(st, t, phase);
    hide TailsOk, TxsOk, TxOk, EntriesOk, MayFence, TxShape, Durable;
    var u := Fence(st, t, phase);
    forall i: nat | i < |u.txs| ensures EntriesOk(u.vslots, u.txs[i]) && Durable(u, u.txs[i]) {
      assert EntriesOk(st.vslots, st.txs[i]) && Durable(st, st.txs[i]);
      DurableSame(st, u, u.txs[i]);
    }
    forall i | 0 <= i < |u.vslots| ensures SlotOk(u, i) {
      SlotOkSame(st, u, i);
    }
  }

  lemma DurableSame(st: St, u: St, x: Tx)
    requires x.lo + x.fenced <= |st.vslots| == |st.pslots| && u.vslots == st.vslots && u.pslots == st.pslots
    ensures Durable(u, x) == Durable(st, x)
  {
  }

  lemma SlotOkSame(st: St, u: St, i: nat)
    requires i < |st.vslots| == |st.pslots| && u.vslots == st.vslots && u.pslots == st.pslots
    requires |st.txs| <= |u.txs|
    requires forall j :: 0 <= j < |st.txs| ==> u.txs[j].lo == st.txs[j].lo && u.txs[j].used >= st.txs[j].used
    requires u.head == st.head && u.g0 == st.g0 && SlotOk(st, i)
    ensures SlotOk(u, i)
  {
    hide Written;
    WrittenKept(st, u, i);
  }

  // ---------------------------------------------------------------- evictions

  lemma EvictSlotSlots(st: St, i: nat, spec: seq<Byte>)
    requires Shape(st) && SlotsOk(st) && i < |st.vslots| && |spec| == |st.spec|
    ensures var u := st.(pslots := st.pslots[i := st.vslots[i]], spec := spec); Shape(u) && SlotsOk(u)
  {
    hide EntriesOk;
    var u := st.(pslots := st.pslots[i := st.vslots[i]], spec := spec);
    forall j | 0 <= j < |u.vslots| ensures SlotOk(u, j) {
      assert SlotOk(st, j);
      assert Written(u, j) == Written(st, j);
    }
    forall t | 0 <= t < |u.txs| ensures EntriesOk(u.vslots, u.txs[t]) && Durable(u, u.txs[t]) {
      assert TxShape(st.txs[t], |st.vslots|);
      assert EntriesOk(st.vslots, st.txs[t]) && Durable(st, st.txs[t]);
    }
    hide SlotOk;
  }

  // ---------------------------------------------------------------- reservation

  /** A reservation fits between the tail and the head, never wraps, and never reaches a live slot. */
  lemma ReserveFits(n: nat, head: nat, tail: nat, gen: nat, req: nat)
    requires head < n && tail < n && req > 0
    ensures match Reserve(n, head, tail, gen, req)
            case NeedsCleaning => true
            case Reserved(lo, hi, g, wrapped) =>
              && hi == lo + req < n && hi != head
              && (forall i :: lo <= i < hi ==> !LiveSlot(n, head, tail, i))
              && (if wrapped then lo == 0 && head <= tail && hi < head && g == gen + 1
                  else lo == tail && g == gen && (tail < head ==> hi < head))
  {
  }

  lemma TailsSnoc(tails: seq<TailGen>, p: TailGen, head: nat, n: nat, g0: nat)
    requires TailsRise(tails, head, n, g0) && tails != [] && TailIn(p, head, n, g0)
    requires Before(tails[|tails| - 1], p.gen, p.tail)
    ensures TailsRise(tails + [p], head, n, g0)
  {
  }

  /** The tails stored by a reservation, and where the new transaction stands relative to them. */
  lemma NewTails(st: St, req: nat)
    requires Shape(st) && TailsOk(st) && Enabled(st, NewTransaction(req))
    ensures var u := Apply(st, NewTransaction(req));
            Shape(u) && TailsOk(u) && |u.txs| == |st.txs| + 1 && u.txs[..|st.txs|] == st.txs &&
            |st.tails| < |u.tails| && u.tails[..|st.tails|] == st.tails &&
            var x := u.txs[|st.txs|];
            TailsRise(u.tails[..|u.tails| - 1] + [TailGen(x.lo, x.gen)], st.head, |st.vslots|, st.g0) &&
            x.ti == |u.tails| - 1 && u.tails[x.ti] == TailGen(x.hi, x.gen) && x.used == x.fenced == 0 &&
            ((x.gen == st.g0 && st.head <= x.lo) || (x.gen == st.g0 + 1 && x.hi <= st.head))
  {
    var u := Apply(st, NewTransaction(req));
    var last := st.tails[|st.tails| - 1];
    ReserveFits(|st.vslots|, st.head, last.tail, last.gen, req);
    assert TailIn(last, st.head, |st.vslots|, st.g0);
    var x := u.txs[|st.txs|];
    var start := TailGen(x.lo, x.gen);
    var ts := u.tails[..|u.tails| - 1];
    hide Reserve, Avail, Enabled, TailsRise;
    if x.gen != last.gen {
      TailsSnoc(st.tails, start, st.head, |st.vslots|, st.g0);
      assert ts == st.tails + [start];
    } else {
      assert ts == st.tails;
    }
    TailsSnoc(ts, start, st.head, |st.vslots|, st.g0);
    TailsSnoc(ts, TailGen(x.hi, x.gen), st.head, |st.vslots|, st.g0);
    assert u.tails == ts + [TailGen(x.hi, x.gen)];
  }

  lemma NewTxs(st: St, req: nat)
    requires Shape(st) && TailsOk(st) && TxsOk(st) && Enabled(st, NewTransaction(req))
    ensures var u := Apply(st, NewTransaction(req)); Shape(u) && TailsOk(u) && TxsOk(u)
  {
    NewTails(st, req);
    var u := Apply(st, NewTransaction(req));
    assert u.head == st.head && u.g0 == st.g0 && u.pt == st.pt;
    var x := u.txs[|st.txs|];
    hide Enabled, Reserve, Avail, Apply;
    var ts := u.tails[..|u.tails| - 1] + [TailGen(x.lo, x.gen)];
    assert forall p :: 0 <= p < x.ti ==> ts[p] == u.tails[p] && Before(ts[p], x.gen, x.lo);
    assert TxOk(u, x);
    hide TailsRise;
    forall i: nat | i < |st.txs| ensures TxOk(u, st.txs[i]) && (st.txs[i].gen < x.gen || st.txs[i].hi <= x.lo) {
      assert TxOk(st, st.txs[i]);
      assert forall p :: 0 <= p < |st.tails| ==> st.tails[p] == u.tails[p];
    }
    assert forall i :: 0 <= i < |st.txs| ==> u.txs[i] == st.txs[i];
    hide TxOk, Before, Shape, TailsOk;
  }

  // ---------------------------------------------------------------- data: writing an entry

  ghost predicate DataOk(st: St)
    requires Shape(st)
  {
    OldOk(st) && CurrentOk(st) && ClosingOk(st) && DisjointOk(st)
  }

  ghost predicate Owned(st: St) {
    Shape(st) && TailsOk(st) && TxsOk(st) && SlotsOk(st)
  }

  lemma CovSame(s: seq<Slot>, t: seq<Slot>, lo: nat, hi: nat, len: nat, a: nat)
    requires hi <= |s| && hi <= |t| && forall i :: lo <= i < hi ==> s[i] == t[i]
    ensures Cov(s, lo, hi, len, a) == Cov(t, lo, hi, len, a)
  {
  }

  lemma WriteElsewhere(st: St, t: nat, e: Slot, phase: Phase, j: nat)
    requires Owned(st) && MayWrite(st, t, e, phase) && j < |st.txs| && j != t
    ensures st.txs[t].lo + st.txs[t].used < |st.vslots| && TxShape(st.txs[j], |st.vslots|)
    ensures !(st.txs[j].lo <= st.txs[t].lo + st.txs[t].used < st.txs[j].hi)
  {
    assert TxShape(st.txs[t], |st.vslots|) && TxShape(st.txs[j], |st.vslots|);
    var k := st.txs[t].lo + st.txs[t].used;
    if st.txs[j].lo <= k < st.txs[j].hi {
      hide TailsOk, TxsOk, SlotsOk;
      OwnersDiffer(st, t, j, k);
      assert false;
    }
  }

  /** Writing an entry changes what its own transaction has logged, and nothing else. */
  lemma WriteLogged(st: St, u: St, t: nat, e: Slot, phase: Phase, j: nat, a: nat)
    requires Owned(st) && MayWrite(st, t, e, phase) && j < |st.txs|
    requires st.txs[t].lo + st.txs[t].used < |st.vslots| && u == WriteSlot(st, t, e, phase) && Shape(u)
    ensures Guarded(u, j, a) == Guarded(st, j, a)
    ensures j != t ==> Logged(u, j, a) == Logged(st, j, a)
  {
    var k := st.txs[t].lo + st.txs[t].used;
    assert TxShape(st.txs[j], |st.vslots|);
    if j != t { WriteElsewhere(st, t, e, phase, j); }
    hide Covers, Cov, TxShape, TailsOk, TxsOk, SlotsOk, MayWrite;
    var y := st.txs[j];
    CovSame(st.vslots, u.vslots, y.lo, y.lo + y.fenced, |st.mem|, a);
    if j != t { CovSame(st.vslots, u.vslots, y.lo, y.lo + y.used, |st.mem|, a); }
  }

  lemma WriteLoggedHere(st: St, u: St, t: nat, e: Slot, phase: Phase, a: nat)
    requires Shape(st) && MayWrite(st, t, e, phase)
    requires st.txs[t].lo + st.txs[t].used < |st.vslots| && u == WriteSlot(st, t, e, phase) && Shape(u)
    ensures Logged(u, t, a) ==> Logged(st, t, a) || Covers(e, |st.mem|, a)
  {
    var x, k := st.txs[t], st.txs[t].lo + st.txs[t].used;
    if Logged(u, t, a) {
      var i: nat :| x.lo <= i < k + 1 && Covers(u.vslots[i], |st.mem|, a);
      if i < k { assert Covers(st.vslots[i], |st.mem|, a); }
    }
  }

  lemma WriteOpen(st: St, u: St, t: nat, e: Slot, phase: Phase, j: nat)
    requires Owned(st) && MayWrite(st, t, e, phase) && j < |st.txs|
    requires st.txs[t].lo + st.txs[t].used < |st.vslots| && u == WriteSlot(st, t, e, phase) && Shape(u)
    ensures Open(u, j) == Open(st, j)
  {
    if j == t {
      NextFree(st, t);
    } else {
      WriteElsewhere(st, t, e, phase, j);
    }
    assert TxShape(st.txs[j], |st.vslots|);
    hide TailsOk, TxsOk, SlotsOk, Shape;
  }

  /** A logged byte that nobody else has logged and that is not guarded is still as specified. */
  lemma NotBusy(st: St, t: nat, a: nat)
    requires Shape(st) && CurrentOk(st) && t < |st.txs| && a < |st.mem|
    requires !Taken(st, t, a) && !Guarded(st, t, a)
    ensures st.mem[a] == st.spec[a]
  {
    if Busy(st, a) {
      var j: nat :| Open(st, j) && Guarded(st, j, a);
      assert TxShape(st.txs[j], |st.vslots|);
      assert st.txs[j].Active() && Logged(st, j, a);
    }
  }

  /** What is written for a byte not logged durably before is its specified value. */
  ghost predicate LogsSpec(st: St, t: nat, e: Slot)
    requires Shape(st) && t < |st.txs|
  {
    forall a: nat | Covers(e, |st.mem|, a) && !Guarded(st, t, a) :: e.data[a - e.addr] == st.spec[a]
  }

  /** Old values stay old when the slots of a transaction do not change. */
  lemma OldSame(st: St, u: St, x: Tx, y: Tx, hi: nat)
    requires Shape(st) && Shape(u) && TxShape(x, |st.vslots|) && TxShape(y, |u.vslots|) && OldValues(st, x)
    requires u.spec == st.spec && |u.mem| == |st.mem| && |u.vslots| == |st.vslots|
    requires y.lo == x.lo && y.fenced == x.fenced && x.lo + x.used <= hi <= |st.vslots|
    requires forall i :: x.lo <= i < x.lo + x.used ==> u.vslots[i] == st.vslots[i]
    ensures forall i: nat, a: nat | y.lo <= i < x.lo + x.used && Covers(u.vslots[i], |u.mem|, a)
                                    && !Cov(u.vslots, y.lo, Min(i, y.lo + y.fenced), |u.mem|, a) ::
              u.vslots[i].data[a - u.vslots[i].addr] == u.spec[a]
  {
    hide TxShape;
    forall i: nat, a: nat | y.lo <= i < x.lo + x.used && Covers(u.vslots[i], |u.mem|, a)
                            && !Cov(u.vslots, y.lo, Min(i, y.lo + y.fenced), |u.mem|, a)
      ensures u.vslots[i].data[a - u.vslots[i].addr] == u.spec[a]
    {
      CovSame(st.vslots, u.vslots, x.lo, Min(i, x.lo + x.fenced), |st.mem|, a);
    }
  }

  lemma WriteOld(st: St, u: St, t: nat, e: Slot, phase: Phase, j: nat)
    requires Owned(st) && MayWrite(st, t, e, phase) && OldOk(st) && LogsSpec(st, t, e) && j < |st.txs|
    requires st.txs[t].lo + st.txs[t].used < |st.vslots| && u == WriteSlot(st, t, e, phase) && Shape(u)
    requires Open(u, j)
    ensures TxShape(u.txs[j], |u.vslots|) && OldValues(u, u.txs[j])
  {
    WriteOpen(st, u, t, e, phase, j);
    assert TxShape(st.txs[j], |st.vslots|) && TxShape(u.txs[j], |st.vslots|);
    assert OldValues(st, st.txs[j]);
    var k := st.txs[t].lo + st.txs[t].used;
    var x := st.txs[j];
    hide TailsOk, TxsOk, SlotsOk, OldOk, Owned, Open;
    if j != t {
      WriteElsewhere(st, t, e, phase, j);
      hide MayWrite, OldValues, Covers, Cov, LogsSpec;
      OldSame(st, u, x, u.txs[j], x.lo + x.used);
      hide *;
    } else {
      OldSame(st, u, x, u.txs[j], k);
      hide Shape, TxShape, OldValues;
      forall a: nat | Covers(u.vslots[k], |u.mem|, a) && !Cov(u.vslots, x.lo, Min(k, x.lo + x.fenced), |u.mem|, a)
        ensures u.vslots[k].data[a - u.vslots[k].addr] == u.spec[a]
      {
        CovSame(st.vslots, u.vslots, x.lo, x.lo + x.fenced, |st.mem|, a);
      }
      hide *;
    }
    OldPut(u, j);
  }

  lemma OldPut(u: St, j: nat)
    requires Shape(u) && j < |u.txs|
    requires var x := u.txs[j];
             x.lo + x.used <= |u.vslots| && forall i: nat, a: nat | x.lo <= i < x.lo + x.used && Covers(u.vslots[i], |u.mem|, a)
                            && !Cov(u.vslots, x.lo, Min(i, x.lo + x.fenced), |u.mem|, a) ::
             u.vslots[i].data[a - u.vslots[i].addr] == u.spec[a]
    ensures TxShape(u.txs[j], |u.vslots|) && OldValues(u, u.txs[j])
  {
  }

  lemma WriteDisjoint(st: St, u: St, t: nat, e: Slot, phase: Phase)
    requires Owned(st) && MayWrite(st, t, e, phase) && DisjointOk(st)
    requires st.txs[t].lo + st.txs[t].used < |st.vslots| && u == WriteSlot(st, t, e, phase) && Shape(u)
    requires forall a: nat | Covers(e, |st.mem|, a) :: !Taken(st, t, a)
    ensures DisjointOk(u)
  {
    forall i: nat, j: nat, a | i < |u.txs| && j < |u.txs| && i != j && u.txs[i].Active() && u.txs[j].Active()
                               && Logged(u, i, a) && Logged(u, j, a)
      ensures false
    {
      assert st.txs[t].Active();
      WriteLogged(st, u, t, e, phase, i, a);
      WriteLogged(st, u, t, e, phase, j, a);
      WriteLoggedHere(st, u, t, e, phase, a);
      hide Owned, MayWrite, Covers, Logged, Shape;
      assert false;
    }
  }

  lemma WriteCurrent(st: St, u: St, t: nat, e: Slot, phase: Phase)
    requires Owned(st) && MayWrite(st, t, e, phase) && CurrentOk(st)
    requires st.txs[t].lo + st.txs[t].used < |st.vslots| && u == WriteSlot(st, t, e, phase) && Shape(u)
    ensures CurrentOk(u)
  {
    forall a: nat | a < |u.mem| && Busy(st, a) ensures Busy(u, a) {
      var j: nat :| Open(st, j) && Guarded(st, j, a);
      WriteOpen(st, u, t, e, phase, j);
      WriteLogged(st, u, t, e, phase, j, a);
      hide Open, Guarded, Shape, Owned, MayWrite;
      assert Open(u, j) && Guarded(u, j, a);
    }
    hide Busy;
  }

  lemma WriteClosing(st: St, u: St, t: nat, e: Slot, phase: Phase)
    requires Owned(st) && MayWrite(st, t, e, phase) && ClosingOk(st)
    requires st.txs[t].lo + st.txs[t].used < |st.vslots| && u == WriteSlot(st, t, e, phase) && Shape(u)
    requires phase != Running ==> forall a | 0 <= a < |st.mem| && Guarded(st, t, a) ::
               st.pm[a] == st.mem[a] && (phase == Aborting ==> st.mem[a] == st.spec[a])
    ensures ClosingOk(u)
  {
    forall j: nat, a | j < |u.txs| && (u.txs[j].phase == Committing || u.txs[j].phase == Aborting) && Guarded(u, j, a)
      ensures u.pm[a] == u.mem[a] && (u.txs[j].phase == Aborting ==> u.mem[a] == u.spec[a])
    {
      WriteLogged(st, u, t, e, phase, j, a);
      hide Guarded, Shape, Owned, MayWrite;
    }
  }

  lemma WriteData(st: St, t: nat, e: Slot, phase: Phase)
    requires Owned(st) && DataOk(st) && MayWrite(st, t, e, phase) && LogsSpec(st, t, e)
    requires forall a: nat | Covers(e, |st.mem|, a) :: !Taken(st, t, a)
    requires phase != Running ==> forall a | 0 <= a < |st.mem| && Guarded(st, t, a) ::
               st.pm[a] == st.mem[a] && (phase == Aborting ==> st.mem[a] == st.spec[a])
    ensures st.txs[t].lo + st.txs[t].used < |st.vslots|
    ensures Owned(WriteSlot(st, t, e, phase)) && DataOk(WriteSlot(st, t, e, phase))
  {
    WriteTxs(st, t, e, phase);
    WriteSlots(st, t, e, phase);
    var u := WriteSlot(st, t, e, phase);
    hide TailsOk, TxsOk, SlotsOk, CurrentOk, ClosingOk, DisjointOk, Guarded, Logged, Covers, TxShape, MayWrite, WriteSlot, LogsSpec;
    forall j: nat | j < |u.txs| && Open(u, j) ensures OldValues(u, u.txs[j]) {
      hide OldValues, Open, Shape, Owned, OldOk;
      WriteOld(st, u, t, e, phase, j);
    }
    assert OldOk(u);
    hide OldOk;
    WriteDisjoint(st, u, t, e, phase);
    WriteCurrent(st, u, t, e, phase);
    WriteClosing(st, u, t, e, phase);
  }

  // ---------------------------------------------------------------- data: fences

  lemma CovWider(s: seq<Slot>, lo: nat, hi: nat, hi': nat, len: nat, a: nat)
    requires hi <= hi' <= |s|
    ensures Cov(s, lo, hi, len, a) ==> Cov(s, lo, hi', len, a)
  {
  }

  lemma FenceLogged(st: St, u: St, t: nat, phase: Phase, j: nat, a: int)
    requires Shape(st) && MayFence(st, t, phase) && u == Fence(st, t, phase) && Shape(u) && j < |st.txs|
    ensures Logged(u, j, a) == Logged(st, j, a)
    ensures Guarded(st, j, a) ==> Guarded(u, j, a)
    ensures j != t ==> Guarded(u, j, a) == Guarded(st, j, a)
    ensures Open(u, j) == Open(st, j)
  {
    assert TxShape(st.txs[j], |st.vslots|);
  }

  lemma FenceOld(st: St, u: St, t: nat, phase: Phase, j: nat)
    requires Shape(st) && OldOk(st) && MayFence(st, t, phase) && u == Fence(st, t, phase) && Shape(u) && j < |st.txs|
    requires Open(u, j)
    ensures TxShape(u.txs[j], |u.vslots|) && OldValues(u, u.txs[j])
  {
    FenceLogged(st, u, t, phase, j, 0);
    assert TxShape(st.txs[j], |st.vslots|) && TxShape(u.txs[j], |u.vslots|) && OldValues(st, st.txs[j]);
    hide Open, Shape, OldOk;
    var x := u.txs[j];
    forall i: nat, a: nat | x.lo <= i < x.lo + x.used && Covers(u.vslots[i], |u.mem|, a)
                            && !Cov(u.vslots, x.lo, Min(i, x.lo + x.fenced), |u.mem|, a)
      ensures u.vslots[i].data[a - u.vslots[i].addr] == u.spec[a]
    {
      CovWider(st.vslots, x.lo, Min(i, x.lo + st.txs[j].fenced), Min(i, x.lo + x.fenced), |st.mem|, a);
    }
  }

  lemma FenceData(st: St, t: nat, phase: Phase)
    requires Shape(st) && DataOk(st) && MayFence(st, t, phase)
    requires Shape(Fence(st, t, phase))
    ensures DataOk(Fence(st, t, phase))
  {
    var u := Fence(st, t, phase);
    hide Covers, Cov, TxShape, Open;
    forall j: nat | j < |u.txs| && Open(u, j) ensures OldValues(u, u.txs[j]) {
      hide OldValues, Shape, OldOk, DataOk, MayFence, Fence;
      FenceOld(st, u, t, phase, j);
    }
    assert OldOk(u);
    hide OldOk;
    FenceCurrent(st, u, t, phase);
    FenceClosing(st, u, t, phase);
    assert DisjointOk(u) by {
      hide CurrentOk, ClosingOk;
      forall i: nat, j: nat, a | i < |u.txs| && j < |u.txs| && i != j && u.txs[i].Active() && u.txs[j].Active()
        ensures !(Logged(u, i, a) && Logged(u, j, a))
      {
        FenceLogged(st, u, t, phase, i, a);
        FenceLogged(st, u, t, phase, j, a);
        hide Logged, Guarded, Shape;
      }
    }
  }

  lemma FenceCurrent(st: St, u: St, t: nat, phase: Phase)
    requires Shape(st) && CurrentOk(st) && MayFence(st, t, phase) && u == Fence(st, t, phase) && Shape(u)
    ensures CurrentOk(u)
  {
    hide Shape, MayFence;
    forall a: nat | a < |u.mem| && Busy(st, a) ensures Busy(u, a) {
      var j: nat :| Open(st, j) && Guarded(st, j, a);
      FenceLogged(st, u, t, phase, j, a);
      hide Open, Guarded;
    }
    hide Busy;
  }

  lemma FenceClosing(st: St, u: St, t: nat, phase: Phase)
    requires Shape(st) && ClosingOk(st) && MayFence(st, t, phase) && u == Fence(st, t, phase) && Shape(u)
    ensures ClosingOk(u)
  {
    forall j: nat, a | j < |u.txs| && (u.txs[j].phase == Committing || u.txs[j].phase == Aborting) && Guarded(u, j, a)
      ensures u.pm[a] == u.mem[a] && (u.txs[j].phase == Aborting ==> u.mem[a] == u.spec[a])
    {
      FenceLogged(st, u, t, phase, j, a);
      hide Guarded, Shape, MayFence;
    }
  }

  // ---------------------------------------------------------------- data: stores and evictions

  lemma EvictOpen(st: St, i: nat, spec: seq<Byte>, t: nat)
    requires Shape(st) && i < |st.vslots| && |spec| == |st.spec| && t < |st.txs|
    ensures var u := st.(pslots := st.pslots[i := st.vslots[i]], spec := spec);
            Shape(u) && (Open(u, t) <==> Open(st, t) && !(TopMissing(st, t) && st.txs[t].lo + st.txs[t].used == i + 1))
  {
    assert TxShape(st.txs[t], |st.vslots|);
  }

  lemma EvictedSpec(st: St, i: nat, a: nat)
    requires Shape(st) && DisjointOk(st) && a < |st.spec|
    ensures WithCommitted(st, i)[a] != st.spec[a] ==> exists t: nat :: Commits(st, i, t) && Guarded(st, t, a)
    ensures forall t: nat | t < |st.txs| && Commits(st, i, t) && Guarded(st, t, a) :: WithCommitted(st, i)[a] == st.mem[a]
  {
    hide Guarded, Commits;
  }

  /** A commit changes the specification only where no other active transaction has logged. */
  lemma EvictedElsewhere(st: St, i: nat, t: nat, a: nat)
    requires Shape(st) && DisjointOk(st) && t < |st.txs| && st.txs[t].Active() && !Commits(st, i, t) && Logged(st, t, a)
    ensures WithCommitted(st, i)[a] == st.spec[a]
  {
    EvictedSpec(st, i, a);
    if WithCommitted(st, i)[a] != st.spec[a] {
      var s: nat :| Commits(st, i, s) && Guarded(st, s, a);
      GuardedLogged(st, s, a);
      hide WithCommitted, Logged, Guarded;
      assert false;
    }
  }

  lemma GuardedLogged(st: St, t: nat, a: int)
    requires Shape(st) && t < |st.txs| && Guarded(st, t, a)
    ensures Logged(st, t, a)
  {
    assert TxShape(st.txs[t], |st.vslots|);
  }

  lemma EvictOld(st: St, i: nat, t: nat)
    requires Owned(st) && OldOk(st) && DisjointOk(st) && i < |st.vslots| && t < |st.txs|
    ensures var u := st.(pslots := st.pslots[i := st.vslots[i]], spec := WithCommitted(st, i));
            Shape(u) && TxShape(u.txs[t], |u.vslots|) && (Open(u, t) ==> OldValues(u, u.txs[t]))
  {
    var u := st.(pslots := st.pslots[i := st.vslots[i]], spec := WithCommitted(st, i));
    EvictOpen(st, i, u.spec, t);
    assert TxShape(st.txs[t], |st.vslots|);
    if Open(u, t) {
      var x := st.txs[t];
      assert OldValues(st, x) && !Commits(st, i, t) && x.Active();
      hide Open, Owned, OldOk, Commits, Shape, WithCommitted, DisjointOk;
      forall k: nat, a: nat | x.lo <= k < x.lo + x.used && Covers(u.vslots[k], |u.mem|, a)
                              && !Cov(u.vslots, x.lo, Min(k, x.lo + x.fenced), |u.mem|, a)
        ensures u.vslots[k].data[a - u.vslots[k].addr] == u.spec[a]
      {
        assert Logged(st, t, a);
        EvictedElsewhere(st, i, t, a);
      }
    }
  }

  lemma EvictCurrent(st: St, i: nat, a: nat)
    requires Owned(st) && CurrentOk(st) && ClosingOk(st) && DisjointOk(st) && i < |st.vslots| && a < |st.mem|
    ensures var u := st.(pslots := st.pslots[i := st.vslots[i]], spec := WithCommitted(st, i));
            Shape(u) && (Busy(u, a) || u.mem[a] == u.pm[a] == u.spec[a])
  {
    var u := st.(pslots := st.pslots[i := st.vslots[i]], spec := WithCommitted(st, i));
    EvictedSpec(st, i, a);
    if Busy(st, a) {
      var t: nat :| Open(st, t) && Guarded(st, t, a);
      EvictOpen(st, i, u.spec, t);
      GuardedLogged(st, t, a);
      if Open(u, t) {
        assert Guarded(u, t, a);
      } else if !Commits(st, i, t) {
        EvictedElsewhere(st, i, t, a);
      }
    } else {
      hide Guarded, CurrentOk;
      assert st.mem[a] == st.pm[a] == st.spec[a] by { CurrentAt(st, a); }
    }
  }

  lemma CurrentAt(st: St, a: nat)
    requires Shape(st) && CurrentOk(st) && a < |st.mem| && !Busy(st, a)
    ensures st.mem[a] == st.pm[a] == st.spec[a]
  {
  }

  lemma EvictClosing(st: St, i: nat)
    requires Owned(st) && ClosingOk(st) && DisjointOk(st) && i < |st.vslots|
    ensures var u := st.(pslots := st.pslots[i := st.vslots[i]], spec := WithCommitted(st, i)); Shape(u) && ClosingOk(u)
  {
    var u := st.(pslots := st.pslots[i := st.vslots[i]], spec := WithCommitted(st, i));
    forall t: nat, a | t < |u.txs| && (u.txs[t].phase == Committing || u.txs[t].phase == Aborting) && Guarded(u, t, a)
      ensures u.pm[a] == u.mem[a] && (u.txs[t].phase == Aborting ==> u.mem[a] == u.spec[a])
    {
      assert Guarded(st, t, a);
      if u.txs[t].phase == Aborting {
        GuardedLogged(st, t, a);
        EvictedElsewhere(st, i, t, a);
      }
    }
  }

  lemma EvictSlotData(st: St, i: nat)
    requires Owned(st) && DataOk(st) && i < |st.vslots|
    ensures var u := st.(pslots := st.pslots[i := st.vslots[i]], spec := WithCommitted(st, i)); Owned(u) && DataOk(u)
  {
    var u := st.(pslots := st.pslots[i := st.vslots[i]], spec := WithCommitted(st, i));
    EvictSlotSlots(st, i, u.spec);
    assert TailsOk(u) && TxsOk(u) by {
      hide TxShape, SlotsOk, DataOk, WithCommitted;
      assert forall t :: 0 <= t < |st.txs| ==> TxOk(st, st.txs[t]) == TxOk(u, u.txs[t]);
    }
    EvictClosing(st, i);
    hide WithCommitted, Open, Busy, OldValues, TxShape, TailsOk, TxsOk, SlotsOk, ClosingOk;
    assert OldOk(u) by {
      forall t: nat | t < |u.txs| && Open(u, t) ensures TxShape(u.txs[t], |u.vslots|) && OldValues(u, u.txs[t]) {
        EvictOld(st, i, t);
      }
    }
    assert CurrentOk(u) by {
      forall a: nat | a < |u.mem| ensures Busy(u, a) || u.mem[a] == u.pm[a] == u.spec[a] {
        EvictCurrent(st, i, a);
      }
    }
    assert DisjointOk(u) by {
      assert forall t: nat, a | t < |u.txs| :: Logged(u, t, a) == Logged(st, t, a);
    }
  }

  /** `u` has the log and the specification of `st`, and at least its transactions. */
  ghost predicate Alike(st: St, u: St) {
    && Shape(st) && Shape(u) && u.vslots == st.vslots && u.pslots == st.pslots && u.spec == st.spec
    && |u.mem| == |st.mem| && u.head == st.head && u.g0 == st.g0
    && |st.txs| <= |u.txs| && forall t :: 0 <= t < |st.txs| ==> u.txs[t] == st.txs[t]
  }

  lemma AlikeTx(st: St, u: St, t: nat, a: int)
    requires Alike(st, u) && t < |st.txs|
    ensures Open(u, t) == Open(st, t) && Guarded(u, t, a) == Guarded(st, t, a) && Logged(u, t, a) == Logged(st, t, a)
    ensures TxShape(st.txs[t], |st.vslots|) && OldValues(u, u.txs[t]) == OldValues(st, st.txs[t])
  {
    assert TxShape(st.txs[t], |st.vslots|);
    hide Shape;
  }

  lemma AlikeBusy(st: St, u: St, a: nat)
    requires Alike(st, u) && Busy(st, a)
    ensures Busy(u, a)
  {
    var t: nat :| Open(st, t) && Guarded(st, t, a);
    AlikeTx(st, u, t, a);
  }

  lemma AlikeSlots(st: St, u: St)
    requires Alike(st, u) && SlotsOk(st) && forall t: nat | |st.txs| <= t < |u.txs| :: u.txs[t].used == 0
    ensures SlotsOk(u)
  {
    forall i: nat | i < |u.vslots| ensures SlotOk(u, i) {
      hide EntriesOk, Durable, Written, Shape;
      SlotOkSame(st, u, i);
    }
    forall t: nat | t < |u.txs| ensures EntriesOk(u.vslots, u.txs[t]) && Durable(u, u.txs[t]) {
      assert TxShape(u.txs[t], |u.vslots|);
      if t < |st.txs| {
        assert EntriesOk(st.vslots, st.txs[t]) && Durable(st, st.txs[t]);
        hide SlotsOk, Shape;
      }
    }
    hide SlotOk;
  }

  lemma AlikeOld(st: St, u: St)
    requires Alike(st, u) && OldOk(st) && forall t: nat | |st.txs| <= t < |u.txs| :: u.txs[t].used == 0
    ensures OldOk(u)
  {
    forall t: nat | t < |u.txs| && Open(u, t) ensures TxShape(u.txs[t], |u.vslots|) && OldValues(u, u.txs[t]) {
      if t < |st.txs| {
        AlikeTx(st, u, t, 0);
        hide Open, OldValues, Shape;
      } else {
        assert TxShape(u.txs[t], |u.vslots|);
        hide OldOk;
      }
    }
  }

  lemma AlikeDisjoint(st: St, u: St)
    requires Alike(st, u) && DisjointOk(st) && forall t: nat | |st.txs| <= t < |u.txs| :: u.txs[t].used == 0
    ensures DisjointOk(u)
  {
    forall i: nat, j: nat, a | i < |u.txs| && j < |u.txs| && i != j && u.txs[i].Active() && u.txs[j].Active()
                               && Logged(u, i, a) && Logged(u, j, a)
      ensures false
    {
      if i < |st.txs| && j < |st.txs| {
        AlikeTx(st, u, i, a);
        AlikeTx(st, u, j, a);
        hide Logged, Shape;
        assert false;
      }
      hide DisjointOk;
    }
  }

  lemma AlikeTxs(st: St, u: St)
    requires Alike(st, u) && |u.txs| == |st.txs| && u.tails == st.tails && st.pt <= u.pt && TailsOk(st) && TxsOk(st)
    ensures TailsOk(u) && TxsOk(u)
  {
    hide Before, TxShape;
    forall t | 0 <= t < |u.txs| ensures TxOk(u, u.txs[t]) {
      assert TxOk(st, st.txs[t]);
    }
  }

  lemma StoreCurrent(st: St, u: St, t: nat, a: nat, v: Byte)
    requires Alike(st, u) && CurrentOk(st) && Open(st, t) && Guarded(st, t, a) && u.mem == st.mem[a := v] && u.pm == st.pm
    ensures CurrentOk(u)
  {
    AlikeTx(st, u, t, a);
    assert Busy(u, a);
    hide Open, Guarded, Shape;
    forall b: nat | b < |u.mem| ensures Busy(u, b) || u.mem[b] == u.pm[b] == u.spec[b] {
      if Busy(st, b) { AlikeBusy(st, u, b); }
      hide Busy;
    }
  }

  lemma StoreClosing(st: St, u: St, t: nat, a: nat, v: Byte)
    requires Alike(st, u) && |u.txs| == |st.txs| && ClosingOk(st) && DisjointOk(st)
    requires t < |st.txs| && st.txs[t].phase == Running
    requires Guarded(st, t, a) && u.mem == st.mem[a := v] && u.pm == st.pm
    ensures ClosingOk(u)
  {
    GuardedLogged(st, t, a);
    forall j: nat, b | j < |u.txs| && (u.txs[j].phase == Committing || u.txs[j].phase == Aborting) && Guarded(u, j, b)
      ensures u.pm[b] == u.mem[b] && (u.txs[j].phase == Aborting ==> u.mem[b] == u.spec[b])
    {
      AlikeTx(st, u, j, b);
      GuardedLogged(st, j, b);
      hide Logged, Shape;
    }
  }

  lemma StoreKeeps(st: St, t: nat, a: nat, v: Byte)
    requires Owned(st) && DataOk(st) && Enabled(st, Store(t, a, v))
    ensures var u := Apply(st, Store(t, a, v)); Owned(u) && DataOk(u)
  {
    var u := st.(mem := st.mem[a := v]);
    AlikeSlots(st, u);
    AlikeTxs(st, u);
    AlikeOld(st, u);
    AlikeDisjoint(st, u);
    hide TailsOk, TxsOk, SlotsOk, TxShape, OldOk, Guarded, CurrentOk, ClosingOk, DisjointOk;
    StoreCurrent(st, u, t, a, v);
    StoreClosing(st, u, t, a, v);
  }

  lemma EvictByteData(st: St, a: nat)
    requires Owned(st) && DataOk(st) && a < |st.mem|
    ensures var u := st.(pm := st.pm[a := st.mem[a]]); Owned(u) && DataOk(u)
  {
    var u := st.(pm := st.pm[a := st.mem[a]]);
    AlikeSlots(st, u);
    AlikeTxs(st, u);
    AlikeOld(st, u);
    AlikeDisjoint(st, u);
    hide TailsOk, TxsOk, SlotsOk, TxShape, OldOk, DisjointOk;
    AlikeData(st, u);
  }

  lemma AlikeData(st: St, u: St)
    requires Alike(st, u) && CurrentOk(st) && ClosingOk(st) && u.mem == st.mem
    requires forall t: nat | |st.txs| <= t < |u.txs| :: u.txs[t].phase == Running
    requires forall a :: 0 <= a < |st.mem| ==> u.pm[a] == st.pm[a] || u.pm[a] == st.mem[a]
    ensures CurrentOk(u) && ClosingOk(u)
  {
    forall b: nat | b < |u.mem| ensures Busy(u, b) || u.mem[b] == u.pm[b] == u.spec[b] {
      if Busy(st, b) { AlikeBusy(st, u, b); }
      hide Busy, ClosingOk;
    }
    assert CurrentOk(u);
    hide CurrentOk;
    forall j: nat, b | j < |u.txs| && (u.txs[j].phase == Committing || u.txs[j].phase == Aborting) && Guarded(u, j, b)
      ensures u.pm[b] == u.mem[b] && (u.txs[j].phase == Aborting ==> u.mem[b] == u.spec[b])
    {
      AlikeTx(st, u, j, b);
      hide Shape;
    }
  }

  lemma EvictTailKeeps(st: St, k: nat)
    requires Owned(st) && DataOk(st) && st.pt <= k < |st.tails|
    ensures var u := st.(pt := k); Owned(u) && DataOk(u)
  {
    var u := st.(pt := k);
    AlikeSlots(st, u);
    AlikeTxs(st, u);
    AlikeOld(st, u);
    AlikeDisjoint(st, u);
    hide TailsOk, TxsOk, SlotsOk, TxShape, OldOk, DisjointOk;
    AlikeData(st, u);
  }

  lemma NewKeeps(st: St, req: nat)
    requires Owned(st) && DataOk(st) && Enabled(st, NewTransaction(req))
    ensures var u := Apply(st, NewTransaction(req)); Owned(u) && DataOk(u)
  {
    NewTxs(st, req);
    var u := Apply(st, NewTransaction(req));
    assert u.txs[..|st.txs|] == st.txs && u.txs[|st.txs|].used == 0;
    assert Alike(st, u);
    hide TailsOk, Enabled, Reserve, Avail, TxsOk, TxShape, Apply;
    AlikeSlots(st, u);
    AlikeOld(st, u);
    AlikeDisjoint(st, u);
    hide SlotsOk, OldOk, DisjointOk;
    AlikeData(st, u);
  }

  // ---------------------------------------------------------------- every step

  lemma LogsCurrent(st: St, t: nat, addr: nat, len: nat)
    requires Shape(st) && CurrentOk(st) && Enabled(st, LogEntry(t, addr, len))
    ensures LogsSpec(st, t, Slot(0, t, false, false, false, addr, st.mem[addr..addr + len]))
  {
    hide Taken, Guarded, CurrentOk;
    var e := Slot(0, t, false, false, false, addr, st.mem[addr..addr + len]);
    forall a: nat | Covers(e, |st.mem|, a) && !Guarded(st, t, a) ensures e.data[a - e.addr] == st.spec[a] {
      NotBusy(st, t, a);
    }
  }

  lemma LogEntryKeeps(st: St, t: nat, addr: nat, len: nat)
    requires Owned(st) && DataOk(st) && Enabled(st, LogEntry(t, addr, len))
    ensures var u := Apply(st, LogEntry(t, addr, len)); Owned(u) && DataOk(u)
  {
    var e := Slot(0, t, false, false, false, addr, st.mem[addr..addr + len]);
    LogsCurrent(st, t, addr, len);
    hide TxShape, TailsOk, TxsOk, SlotsOk, DataOk, Taken, LogsSpec;
    assert MayWrite(st, t, e, Running);
    assert forall a: nat | Covers(e, |st.mem|, a) :: !Taken(st, t, a);
    assert Apply(st, LogEntry(t, addr, len)) == WriteSlot(st, t, e, Running);
    hide Owned, MayWrite, Apply, Enabled, WriteSlot, Covers;
    WriteData(st, t, e, Running);
  }

  /** The oldest entry of a running transaction covering `a` holds its specified value. */
  lemma FirstOld(st: St, t: nat, slots: seq<Slot>, hi: nat, a: nat)
    requires Shape(st) && t < |st.txs| && EntriesOk(st.vslots, st.txs[t]) && OldValues(st, st.txs[t]) && a < |st.mem|
    requires st.txs[t].lo <= hi <= |slots| == |st.vslots|
    requires forall i | st.txs[t].lo <= i < hi && slots[i].gen == st.txs[t].gen :: i < st.txs[t].lo + st.txs[t].used && slots[i] == st.vslots[i]
    requires forall i | st.txs[t].lo <= i < hi && i < st.txs[t].lo + st.txs[t].fenced :: slots[i] == st.vslots[i]
    ensures var f := First(slots, st.txs[t].gen, st.txs[t].lo, hi, |st.mem|, a);
            f < hi ==> slots[f].data[a - slots[f].addr] == st.spec[a]
  {
    var x := st.txs[t];
    assert TxShape(x, |st.vslots|);
    hide Covers;
    var f := First(slots, x.gen, x.lo, hi, |st.mem|, a);
    if f < hi {
      hide First;
      assert !Cov(st.vslots, x.lo, Min(f, x.lo + x.fenced), |st.mem|, a) by {
        hide OldValues;
        forall i: nat | x.lo <= i < Min(f, x.lo + x.fenced) ensures !Covers(st.vslots[i], |st.mem|, a) {
          assert slots[i] == st.vslots[i] && slots[i].gen == x.gen;
        }
      }
    }
  }

  lemma CoverFirst(slots: seq<Slot>, g: nat, lo: nat, hi: nat, len: nat, a: nat, i: nat)
    requires lo <= i < hi <= |slots| && slots[i].gen == g && Covers(slots[i], len, a)
    ensures First(slots, g, lo, hi, len, a) < hi
  {
    hide First;
    var f := First(slots, g, lo, hi, len, a);
  }

  /** A durable entry for `a` makes the search for the oldest one succeed. */
  lemma GuardedFirst(st: St, t: nat, slots: seq<Slot>, hi: nat, a: nat)
    requires Shape(st) && t < |st.txs| && EntriesOk(st.vslots, st.txs[t]) && Guarded(st, t, a)
    requires st.txs[t].lo + st.txs[t].fenced <= hi <= |slots| == |st.vslots|
    requires forall i | st.txs[t].lo <= i < st.txs[t].lo + st.txs[t].fenced :: slots[i] == st.vslots[i]
    ensures First(slots, st.txs[t].gen, st.txs[t].lo, hi, |st.mem|, a) < hi
  {
    var x := st.txs[t];
    assert TxShape(x, |st.vslots|);
    hide Covers, First, Shape;
    var i: nat :| x.lo <= i < x.lo + x.fenced && Covers(st.vslots[i], |st.mem|, a);
    assert slots[i].gen == x.gen;
    CoverFirst(slots, x.gen, x.lo, hi, |st.mem|, a, i);
  }

  /** The oldest entry for a guarded byte exists and holds its specified value. */
  lemma OldestIsSpec(st: St, t: nat, a: nat)
    requires Shape(st) && t < |st.txs| && EntriesOk(st.vslots, st.txs[t]) && OldValues(st, st.txs[t])
    requires Guarded(st, t, a)
    ensures var x := st.txs[t];
            var f := First(st.vslots, x.gen, x.lo, x.lo + x.used, |st.mem|, a);
            f < x.lo + x.used && st.vslots[f].data[a - st.vslots[f].addr] == st.spec[a]
  {
    var x := st.txs[t];
    assert TxShape(x, |st.vslots|) && a < |st.mem|;
    hide First, Covers, Cov, EntriesOk, OldValues, Guarded;
    GuardedFirst(st, t, st.vslots, x.lo + x.used, a);
    FirstOld(st, t, st.vslots, x.lo + x.used, a);
  }

  lemma UndoneData(st: St, t: nat, a: nat)
    requires Shape(st) && t < |st.txs| && EntriesOk(st.vslots, st.txs[t]) && OldValues(st, st.txs[t])
    requires a < |st.mem| && Guarded(st, t, a)
    ensures var x := st.txs[t]; UndoRange(st.vslots, x.gen, x.lo, x.lo + x.used, st.mem)[a] == st.spec[a]
  {
    var x := st.txs[t];
    hide UndoRange, First, Covers, Cov, EntriesOk, OldValues, Guarded, Shape;
    OldestIsSpec(st, t, a);
    UndoRangeAt(st.vslots, x.gen, x.lo, x.lo + x.used, st.mem, a);
  }

  lemma AbortedData(st: St, t: nat, a: nat)
    requires Owned(st) && OldOk(st) && Enabled(st, WriteAbort(t)) && a < |st.mem| && Guarded(st, t, a)
    ensures st.mem[a] == st.spec[a]
  {
    hide UndoRange, Guarded, TailsOk, TxsOk, SlotOk, OldValues, Durable, EntriesOk;
    assert Open(st, t);
    assert OldValues(st, st.txs[t]);
    UndoneData(st, t, a);
  }

  lemma CloseKeeps(st: St, t: nat, commit: bool)
    requires Owned(st) && DataOk(st) && Enabled(st, if commit then WriteCommit(t) else WriteAbort(t))
    ensures var u := Apply(st, if commit then WriteCommit(t) else WriteAbort(t)); Owned(u) && DataOk(u)
  {
    var e := EndEntry(t, commit);
    assert LogsSpec(st, t, e);
    if !commit {
      hide OldOk, CurrentOk, ClosingOk, DisjointOk, Owned, LogsSpec;
      forall a: nat | a < |st.mem| && Guarded(st, t, a) ensures st.mem[a] == st.spec[a] {
        AbortedData(st, t, a);
      }
    }
    hide Owned, DataOk, LogsSpec, UndoRange;
    WriteData(st, t, e, if commit then Committing else Aborting);
  }

  lemma FenceKeeps(st: St, s: Step, t: nat, phase: Phase)
    requires Owned(st) && DataOk(st) && Enabled(st, s)
    requires (s == LogFence(t) && phase == Running) || (s == CommitFence(t) && phase == Committed) || (s == AbortFence(t) && phase == Aborted)
    ensures Owned(Apply(st, s)) && DataOk(Apply(st, s))
  {
    assert MayFence(st, t, phase);
    assert Apply(st, s) == Fence(st, t, phase);
    hide DataOk, MayFence, TailsOk, TxsOk, SlotsOk, Apply;
    FenceTxs(st, t, phase);
    FenceSlots(st, t, phase);
    FenceData(st, t, phase);
  }

  lemma InvParts(st: St)
    ensures Inv(st) <==> Owned(st) && DataOk(st)
  {
    hide TailsOk, TxsOk, SlotsOk, OldOk, CurrentOk, ClosingOk, DisjointOk;
  }

  lemma EvictKeeps(st: St, s: Step)
    requires Owned(st) && DataOk(st) && Enabled(st, s) && (s.EvictSlot? || s.EvictByte? || s.EvictTail?)
    ensures Owned(Apply(st, s)) && DataOk(Apply(st, s))
  {
    hide DataOk, Owned, WithCommitted;
    match s
    case EvictSlot(i) => EvictSlotData(st, i);
    case EvictByte(a) => EvictByteData(st, a);
    case EvictTail(k) => EvictTailKeeps(st, k);
  }

  lemma StepKeeps(st: St, s: Step)
    requires Inv(st) && Enabled(st, s)
    ensures Inv(Apply(st, s))
  {
    InvParts(st);
    InvParts(Apply(st, s));
    hide Inv, DataOk, TailsOk, TxsOk, SlotsOk, Enabled, Apply;
    match s
    case NewTransaction(req) => NewKeeps(st, req);
    case LogEntry(t, addr, len) => LogEntryKeeps(st, t, addr, len);
    case LogFence(t) => FenceKeeps(st, s, t, Running);
    case Store(t, a, v) => StoreKeeps(st, t, a, v);
    case WriteCommit(t) => CloseKeeps(st, t, true);
    case CommitFence(t) => FenceKeeps(st, s, t, Committed);
    case WriteAbort(t) => CloseKeeps(st, t, false);
    case AbortFence(t) => FenceKeeps(st, s, t, Aborted);
    case _ => EvictKeeps(st, s);
  }
}
