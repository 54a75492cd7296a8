/** The journal's methods as runs of the state machine: each store a method makes is one of its steps. */
module PmfsSteps {
  import opened Common
  import opened PmfsLog
  import opened PmfsCrash
  import opened PmfsAtomicity
  import opened PmfsRecovery
  import opened PmfsJournal

  lemma {:induction false} RunOneMore(st: St, steps: seq<Step>, m: St, s: Step)
    requires Inv(st) && Run(st, steps, m) && Inv(m) && Enabled(m, s)
    ensures Run(st, steps + [s], Apply(m, s))
    decreases |steps|
  {
    hide TailsOk, TxsOk, SlotsOk, OldOk, CurrentOk, ClosingOk, DisjointOk, Enabled, Apply;
    if steps == [] {
      StepKeeps(st, s);
      assert [s][1..] == [];
    } else {
      StepKeeps(st, steps[0]);
      RunOneMore(Apply(st, steps[0]), steps[1..], m, s);
      assert (steps + [s])[1..] == steps[1..] + [s];
    }
  }

  lemma RunNothing(st: St)
    requires Inv(st)
    ensures Run(st, [], st)
  {
    hide Inv;
  }

  // ---------------------------------------------------------------- logging a range

  /** One step for each entry of a logged range. */
  function LogSteps(t: nat, addr: nat, size: nat, n: nat): seq<Step>
    requires n <= EntryCount(size, Data)
  {
    seq(n, i requires 0 <= i < n => assert MAX_DATA_PER_LENTRY * i <= size; LogEntry(t, addr + MAX_DATA_PER_LENTRY * i, ChunkLen(size, i)))
  }

  /** The state once `t` has written the entries `es`. */
  function LoggedTo(st: St, t: nat, es: seq<Slot>): St
    requires t < |st.txs| && st.txs[t].lo + st.txs[t].used + |es| <= |st.vslots|
  {
    var x := st.txs[t];
    st.(vslots := Overlay(st.vslots, x.lo + x.used, es), txs := st.txs[t := x.(used := x.used + |es|)])
  }

  /** The caller owes what every step of the run asks for: a slot kept for the closing entry, and no byte twice. */
  ghost predicate MayLog(st: St, t: nat, addr: nat, size: nat)
    requires Shape(st)
  {
    && t < |st.txs| && st.txs[t].phase == Running
    && st.txs[t].used + EntryCount(size, Data) < st.txs[t].hi - st.txs[t].lo
    && addr + size <= |st.mem| && forall a | addr <= a < addr + size :: !Taken(st, t, a)
  }

  lemma TxsApart(st: St, i: nat, j: nat)
    requires Shape(st) && TxsOk(st) && i < |st.txs| && j < |st.txs| && i != j
    ensures st.txs[i].hi <= st.txs[j].lo || st.txs[j].hi <= st.txs[i].lo
  {
    assert TxOk(st, st.txs[i]) && TxOk(st, st.txs[j]);
    if i < j {
      assert st.txs[i].gen < st.txs[j].gen || st.txs[i].hi <= st.txs[j].lo;
    } else {
      assert st.txs[j].gen < st.txs[i].gen || st.txs[j].hi <= st.txs[i].lo;
    }
  }

  /** Writing entries of its own does not touch what others have logged. */
  lemma TakenSame(st: St, t: nat, es: seq<Slot>, a: nat)
    requires Inv(st) && t < |st.txs| && st.txs[t].lo + st.txs[t].used + |es| <= st.txs[t].hi
    requires Shape(LoggedTo(st, t, es)) && Taken(LoggedTo(st, t, es), t, a)
    ensures Taken(st, t, a)
  {
    hide TailsOk, TxsOk, SlotsOk, OldOk, CurrentOk, ClosingOk, DisjointOk, Cov;
    var u := LoggedTo(st, t, es);
    var j :| 0 <= j < |u.txs| && j != t && u.txs[j].Active() && Logged(u, j, a);
    var y := st.txs[j];
    assert TxShape(y, |st.vslots|);
    TxsApart(st, t, j);
    CovSame(st.vslots, u.vslots, y.lo, y.lo + y.used, |st.mem|, a);
  }

  lemma LoggedNext(st: St, t: nat, addr: nat, size: nat, n: nat)
    requires Shape(st) && MayLog(st, t, addr, size) && n < EntryCount(size, Data)
    ensures var x := st.txs[t];
            var es := Chunks(st.mem, addr, size, Data, x.gen, t, x.used == 0);
            var u := LoggedTo(st, t, es[..n]);
            var s := LogEntry(t, addr + MAX_DATA_PER_LENTRY * n, ChunkLen(size, n));
            && 0 < s.len <= MAX_DATA_PER_LENTRY && addr <= s.addr && s.addr + s.len <= addr + size
            && (Shape(u) && Enabled(u, s) ==> Apply(u, s) == LoggedTo(st, t, es[..n + 1]))
  {
    hide Taken, Overlay;
    var x := st.txs[t];
    var es := Chunks(st.mem, addr, size, Data, x.gen, t, x.used == 0);
    ChunkSize(size, Data, n);
    IsChunk(st.mem, addr, size, Data, x.gen, t, x.used == 0, n, es[n]);
    assert TxShape(x, |st.vslots|);
    OverlayNext(st.vslots, x.lo + x.used, es, n);
  }

  lemma LogRoom(st: St, t: nat, addr: nat, size: nat)
    requires Shape(st) && MayLog(st, t, addr, size)
    ensures var x := st.txs[t];
            |Chunks(st.mem, addr, size, Data, x.gen, t, x.used == 0)| == EntryCount(size, Data) < |st.vslots| - x.lo - x.used
    ensures LoggedTo(st, t, []) == st
  {
    assert TxShape(st.txs[t], |st.vslots|);
  }

  /** Logging a range is a run with one step an entry, and it writes the same slots. */
  lemma {:induction false} LogIsRun(st: St, t: nat, addr: nat, size: nat, n: nat)
    requires Inv(st) && MayLog(st, t, addr, size) && n <= EntryCount(size, Data)
    ensures var x := st.txs[t];
            Run(st, LogSteps(t, addr, size, n), LoggedTo(st, t, Chunks(st.mem, addr, size, Data, x.gen, t, x.used == 0)[..n]))
  {
    hide Chunks, Apply, Chunk, ChunkLen, EntryCount, Taken, TailsOk, TxsOk, SlotsOk, OldOk, CurrentOk, ClosingOk, DisjointOk, Overlay;
    var x := st.txs[t];
    LogRoom(st, t, addr, size);
    var es := Chunks(st.mem, addr, size, Data, x.gen, t, x.used == 0);
    if n == 0 {
      RunNothing(st);
      assert es[..0] == [];
    } else {
      LogIsRun(st, t, addr, size, n - 1);
      var u := LoggedTo(st, t, es[..n - 1]);
      RunKeeps(st, LogSteps(t, addr, size, n - 1), u);
      LoggedNext(st, t, addr, size, n - 1);
      var s := LogEntry(t, addr + MAX_DATA_PER_LENTRY * (n - 1), ChunkLen(size, n - 1));
      forall a | s.addr <= a < s.addr + s.len ensures !Taken(u, t, a) {
        if Taken(u, t, a) { TakenSame(st, t, es[..n - 1], a); }
      }
      RunOneMore(st, LogSteps(t, addr, size, n - 1), u, s);
      assert LogSteps(t, addr, size, n) == LogSteps(t, addr, size, n - 1) + [s];
    }
  }

  // ---------------------------------------------------------------- undoing what was logged

  /** The bytes of an entry stored back, one step each. */
  function RestoreSteps(t: nat, e: Slot, n: nat): seq<Step>
    requires n <= |e.data|
  {
    seq(n, i requires 0 <= i < n => Store(t, e.addr + i, e.data[i]))
  }

  /** Memory after the first `n` bytes of an entry. */
  function Restored(mem: seq<Byte>, e: Slot, n: nat): seq<Byte>
    requires n <= |e.data| && e.addr + |e.data| <= |mem|
  {
    mem[..e.addr] + e.data[..n] + mem[e.addr + n..]
  }

  /** The entries below slot `hi` undone, the newest first. */
  function UndoSteps(slots: seq<Slot>, len: nat, t: nat, lo: nat, hi: nat): seq<Step>
    requires hi <= |slots|
  {
    if hi <= lo then [] else
    var e := slots[hi - 1];
    (if e.addr + |e.data| <= len then RestoreSteps(t, e, |e.data|) else []) + UndoSteps(slots, len, t, lo, hi - 1)
  }

  /** `t` may close: it runs, and everything it wrote to the log is durable. */
  ghost predicate MayClose(st: St, t: nat)
    requires Shape(st)
  {
    t < |st.txs| && st.txs[t].phase == Running && st.txs[t].used == st.txs[t].fenced < st.txs[t].hi - st.txs[t].lo
  }

  lemma StoreIsRun(st: St, steps: seq<Step>, m: seq<Byte>, t: nat, a: nat, v: Byte)
    requires Inv(st) && t < |st.txs| && st.txs[t].phase == Running && |m| == |st.mem|
    requires Run(st, steps, st.(mem := m)) && a < |m| && Guarded(st, t, a)
    ensures Run(st, steps + [Store(t, a, v)], st.(mem := m[a := v]))
  {
    hide TailsOk, TxsOk, SlotsOk, OldOk, CurrentOk, ClosingOk, DisjointOk, Run;
    RunKeeps(st, steps, st.(mem := m));
    assert Guarded(st.(mem := m), t, a);
    RunOneMore(st, steps, st.(mem := m), Store(t, a, v));
  }

  lemma {:induction false} RestoreIsRun(st: St, steps: seq<Step>, m: seq<Byte>, t: nat, k: nat, n: nat)
    requires Inv(st) && MayClose(st, t) && |m| == |st.mem| && Run(st, steps, st.(mem := m))
    requires st.txs[t].lo <= k < st.txs[t].lo + st.txs[t].used && k < |st.vslots|
    requires n <= |st.vslots[k].data| && st.vslots[k].addr + |st.vslots[k].data| <= |m|
    ensures Run(st, steps + RestoreSteps(t, st.vslots[k], n), st.(mem := Restored(m, st.vslots[k], n)))
  {
    hide TailsOk, TxsOk, SlotsOk, OldOk, CurrentOk, ClosingOk, DisjointOk, Run;
    var e := st.vslots[k];
    if n == 0 {
      assert steps + RestoreSteps(t, e, 0) == steps && Restored(m, e, 0) == m;
    } else {
      RestoreIsRun(st, steps, m, t, k, n - 1);
      var a := e.addr + n - 1;
      assert Covers(e, |st.mem|, a) && TxShape(st.txs[t], |st.vslots|);
      StoreIsRun(st, steps + RestoreSteps(t, e, n - 1), Restored(m, e, n - 1), t, a, e.data[n - 1]);
      assert Restored(m, e, n - 1)[a := e.data[n - 1]] == Restored(m, e, n);
      assert steps + RestoreSteps(t, e, n - 1) + [Store(t, a, e.data[n - 1])] == steps + RestoreSteps(t, e, n);
    }
  }

  lemma OwnGen(st: St, t: nat, k: nat)
    requires Inv(st) && t < |st.txs| && st.txs[t].lo <= k < st.txs[t].lo + st.txs[t].used
    ensures k < |st.vslots| && st.vslots[k].gen == st.txs[t].gen
  {
    assert EntriesOk(st.vslots, st.txs[t]);
  }

  /** Undoing a transaction is a run of stores to bytes it has logged. */
  lemma {:induction false} UndoIsRun(st: St, steps: seq<Step>, m: seq<Byte>, t: nat, hi: nat)
    requires Inv(st) && MayClose(st, t) && |m| == |st.mem| && Run(st, steps, st.(mem := m))
    requires st.txs[t].lo <= hi <= st.txs[t].lo + st.txs[t].used <= |st.vslots|
    ensures var x := st.txs[t];
            Run(st, steps + UndoSteps(st.vslots, |st.mem|, t, x.lo, hi), st.(mem := UndoRange(st.vslots, x.gen, x.lo, hi, m)))
    decreases hi
  {
    hide TailsOk, TxsOk, SlotsOk, OldOk, CurrentOk, ClosingOk, DisjointOk, Run, RestoreSteps;
    var x := st.txs[t];
    if hi <= x.lo {
      assert steps + UndoSteps(st.vslots, |st.mem|, t, x.lo, hi) == steps;
    } else {
      var e := st.vslots[hi - 1];
      OwnGen(st, t, hi - 1);
      var first := if e.addr + |e.data| <= |m| then RestoreSteps(t, e, |e.data|) else [];
      if e.addr + |e.data| <= |m| {
        RestoreIsRun(st, steps, m, t, hi - 1, |e.data|);
        assert Restored(m, e, |e.data|) == Write(m, e);
      } else {
        assert steps + first == steps;
      }
      UndoIsRun(st, steps + first, Write(m, e), t, hi - 1);
      assert steps + first + UndoSteps(st.vslots, |st.mem|, t, x.lo, hi - 1) == steps + UndoSteps(st.vslots, |st.mem|, t, x.lo, hi);
    }
  }

  lemma UndoTwice(slots: seq<Slot>, g: nat, lo: nat, hi: nat, mem: seq<Byte>)
    requires lo <= hi <= |slots|
    ensures UndoRange(slots, g, lo, hi, UndoRange(slots, g, lo, hi, mem)) == UndoRange(slots, g, lo, hi, mem)
  {
    var once := UndoRange(slots, g, lo, hi, mem);
    forall a: nat | a < |mem| ensures UndoRange(slots, g, lo, hi, once)[a] == once[a] {
      UndoRangeAt(slots, g, lo, hi, mem, a);
      UndoRangeAt(slots, g, lo, hi, once, a);
    }
  }

  function FlushSteps(n: nat): seq<Step> { seq(n, a requires 0 <= a < n => EvictByte(a)) }

  /** What a flush and a fence wait for. */
  lemma {:induction false} FlushIsRun(st: St, n: nat)
    requires Inv(st) && n <= |st.mem|
    ensures |st.pm| == |st.mem| && Run(st, FlushSteps(n), st.(pm := st.mem[..n] + st.pm[n..]))
  {
    hide TailsOk, TxsOk, SlotsOk, OldOk, CurrentOk, ClosingOk, DisjointOk, Run;
    if n == 0 {
      assert st.mem[..0] + st.pm[0..] == st.pm && FlushSteps(0) == [];
      RunNothing(st);
    } else {
      FlushIsRun(st, n - 1);
      var u := st.(pm := st.mem[..n - 1] + st.pm[n - 1..]);
      RunKeeps(st, FlushSteps(n - 1), u);
      RunOneMore(st, FlushSteps(n - 1), u, EvictByte(n - 1));
      assert u.pm[n - 1 := st.mem[n - 1]] == st.mem[..n] + st.pm[n..];
      assert FlushSteps(n) == FlushSteps(n - 1) + [EvictByte(n - 1)];
    }
  }

  lemma {:induction false} RunConcat(st: St, steps: seq<Step>, m: St, more: seq<Step>, u: St)
    requires Inv(st) && Run(st, steps, m) && Inv(m) && Run(m, more, u)
    ensures Run(st, steps + more, u)
    decreases |steps|
  {
    hide TailsOk, TxsOk, SlotsOk, OldOk, CurrentOk, ClosingOk, DisjointOk, Enabled, Apply;
    if steps == [] {
      assert steps + more == more;
    } else {
      StepKeeps(st, steps[0]);
      RunConcat(Apply(st, steps[0]), steps[1..], m, more, u);
      assert (steps + more)[1..] == steps[1..] + more;
    }
  }

  /** All of aborting: the old bytes stored back, made durable, and only then the closing entry. */
  function AbortSteps(st: St, t: nat): seq<Step>
    requires t < |st.txs| && st.txs[t].lo + st.txs[t].used <= |st.vslots|
  {
    UndoSteps(st.vslots, |st.mem|, t, st.txs[t].lo, st.txs[t].lo + st.txs[t].used) + FlushSteps(|st.mem|) + [WriteAbort(t)]
  }

  lemma AbortIsRun(st: St, t: nat) returns (u: St)
    requires Inv(st) && MayClose(st, t)
    ensures st.txs[t].lo + st.txs[t].used < |st.vslots| && Run(st, AbortSteps(st, t), u)
    ensures var x := st.txs[t];
            && u.mem == UndoRange(st.vslots, x.gen, x.lo, x.lo + x.used, st.mem)
            && u.vslots == st.vslots[x.lo + x.used := Slot(x.gen, t, x.used == 0, false, true, 0, [])]
            && u.txs == st.txs[t := x.(used := x.used + 1, phase := Aborting)] && u.head == st.head && u.tails == st.tails
  {
    hide TailsOk, TxsOk, SlotsOk, OldOk, CurrentOk, ClosingOk, DisjointOk, Run, UndoRange;
    var x := st.txs[t];
    assert TxShape(x, |st.vslots|);
    var undo := UndoSteps(st.vslots, |st.mem|, t, x.lo, x.lo + x.used);
    var undone := st.(mem := UndoRange(st.vslots, x.gen, x.lo, x.lo + x.used, st.mem));
    RunNothing(st);
    assert st.(mem := st.mem) == st && [] + undo == undo;
    UndoIsRun(st, [], st.mem, t, x.lo + x.used);
    RunKeeps(st, undo, undone);
    FlushIsRun(undone, |undone.mem|);
    var flushed := undone.(pm := undone.mem);
    assert undone.mem[..|undone.mem|] + undone.pm[|undone.mem|..] == undone.mem;
    RunKeeps(undone, FlushSteps(|undone.mem|), flushed);
    RunConcat(st, undo, undone, FlushSteps(|undone.mem|), flushed);
    UndoTwice(st.vslots, x.gen, x.lo, x.lo + x.used, st.mem);
    u := Apply(flushed, WriteAbort(t));
    RunOneMore(st, undo + FlushSteps(|st.mem|), flushed, WriteAbort(t));
  }

  // ---------------------------------------------------------------- the journal in memory

  /** What the processor sees of the journal is `st`. */
  ghost predicate Ring(j: Journal, st: St)
    reads j, j.slots, j.data
  {
    && j.Valid() && Inv(st) && st.vslots == j.slots[..] && st.mem == j.data[..]
    && j.head == LOGENTRY_SIZE * st.head
    && j.tail == LOGENTRY_SIZE * st.tails[|st.tails| - 1].tail && j.genId == st.tails[|st.tails| - 1].gen
  }

  /** Transaction `t` is the one that `st` knows by its number. */
  ghost predicate Mirrors(j: Journal, t: Transaction, st: St)
    reads j, j.slots, j.data, t
  {
    && Ring(j, st) && j.Owns(t) && t.tid < |st.txs|
    && st.txs[t.tid].lo == t.start && st.txs[t.tid].hi == t.start + t.numEntries
    && st.txs[t.tid].gen == t.genId && st.txs[t.tid].used == t.numUsed
  }

  /** Numbers count the transactions that got their slots. */
  method Begin(j: Journal, maxEntries: nat, ghost st: St) returns (r: Option<Transaction>, ghost u: St)
    requires Ring(j, st) && j.genId + 1 < MAX_GEN_ID && j.nextTid == |st.txs|
    modifies j`tail, j`genId, j`nextTid
    ensures r.Some? <==> Enabled(st, NewTransaction(maxEntries + 1))
    ensures r.Some? <==> HasRoom(|st.vslots|, st.head, st.tails[|st.tails| - 1].tail, maxEntries + 1)
    ensures r.Some? ==> Mirrors(j, r.value, u) && j.nextTid == |u.txs| && Run(st, [NewTransaction(maxEntries + 1)], u)
  {
    hide TailsOk, TxsOk, SlotsOk, OldOk, CurrentOk, ClosingOk, DisjointOk, Run, Reserve, HasRoom;
    u := st;
    var s := NewTransaction(maxEntries + 1);
    var again;
    r, again := j.NewTransaction(maxEntries);
    if r.Some? {
      u := Apply(st, s);
      RunNothing(st);
      RunOneMore(st, [], st, s);
      assert [] + [s] == [s];
      StepKeeps(st, s);
    }
  }

  method LogRange(j: Journal, t: Transaction, addr: nat, size: nat, ghost st: St) returns (ok: bool, ghost u: St)
    requires Mirrors(j, t, st) && MayLog(st, t.tid, addr, size)
    modifies j.slots, t`numUsed
    ensures ok && Mirrors(j, t, u) && Run(st, LogSteps(t.tid, addr, size, EntryCount(size, Data)), u)
  {
    hide TailsOk, TxsOk, SlotsOk, OldOk, CurrentOk, ClosingOk, DisjointOk, Run, Chunks, Taken, EntryCount, Overlay;
    ghost var es := Chunks(st.mem, addr, size, Data, t.genId, t.tid, t.numUsed == 0);
    LogRoom(st, t.tid, addr, size);
    LogIsRun(st, t.tid, addr, size, EntryCount(size, Data));
    assert es[..|es|] == es;
    u := LoggedTo(st, t.tid, es);
    RunKeeps(st, LogSteps(t.tid, addr, size, EntryCount(size, Data)), u);
    NoChunks(st.mem, addr, t.genId, t.tid, t.numUsed == 0);
    ok := j.AddLogEntry(t, addr, size, Data);
  }

  lemma NoChunks(mem: seq<Byte>, addr: nat, gen: nat, tid: nat, first: bool)
    requires addr <= |mem|
    ensures Chunks(mem, addr, 0, Data, gen, tid, first) == Chunks(mem, 0, 0, Data, gen, tid, first) == []
  {
  }

  /** The caller has flushed what it changed and waited for it. */
  method Commit(j: Journal, t: Transaction, ghost st: St) returns (ghost u: St)
    requires Mirrors(j, t, st) && MayClose(st, t.tid)
    requires forall a | 0 <= a < |st.mem| && Guarded(st, t.tid, a) :: st.pm[a] == st.mem[a]
    modifies j.slots, t`numUsed
    ensures Mirrors(j, t, u) && Run(st, [WriteCommit(t.tid)], u)
  {
    hide TailsOk, TxsOk, SlotsOk, OldOk, CurrentOk, ClosingOk, DisjointOk, Run;
    u := Apply(st, WriteCommit(t.tid));
    RunNothing(st);
    RunOneMore(st, [], st, WriteCommit(t.tid));
    assert [] + [WriteCommit(t.tid)] == [WriteCommit(t.tid)];
    StepKeeps(st, WriteCommit(t.tid));
    j.CommitTransaction(t);
  }

  method Abort(j: Journal, t: Transaction, ghost st: St) returns (ghost u: St)
    requires Mirrors(j, t, st) && MayClose(st, t.tid)
    modifies j.slots, j.data, t`numUsed
    ensures st.txs[t.tid].lo + st.txs[t.tid].used <= |st.vslots|
    ensures Mirrors(j, t, u) && Run(st, AbortSteps(st, t.tid), u)
  {
    hide TailsOk, TxsOk, SlotsOk, OldOk, CurrentOk, ClosingOk, DisjointOk, Run, UndoRange, AbortSteps;
    u := AbortIsRun(st, t.tid);
    RunKeeps(st, AbortSteps(st, t.tid), u);
    j.AbortTransaction(t);
  }
}
