/**
 The PMFS undo journal as a state machine over single stores, fences and evictions.

 `mem` and `vslots` are what the processor sees, `pm` and `pslots` what has reached the medium: any
 byte and any log entry may be evicted at any time, and a fence returns only once what was flushed
 before it is durable.  A crash keeps the durable part alone.

 `spec` is a history variable: the initial data plus the effects of each transaction from the moment
 its commit entry is durable.
 */
module PmfsCrash {
  import opened Common
  import opened PmfsLog

  const MAX_DATA_PER_LENTRY: nat := 48

  datatype Phase = Running | Committing | Committed | Aborting | Aborted

  /**
   A transaction owning slots `[lo, hi)`: `used` entries are written, `fenced` of them are known to
   be durable, and `ti` is the position in the tail history of the tail its reservation stored.
   */
  datatype Tx = Tx(lo: nat, hi: nat, gen: nat, used: nat, fenced: nat, phase: Phase, ti: nat)
  {
    predicate Active() { phase == Running || phase == Committing || phase == Aborting }
  }

  /** The 8-byte word holding the journal's tail and generation. */
  datatype TailGen = TailGen(tail: nat, gen: nat)

  /** `tails` lists the values the tail word took, and `pt` the one that is durable. */
  datatype St = St(
    head: nat, g0: nat,
    vslots: seq<Slot>, pslots: seq<Slot>,
    mem: seq<Byte>, pm: seq<Byte>, spec: seq<Byte>,
    txs: seq<Tx>, tails: seq<TailGen>, pt: nat)

  // ---------------------------------------------------------------- reservation

  datatype Reservation = NeedsCleaning | Reserved(lo: nat, hi: nat, gen: nat, wrapped: bool)

  /** Free slots, one of them always kept. */
  function Avail(n: nat, head: nat, tail: nat): int {
    (if tail >= head then n - (tail - head) else head - tail) - 1
  }

  /** Reserving `req` consecutive slots; a transaction that would reach the end starts over at slot 0. */
  function Reserve(n: nat, head: nat, tail: nat, gen: nat, req: nat): Reservation {
    if Avail(n, head, tail) < req then NeedsCleaning
    else if tail + req < n then Reserved(tail, tail + req, gen, false)
    else if Avail(n, head, 0) < req then NeedsCleaning
    else Reserved(0, req, gen + 1, true)
  }

  /** Slot `i` lies between the head and the tail, going around the ring. */
  predicate LiveSlot(n: nat, head: nat, tail: nat, i: nat) {
    if head <= tail then head <= i < tail else head <= i < n || i < tail
  }

  /** The slots that hold nothing a recovery would look at. */
  ghost function FreeSlots(n: nat, head: nat, tail: nat): set<nat> {
    set i: nat | i < n && !LiveSlot(n, head, tail, i)
  }

  /** There is a run of `req` free slots at the tail or at the start of the ring, and one more free slot. */
  ghost predicate HasRoom(n: nat, head: nat, tail: nat, req: nat) {
    |FreeSlots(n, head, tail)| > req && (tail + req < n || head > req)
  }

  lemma FreeSlotsAre(n: nat, head: nat, tail: nat)
    requires head < n && tail < n
    ensures |FreeSlots(n, head, tail)| == if head <= tail then n - (tail - head) else head - tail
  {
    var s := FreeSlots(n, head, tail);
    if head <= tail {
      var a, b := set i | i in s && i < head, set i | i in s && tail <= i;
      RangeCard(0, head, a);
      RangeCard(tail, n - tail, b);
      assert s == a + b && a !! b;
    } else {
      RangeCard(tail, head - tail, s);
    }
  }

  /** A reservation is refused only for want of room. */
  lemma ReserveExact(n: nat, head: nat, tail: nat, gen: nat, req: nat)
    requires head < n && tail < n && req > 0
    ensures Reserve(n, head, tail, gen, req).Reserved? <==> HasRoom(n, head, tail, req)
    ensures head == tail && tail + req < n ==> Reserve(n, head, tail, gen, req) == Reserved(tail, tail + req, gen, false)
  {
    FreeSlotsAre(n, head, tail);
  }

  // ---------------------------------------------------------------- steps

  datatype Step =
    | NewTransaction(req: nat)
    | LogEntry(t: nat, addr: nat, len: nat)
    | LogFence(t: nat)
    | Store(t: nat, a: nat, v: Byte)
    | WriteCommit(t: nat)
    | CommitFence(t: nat)
    | WriteAbort(t: nat)
    | AbortFence(t: nat)
    | EvictSlot(i: nat)
    | EvictByte(a: nat)
    | EvictTail(k: nat)

  ghost predicate Cov(slots: seq<Slot>, lo: nat, hi: nat, len: nat, a: nat)
    requires hi <= |slots|
  {
    exists i :: lo <= i < hi && Covers(slots[i], len, a)
  }

  /** Transaction `t` has logged `a`. */
  ghost predicate Logged(st: St, t: nat, a: int)
    requires Shape(st) && t < |st.txs|
  {
    0 <= a < |st.mem| && Cov(st.vslots, st.txs[t].lo, st.txs[t].lo + st.txs[t].used, |st.mem|, a)
  }

  /** The log entry of `t` for `a` is durable, so that `t` may store to `a`. */
  ghost predicate Guarded(st: St, t: nat, a: int)
    requires Shape(st) && t < |st.txs|
  {
    0 <= a < |st.mem| && Cov(st.vslots, st.txs[t].lo, st.txs[t].lo + st.txs[t].fenced, |st.mem|, a)
  }

  /** Some other running, committing or aborting transaction has logged `a`. */
  ghost predicate Taken(st: St, t: nat, a: nat)
    requires Shape(st)
  {
    exists j :: 0 <= j < |st.txs| && j != t && st.txs[j].Active() && Logged(st, j, a)
  }

  ghost predicate Enabled(st: St, s: Step)
    requires Shape(st)
  {
    match s
    case NewTransaction(req) =>
      req > 0 && Reserve(|st.vslots|, st.head, st.tails[|st.tails| - 1].tail, st.tails[|st.tails| - 1].gen, req).Reserved?
    case LogEntry(t, addr, len) =>
      t < |st.txs| && var x := st.txs[t];
      x.phase == Running && x.used + 1 < x.hi - x.lo &&
      0 < len <= MAX_DATA_PER_LENTRY && addr + len <= |st.mem| &&
      forall a | addr <= a < addr + len :: !Taken(st, t, a)
    case LogFence(t) =>
      t < |st.txs| && var x := st.txs[t];
      x.phase == Running && st.pt >= x.ti &&
      forall i | x.lo <= i < x.lo + x.used :: st.pslots[i] == st.vslots[i]
    case Store(t, a, v) =>
      t < |st.txs| && var x := st.txs[t];
      x.phase == Running && a < |st.mem| && Guarded(st, t, a)
    case WriteCommit(t) =>
      t < |st.txs| && var x := st.txs[t];
      x.phase == Running && x.used == x.fenced < x.hi - x.lo &&
      forall a | 0 <= a < |st.mem| && Guarded(st, t, a) :: st.pm[a] == st.mem[a]
    case CommitFence(t) =>
      t < |st.txs| && var x := st.txs[t];
      x.phase == Committing && st.pt >= x.ti &&
      st.pslots[x.lo + x.used - 1] == st.vslots[x.lo + x.used - 1]
    case WriteAbort(t) =>
      t < |st.txs| && var x := st.txs[t];
      x.phase == Running && x.used == x.fenced < x.hi - x.lo &&
      st.mem == UndoRange(st.vslots, x.gen, x.lo, x.lo + x.used, st.mem) &&
      forall a | 0 <= a < |st.mem| && Guarded(st, t, a) :: st.pm[a] == st.mem[a]
    case AbortFence(t) =>
      t < |st.txs| && var x := st.txs[t];
      x.phase == Aborting && st.pt >= x.ti &&
      st.pslots[x.lo + x.used - 1] == st.vslots[x.lo + x.used - 1]
    case EvictSlot(i) => i < |st.vslots|
    case EvictByte(a) => a < |st.mem|
    case EvictTail(k) => st.pt <= k < |st.tails|
  }

  function WriteSlot(st: St, t: nat, e: Slot, phase: Phase): St
    requires t < |st.txs| && st.txs[t].lo + st.txs[t].used < |st.vslots|
  {
    var x := st.txs[t];
    st.(vslots := st.vslots[x.lo + x.used := e.(gen := x.gen, start := x.used == 0)],
        txs := st.txs[t := x.(used := x.used + 1, phase := phase)])
  }

  function EndEntry(t: nat, commit: bool): Slot {
    Slot(0, t, false, commit, !commit, 0, [])
  }

  /** The commit entry in slot `i` becomes durable: its transaction's effects now count. */
  ghost predicate Commits(st: St, i: nat, t: nat)
    requires Shape(st)
  {
    t < |st.txs| && st.txs[t].phase == Committing && st.txs[t].lo + st.txs[t].used == i + 1 && TopMissing(st, t)
  }

  ghost function WithCommitted(st: St, i: nat): seq<Byte>
    requires Shape(st)
  {
    seq(|st.spec|, a requires 0 <= a < |st.spec| =>
      if exists t: nat :: Commits(st, i, t) && Guarded(st, t, a) then st.mem[a] else st.spec[a])
  }

  ghost function Apply(st: St, s: Step): St
    requires Shape(st) && Enabled(st, s)
  {
    match s
    case NewTransaction(req) =>
      var last := st.tails[|st.tails| - 1];
      var r := Reserve(|st.vslots|, st.head, last.tail, last.gen, req);
      var tails := st.tails + (if r.wrapped then [TailGen(0, r.gen)] else []) + [TailGen(r.hi, r.gen)];
      st.(tails := tails, txs := st.txs + [Tx(r.lo, r.hi, r.gen, 0, 0, Running, |tails| - 1)])
    case LogEntry(t, addr, len) =>
      WriteSlot(st, t, Slot(0, t, false, false, false, addr, st.mem[addr..addr + len]), Running)
    case LogFence(t) =>
      st.(txs := st.txs[t := st.txs[t].(fenced := st.txs[t].used)])
    case Store(t, a, v) =>
      st.(mem := st.mem[a := v])
    case WriteCommit(t) => WriteSlot(st, t, EndEntry(t, true), Committing)
    case CommitFence(t) =>
      st.(txs := st.txs[t := st.txs[t].(fenced := st.txs[t].used, phase := Committed)])
    case WriteAbort(t) => WriteSlot(st, t, EndEntry(t, false), Aborting)
    case AbortFence(t) =>
      st.(txs := st.txs[t := st.txs[t].(fenced := st.txs[t].used, phase := Aborted)])
    case EvictSlot(i) =>
      st.(pslots := st.pslots[i := st.vslots[i]], spec := WithCommitted(st, i))
    case EvictByte(a) =>
      st.(pm := st.pm[a := st.mem[a]])
    case EvictTail(k) =>
      st.(pt := k)
  }

  // ---------------------------------------------------------------- invariant

  /** The generation under which slot `i` is written until the next recovery. */
  function SegGen(st: St, i: nat): nat {
    if i >= st.head then st.g0 else st.g0 + 1
  }

  predicate TxShape(x: Tx, n: nat) {
    && x.lo < x.hi <= n && x.fenced <= x.used <= x.hi - x.lo
    && ((x.phase == Committing || x.phase == Aborting) ==> x.used == x.fenced + 1)
    && ((x.phase == Committed || x.phase == Aborted) ==> x.used == x.fenced > 0)
  }

  ghost predicate Shape(st: St) {
    && st.head < |st.vslots| == |st.pslots|
    && |st.mem| == |st.pm| == |st.spec|
    && st.pt < |st.tails|
    && forall t :: 0 <= t < |st.txs| ==> TxShape(st.txs[t], |st.vslots|)
  }

  ghost predicate Before(p: TailGen, gen: nat, pos: nat) {
    p.gen < gen || (p.gen == gen && p.tail <= pos)
  }

  /** Tails stay between the head and the end of the ring, or wrap once, and only move on. */
  ghost predicate TailsRise(tails: seq<TailGen>, head: nat, n: nat, g0: nat) {
    && (forall i :: 0 <= i < |tails| ==> TailIn(tails[i], head, n, g0))
    && (forall i, j :: 0 <= i <= j < |tails| ==> Before(tails[i], tails[j].gen, tails[j].tail))
  }

  predicate TailIn(p: TailGen, head: nat, n: nat, g0: nat) {
    (p.gen == g0 && head <= p.tail < n) || (p.gen == g0 + 1 && p.tail < head)
  }

  ghost predicate TailsOk(st: St)
    requires Shape(st)
  {
    TailsRise(st.tails, st.head, |st.vslots|, st.g0)
  }

  ghost predicate TxOk(st: St, x: Tx)
    requires Shape(st)
  {
    && x.ti < |st.tails| && st.tails[x.ti] == TailGen(x.hi, x.gen)
    && (forall p :: 0 <= p < x.ti ==> Before(st.tails[p], x.gen, x.lo))
    && ((x.gen == st.g0 && st.head <= x.lo) || (x.gen == st.g0 + 1 && x.hi <= st.head))
    && (x.fenced > 0 ==> x.ti <= st.pt)
  }

  ghost predicate TxsOk(st: St)
    requires Shape(st)
  {
    && (forall t :: 0 <= t < |st.txs| ==> TxOk(st, st.txs[t]))
    && (forall i, j :: 0 <= i < j < |st.txs| ==> st.txs[i].gen < st.txs[j].gen || st.txs[i].hi <= st.txs[j].lo)
  }

  /** The entries a transaction has written: a start at the bottom, a closing entry on top. */
  ghost predicate EntriesOk(slots: seq<Slot>, x: Tx)
    requires x.lo + x.used <= |slots|
  {
    forall i | x.lo <= i < x.lo + x.used ::
      && slots[i].gen == x.gen
      && (slots[i].start <==> i == x.lo)
      && (slots[i].Ends() <==> x.phase != Running && i == x.lo + x.used - 1)
      && (slots[i].Ends() ==> slots[i].data == [])
  }

  ghost predicate Written(st: St, i: nat) {
    exists t :: 0 <= t < |st.txs| && st.txs[t].lo <= i < st.txs[t].lo + st.txs[t].used
  }

  ghost predicate Durable(st: St, x: Tx)
    requires x.lo + x.fenced <= |st.vslots| == |st.pslots|
  {
    forall i | x.lo <= i < x.lo + x.fenced :: st.pslots[i] == st.vslots[i]
  }

  /** What slot `i` may hold: an entry of its own transaction, or something of an older generation. */
  ghost predicate SlotOk(st: St, i: nat)
    requires i < |st.vslots| == |st.pslots|
  {
    && st.vslots[i].gen <= SegGen(st, i)
    && (st.vslots[i].gen == SegGen(st, i) ==> Written(st, i))
    && (st.pslots[i] == st.vslots[i] || st.pslots[i].gen < SegGen(st, i))
  }

  ghost predicate SlotsOk(st: St)
    requires Shape(st)
  {
    && (forall t :: 0 <= t < |st.txs| ==> EntriesOk(st.vslots, st.txs[t]) && Durable(st, st.txs[t]))
    && (forall i :: 0 <= i < |st.vslots| ==> SlotOk(st, i))
  }

  /** The closing entry is written but not yet durable. */
  predicate TopMissing(st: St, t: nat)
    requires Shape(st) && t < |st.txs|
  {
    var x := st.txs[t];
    (x.phase == Committing || x.phase == Aborting) && st.pslots[x.lo + x.used - 1] != st.vslots[x.lo + x.used - 1]
  }

  /** The transaction would be rolled back if the machine stopped now. */
  ghost predicate Open(st: St, t: nat)
    requires Shape(st)
  {
    t < |st.txs| && (st.txs[t].phase == Running || TopMissing(st, t))
  }

  ghost predicate Busy(st: St, a: nat)
    requires Shape(st)
  {
    exists t: nat :: Open(st, t) && Guarded(st, t, a)
  }

  /** What an open transaction logged first for an address is the value to go back to. */
  ghost predicate OldValues(st: St, x: Tx)
    requires Shape(st) && TxShape(x, |st.vslots|)
  {
    forall i: nat, a: nat | x.lo <= i < x.lo + x.used && Covers(st.vslots[i], |st.mem|, a)
                            && !Cov(st.vslots, x.lo, Min(i, x.lo + x.fenced), |st.mem|, a) ::
      st.vslots[i].data[a - st.vslots[i].addr] == st.spec[a]
  }

  ghost predicate OldOk(st: St)
    requires Shape(st)
  {
    forall t :: 0 <= t < |st.txs| && Open(st, t) ==> OldValues(st, st.txs[t])
  }

  /** Away from open transactions, data, medium and specification agree. */
  ghost predicate CurrentOk(st: St)
    requires Shape(st)
  {
    forall a | 0 <= a < |st.mem| :: Busy(st, a) || st.mem[a] == st.pm[a] == st.spec[a]
  }

  /** Before a closing entry is written the data it stands for are durable. */
  ghost predicate ClosingOk(st: St)
    requires Shape(st)
  {
    forall t, a | 0 <= t < |st.txs| && (st.txs[t].phase == Committing || st.txs[t].phase == Aborting) && Guarded(st, t, a) ::
      st.pm[a] == st.mem[a] && (st.txs[t].phase == Aborting ==> st.mem[a] == st.spec[a])
  }

  ghost predicate DisjointOk(st: St)
    requires Shape(st)
  {
    forall i, j, a | 0 <= i < |st.txs| && 0 <= j < |st.txs| && i != j && st.txs[i].Active() && st.txs[j].Active() ::
      !(Logged(st, i, a) && Logged(st, j, a))
  }

  ghost predicate Inv(st: St) {
    Shape(st) && TailsOk(st) && TxsOk(st) && SlotsOk(st) && OldOk(st) && CurrentOk(st) && ClosingOk(st) && DisjointOk(st)
  }

  /** An empty journal: nothing in it carries the generation its slot will be checked against. */
  ghost predicate Quiet(slots: seq<Slot>, head: nat, g: nat) {
    head < |slots| && forall i :: 0 <= i < |slots| ==> slots[i].gen < if i >= head then g else g + 1
  }

  function Init(slots: seq<Slot>, head: nat, g: nat, mem: seq<Byte>): St {
    St(head, g, slots, slots, mem, mem, mem, [], [TailGen(head, g)], 0)
  }

  lemma InitInv(slots: seq<Slot>, head: nat, g: nat, mem: seq<Byte>)
    requires Quiet(slots, head, g)
    ensures Inv(Init(slots, head, g, mem))
  {
  }
}
