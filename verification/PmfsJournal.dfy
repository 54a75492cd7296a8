/**
 The PMFS journal code itself: byte offsets into the ring, in-place log entries and data, and the
 loops that reserve, log, undo and recover.
 */
module PmfsJournal {
  import opened Common
  import opened PmfsLog
  import opened PmfsCrash

  const LOGENTRY_SIZE: nat := 64

  const MAX_GEN_ID: nat := 0xFFFF

  datatype EntryKind = Data | Commit | Abort

  /** Offsets of the entries before and after one, around the ring. */
  function NextLogEntry(jsize: nat, off: nat): nat {
    if off + LOGENTRY_SIZE >= jsize then 0 else off + LOGENTRY_SIZE
  }

  function PrevLogEntry(jsize: nat, off: nat): nat
    requires (off == 0 || LOGENTRY_SIZE <= off) && LOGENTRY_SIZE <= jsize
  {
    (if off == 0 then jsize else off) - LOGENTRY_SIZE
  }

  /** Generation ids are 16 bits wide and skip 0. */
  function NextGenId(g: nat): nat {
    var h := (g + 1) % 0x1_0000;
    if h == 0 then 1 else h
  }

  function PrevGenId(g: nat): nat
    requires 0 < g <= MAX_GEN_ID
  {
    if g - 1 == 0 then MAX_GEN_ID else g - 1
  }

  /** Around the ids in use, next and previous undo each other and never give 0. */
  lemma GenIdNeighbours(g: nat)
    requires 0 < g <= MAX_GEN_ID
    ensures 0 < NextGenId(g) <= MAX_GEN_ID && 0 < PrevGenId(g) <= MAX_GEN_ID
    ensures PrevGenId(NextGenId(g)) == g && NextGenId(PrevGenId(g)) == g
    ensures g < MAX_GEN_ID ==> NextGenId(g) == g + 1
  {
  }

  lemma RingNeighbours(jsize: nat, off: nat)
    requires jsize % LOGENTRY_SIZE == 0 && off % LOGENTRY_SIZE == 0 && off < jsize
    ensures PrevLogEntry(jsize, NextLogEntry(jsize, off)) == off
    ensures NextLogEntry(jsize, PrevLogEntry(jsize, off)) == off
  {
  }

  lemma PrevSlot(jsize: nat, off: nat)
    requires LOGENTRY_SIZE <= off && LOGENTRY_SIZE <= jsize
    ensures PrevLogEntry(jsize, off) == off - LOGENTRY_SIZE
  {
  }

  // ---------------------------------------------------------------- what logging a range writes

  function EntryCount(size: nat, kind: EntryKind): nat {
    if size == 0 then (if kind == Data then 0 else 1) else (size + MAX_DATA_PER_LENTRY - 1) / MAX_DATA_PER_LENTRY
  }

  function ChunkLen(size: nat, i: nat): nat
    requires MAX_DATA_PER_LENTRY * i <= size
  {
    if size - MAX_DATA_PER_LENTRY * i < MAX_DATA_PER_LENTRY then size - MAX_DATA_PER_LENTRY * i else MAX_DATA_PER_LENTRY
  }

  /** The `i`-th entry of a logged range. */
  function Chunk(mem: seq<Byte>, addr: nat, size: nat, kind: EntryKind, gen: nat, tid: nat, first: bool, i: nat): Slot
    requires addr + size <= |mem| && i < EntryCount(size, kind)
  {
    Slot(gen, tid, first && i == 0, kind == Commit, kind == Abort, addr + MAX_DATA_PER_LENTRY * i,
         mem[addr + MAX_DATA_PER_LENTRY * i..addr + MAX_DATA_PER_LENTRY * i + ChunkLen(size, i)])
  }

  function Chunks(mem: seq<Byte>, addr: nat, size: nat, kind: EntryKind, gen: nat, tid: nat, first: bool): (r: seq<Slot>)
    requires addr + size <= |mem|
  {
    seq(EntryCount(size, kind), i requires 0 <= i < EntryCount(size, kind) => Chunk(mem, addr, size, kind, gen, tid, first, i))
  }

  /** The last entry takes what is left, every other one is full. */
  lemma ChunkSize(size: nat, kind: EntryKind, i: nat)
    requires i < EntryCount(size, kind)
    ensures MAX_DATA_PER_LENTRY * i <= size && MAX_DATA_PER_LENTRY * i + ChunkLen(size, i) <= size
    ensures ChunkLen(size, i) == if i == EntryCount(size, kind) - 1 then size - MAX_DATA_PER_LENTRY * i else MAX_DATA_PER_LENTRY
  {
  }

  lemma IsChunk(mem: seq<Byte>, addr: nat, size: nat, kind: EntryKind, gen: nat, tid: nat, first: bool, i: nat, e: Slot)
    requires addr + size <= |mem| && i < EntryCount(size, kind) && MAX_DATA_PER_LENTRY * i <= size
    requires var lo := addr + MAX_DATA_PER_LENTRY * i;
             e == Slot(gen, tid, i == 0 && first, kind == Commit, kind == Abort, lo, mem[lo..lo + ChunkLen(size, i)])
    ensures e == Chunks(mem, addr, size, kind, gen, tid, first)[i]
  {
  }

  /** `s` with `es` written over it from `lo` on. */
  function Overlay(s: seq<Slot>, lo: nat, es: seq<Slot>): seq<Slot>
    requires lo + |es| <= |s|
  {
    s[..lo] + es + s[lo + |es|..]
  }

  lemma OverlayNext(s: seq<Slot>, lo: nat, es: seq<Slot>, i: nat)
    requires i < |es| && lo + |es| <= |s|
    ensures Overlay(s, lo, es[..i])[lo + i := es[i]] == Overlay(s, lo, es[..i + 1])
  {
  }

  lemma ChunkCount(mem: seq<Byte>, addr: nat, size: nat, kind: EntryKind, gen: nat, tid: nat, first: bool)
    requires addr + size <= |mem|
    ensures |Chunks(mem, addr, size, kind, gen, tid, first)| == EntryCount(size, kind)
  {
  }

  lemma OverlayNothing(s: seq<Slot>, lo: nat, es: seq<Slot>)
    requires lo + |es| <= |s|
    ensures Overlay(s, lo, es[..0]) == s
  {
  }

  lemma ChunkWritten(s: seq<Slot>, lo: nat, mem: seq<Byte>, addr: nat, size: nat, kind: EntryKind, gen: nat, tid: nat, first: bool, i: nat, e: Slot)
    requires addr + size <= |mem| && i < EntryCount(size, kind) && MAX_DATA_PER_LENTRY * i <= size
    requires lo + |Chunks(mem, addr, size, kind, gen, tid, first)| <= |s|
    requires var at := addr + MAX_DATA_PER_LENTRY * i;
             e == Slot(gen, tid, i == 0 && first, kind == Commit, kind == Abort, at, mem[at..at + ChunkLen(size, i)])
    ensures var es := Chunks(mem, addr, size, kind, gen, tid, first);
            i < |es| && Overlay(s, lo, es[..i])[lo + i := e] == Overlay(s, lo, es[..i + 1])
  {
    IsChunk(mem, addr, size, kind, gen, tid, first, i, e);
    OverlayNext(s, lo, Chunks(mem, addr, size, kind, gen, tid, first), i);
  }

  /** Every byte of a logged range is in exactly one of its entries. */
  lemma ChunkCovers(mem: seq<Byte>, addr: nat, size: nat, kind: EntryKind, gen: nat, tid: nat, first: bool, a: nat, i: nat)
    requires addr + size <= |mem| && i < EntryCount(size, kind)
    ensures var e := Chunks(mem, addr, size, kind, gen, tid, first)[i];
            && |e.data| <= MAX_DATA_PER_LENTRY
            && (Covers(e, |mem|, a) <==> addr <= a < addr + size && (a - addr) / MAX_DATA_PER_LENTRY == i)
            && (Covers(e, |mem|, a) ==> e.data[a - e.addr] == mem[a])
  {
  }

  lemma ChunkOf(addr: nat, size: nat, kind: EntryKind, a: nat)
    requires addr <= a < addr + size
    ensures (a - addr) / MAX_DATA_PER_LENTRY < EntryCount(size, kind)
  {
  }

  /** Undoing a logged range restores it and nothing else, whatever was stored over it since. */
  lemma UndoLogged(mem: seq<Byte>, now: seq<Byte>, addr: nat, size: nat, kind: EntryKind, gen: nat, tid: nat, first: bool, a: nat)
    requires addr + size <= |mem| == |now| && a < |mem|
    ensures var es := Chunks(mem, addr, size, kind, gen, tid, first);
            UndoRange(es, gen, 0, |es|, now)[a] == if addr <= a < addr + size then mem[a] else now[a]
  {
    var es := Chunks(mem, addr, size, kind, gen, tid, first);
    UndoRangeAt(es, gen, 0, |es|, now, a);
    var f := First(es, gen, 0, |es|, |mem|, a);
    hide UndoRange, First, Covers;
    if f < |es| {
      ChunkCovers(mem, addr, size, kind, gen, tid, first, a, f);
    } else if addr <= a < addr + size {
      ChunkOf(addr, size, kind, a);
      ChunkCovers(mem, addr, size, kind, gen, tid, first, a, (a - addr) / MAX_DATA_PER_LENTRY);
      assert false;
    }
  }

  /** One step of the search for the start of a transaction. */
  lemma StopStep(slots: seq<Slot>, g: nat, base: nat, le: nat)
    requires base <= le < |slots|
    ensures (Valid(slots, g, le) && slots[le].start) || le == base || (Valid(slots, g, le - 1) && slots[le - 1].Ends())
            ==> StopAt(slots, g, base, le + 1) == le
    ensures !(Valid(slots, g, le) && slots[le].start) && le > base && !(Valid(slots, g, le - 1) && slots[le - 1].Ends())
            ==> StopAt(slots, g, base, le + 1) == StopAt(slots, g, base, le)
  {
  }

  /** One step of recovery: the newest slot is passed over, or its transaction is dealt with. */
  lemma RecoverStep(slots: seq<Slot>, head: nat, tail: nat, g: nat, mem: seq<Byte>)
    requires head < |slots| && tail < |slots| && head != tail && (tail < head ==> g > 1)
    ensures var g' := if tail == 0 then g - 1 else g;
            var k := if tail == 0 then |slots| else tail;
            var base := if k - 1 >= head then head else 0;
            Recover(slots, head, tail, g, mem) ==
              if !Valid(slots, g', k - 1) then Recover(slots, head, k - 1, g', mem)
              else var j := StopAt(slots, g', base, k);
                   Recover(slots, head, j, g', if Undone(slots, g', j, k) then UndoRange(slots, g', j, k, mem) else mem)
  {
    hide StopAt, UndoRange, Undone;
  }

  lemma UndoneIs(slots: seq<Slot>, g: nat, j: nat, k: nat, found: bool, closed: bool)
    requires j <= k < |slots| && found == (slots[j].gen == g && slots[j].start) && closed == slots[k].Ends()
    ensures Undone(slots, g, j, k + 1) == (found && !closed)
  {
  }

  lemma RecoverDone(slots: seq<Slot>, head: nat, g: nat, mem: seq<Byte>)
    requires head <= |slots|
    ensures Recover(slots, head, head, g, mem) == mem
  {
  }

  // ---------------------------------------------------------------- the journal

  class Transaction {
    const tid: nat
    const numEntries: nat
    const genId: nat
    /** The first reserved slot of the ring. */
    const start: nat
    var numUsed: nat

    constructor (tid: nat, numEntries: nat, genId: nat, start: nat)
      ensures this.tid == tid && this.numEntries == numEntries && this.genId == genId && this.start == start && numUsed == 0
    {
      this.tid, this.numEntries, this.genId, this.start := tid, numEntries, genId, start;
      numUsed := 0;
    }
  }

  class Journal {
    const jsize: nat
    const slots: array<Slot>
    const data: array<Byte>
    var head: nat
    var tail: nat
    var genId: nat
    var nextTid: nat

    predicate Valid()
      reads this
    {
      && jsize == LOGENTRY_SIZE * slots.Length && slots.Length > 1 && slots as object != data as object
      && head % LOGENTRY_SIZE == 0 && head < jsize
      && tail % LOGENTRY_SIZE == 0 && tail < jsize
      && 0 < genId && (tail < head ==> 1 < genId)
    }

    /** A new journal: the ring zeroed, generation 1, so that no entry is valid. */
    constructor (ring: nat, bytes: nat)
      requires 1 < ring
      ensures Valid() && fresh(slots) && fresh(data) && slots.Length == ring && data.Length == bytes
      ensures head == tail == 0 && genId == 1 && Quiet(slots[..], head / LOGENTRY_SIZE, genId)
    {
      jsize := LOGENTRY_SIZE * ring;
      slots := new Slot[ring](_ => Slot(0, 0, false, false, false, 0, []));
      data := new Byte[bytes](_ => 0);
      head, tail, genId, nextTid := 0, 0, 1, 0;
    }

    /** The slots a transaction reserved are in the ring. */
    predicate Owns(t: Transaction)
      reads this, t
    {
      t.start + t.numEntries <= slots.Length && t.numUsed <= t.numEntries
    }

    /**
     Reserve room for a transaction and its closing entry.  The tail word is set to 0 when the
     reservation would reach the end of the ring, and the reservation is tried again; `again`
     counts the retries.
     */
    method NewTransaction(maxEntries: nat) returns (r: Option<Transaction>, again: nat)
      requires Valid() && genId + 1 < MAX_GEN_ID
      modifies this`tail, this`genId, this`nextTid
      ensures again <= 1 && nextTid == old(nextTid) + 1
      ensures var n, h, t, req := slots.Length, old(head) / LOGENTRY_SIZE, old(tail) / LOGENTRY_SIZE, maxEntries + 1;
              match Reserve(n, h, t, old(genId), req)
              case NeedsCleaning =>
                r.None? && if again == 0 then tail == old(tail) && genId == old(genId) else tail == 0 && genId == old(genId) + 1
              case Reserved(lo, hi, g, wrapped) =>
                r.Some? && fresh(r.value) && r.value.start == lo && r.value.numEntries == hi - lo && r.value.numUsed == 0 &&
                r.value.genId == g == genId && tail == LOGENTRY_SIZE * hi && (again == 1 <==> wrapped) && r.value.tid == old(nextTid)
      ensures r.Some? ==> Valid() && Owns(r.value) && tail != head
      ensures r.Some? <==> HasRoom(slots.Length, old(head) / LOGENTRY_SIZE, old(tail) / LOGENTRY_SIZE, maxEntries + 1)
    {
      hide HasRoom;
      ReserveExact(slots.Length, head / LOGENTRY_SIZE, tail / LOGENTRY_SIZE, genId, maxEntries + 1);
      var entries := maxEntries + 1;
      var req := entries * LOGENTRY_SIZE;
      var off := tail;
      var tid := nextTid;
      nextTid := nextTid + 1;
      again := 0;
      ghost var h, t := head / LOGENTRY_SIZE, tail / LOGENTRY_SIZE;
      while true
        invariant nextTid == old(nextTid) + 1
        invariant off == tail && off % LOGENTRY_SIZE == 0 && off < jsize && again <= 1
        invariant if again == 0 then off == old(tail) && genId == old(genId)
                  else off == 0 && genId == old(genId) + 1 && t + entries >= slots.Length && Avail(slots.Length, h, t) >= entries
        decreases 1 - again
      {
        var gen := genId;
        var avail: int := (if off >= head then jsize - (off - head) else head - off) - LOGENTRY_SIZE;
        if avail < req {
          return None, again;
        }
        var base := off;
        off := off + req;
        if off >= jsize {
          off := 0;
          tail, genId := 0, NextGenId(genId);
          again := again + 1;
        } else {
          tail := off;
          var x := new Transaction(tid, entries, gen, base / LOGENTRY_SIZE);
          return Some(x), again;
        }
      }
    }

    /** Put the old bytes of an entry back. */
    method UndoLogEntry(e: Slot)
      modifies data
      ensures data[..] == Write(old(data[..]), e)
    {
      if |e.data| > 0 && e.addr + |e.data| <= data.Length {
        var i := 0;
        while i < |e.data|
          invariant i <= |e.data|
          invariant forall a :: 0 <= a < data.Length ==>
                      data[a] == if e.addr <= a < e.addr + i then e.data[a - e.addr] else old(data[a])
        {
          data[e.addr + i] := e.data[i];
          i := i + 1;
        }
      }
      forall a: nat | a < data.Length ensures data[..][a] == Write(old(data[..]), e)[a] {
        WriteAt(old(data[..]), e, a);
      }
    }

    /** Undo what a transaction has logged, newest entry first. */
    method UndoTransaction(t: Transaction)
      requires Valid() && Owns(t)
      modifies data
      ensures data[..] == UndoRange(slots[..], t.genId, t.start, t.start + t.numUsed, old(data[..]))
      ensures slots[..] == old(slots[..])
    {
      var i: int := t.numUsed - 1;
      while i >= 0
        invariant -1 <= i < t.numUsed
        invariant slots[..] == old(slots[..])
        invariant UndoRange(slots[..], t.genId, t.start, t.start + i + 1, data[..])
               == UndoRange(slots[..], t.genId, t.start, t.start + t.numUsed, old(data[..]))
      {
        if slots[t.start + i].gen == t.genId {
          UndoLogEntry(slots[t.start + i]);
        }
        i := i - 1;
      }
    }

    /**
     Log `size` bytes at `addr`, at most 48 per entry; without room for all of them nothing is
     written.  The generation id makes each entry valid.
     */
    method AddLogEntry(t: Transaction, addr: nat, size: nat, kind: EntryKind) returns (ok: bool)
      requires Valid() && Owns(t) && addr + size <= data.Length
      modifies slots, t`numUsed
      ensures var es := Chunks(data[..], if size > 0 then addr else 0, size, kind, t.genId, t.tid, old(t.numUsed) == 0);
              && ok == (old(t.numUsed) + |es| <= t.numEntries)
              && t.numUsed == old(t.numUsed) + (if ok then |es| else 0)
              && slots[..] == if ok then Overlay(old(slots[..]), t.start + old(t.numUsed), es) else old(slots[..])
      ensures Owns(t)
    {
      hide EntryCount, Chunk, ChunkLen, Overlay, Chunks;
      var num := EntryCount(size, kind);
      ChunkCount(data[..], if size > 0 then addr else 0, size, kind, t.genId, t.tid, t.numUsed == 0);
      if t.numUsed + num > t.numEntries {
        return false;
      }
      var le := t.start + t.numUsed;
      var leStart := if size > 0 then addr else 0;
      var left := size;
      var i := 0;
      ghost var lo, base := le, leStart;
      ghost var mem := data[..];
      ghost var es := Chunks(mem, base, size, kind, t.genId, t.tid, t.numUsed == 0);
      ghost var s0 := slots[..];
      assert slots as object != data as object;
      OverlayNothing(s0, lo, es);
      while i < num
        invariant i <= num == |es| && le == lo + i && t.numUsed == old(t.numUsed) + i
        invariant i < num ==> left == size - MAX_DATA_PER_LENTRY * i && leStart == base + MAX_DATA_PER_LENTRY * i
        invariant slots[..] == Overlay(s0, lo, es[..i]) && data[..] == mem
      {
        ChunkSize(size, kind, i);
        var leSize := if i == num - 1 then left else MAX_DATA_PER_LENTRY;
        var e := Slot(t.genId, t.tid, i == 0 && t.numUsed == 0, kind == Commit, kind == Abort, leStart, data[leStart..leStart + leSize]);
        assert data[leStart..leStart + leSize] == mem[leStart..leStart + leSize];
        ChunkWritten(s0, lo, mem, base, size, kind, t.genId, t.tid, old(t.numUsed) == 0, i, e);
        WriteEntry(le, e);
        left, t.numUsed, leStart, le, i := left - leSize, t.numUsed + 1, leStart + leSize, le + 1, i + 1;
      }
      assert es[..num] == es;
      return true;
    }

    /** The entry becomes valid with its generation id, stored last. */
    method WriteEntry(le: nat, e: Slot)
      requires le < slots.Length
      modifies slots
      ensures slots[..] == old(slots[..])[le := e]
    {
      slots[le] := e;
    }

    /** The closing entry that commits what was logged. */
    method CommitTransaction(t: Transaction)
      requires Valid() && Owns(t) && t.numUsed < t.numEntries
      modifies slots, t`numUsed
      ensures Owns(t) && t.numUsed == old(t.numUsed) + 1 && data[..] == old(data[..])
      ensures slots[..] == old(slots[..])[t.start + old(t.numUsed) := Slot(t.genId, t.tid, old(t.numUsed) == 0, true, false, 0, [])]
    {
      var ok := AddLogEntry(t, 0, 0, Commit);
    }

    /** Undo everything, and only then write the closing entry. */
    method AbortTransaction(t: Transaction)
      requires Valid() && Owns(t) && t.numUsed < t.numEntries
      modifies slots, data, t`numUsed
      ensures Owns(t) && t.numUsed == old(t.numUsed) + 1
      ensures data[..] == UndoRange(old(slots[..]), t.genId, t.start, t.start + old(t.numUsed), old(data[..]))
      ensures slots[..] == old(slots[..])[t.start + old(t.numUsed) := Slot(t.genId, t.tid, old(t.numUsed) == 0, false, true, 0, [])]
    {
      hide UndoRange;
      UndoTransaction(t);
      var ok := AddLogEntry(t, 0, 0, Abort);
    }

    // -------------------------------------------------------------- recovery

    lemma RingSize()
      requires Valid()
      ensures jsize == LOGENTRY_SIZE * slots.Length > LOGENTRY_SIZE
    {
    }

    /**
     Search down from the valid entry at offset `off`, slot `k`, for the start of its transaction,
     noting closing entries on the way.  The search stays above slot `base`, where this part of the
     ring begins.  Returns where it stopped and whether the transaction found there is to be undone.
     */
    method FindStart(off: nat, gen: nat, ghost k: nat, ghost base: nat) returns (stop: nat, le: nat, undo: bool)
      requires Valid() && off == LOGENTRY_SIZE * k && k < slots.Length && slots[k].gen == gen
      requires if head <= off then head == LOGENTRY_SIZE * base else base == 0
      ensures le == StopAt(slots[..], gen, base, k + 1) && stop == LOGENTRY_SIZE * le
      ensures undo == Undone(slots[..], gen, le, k + 1)
    {
      hide StopAt, Write, Undone, PrevLogEntry, Valid;
      ghost var s := slots[..];
      var closed, found := false, false;
      stop, le := off, off / LOGENTRY_SIZE;
      RingSize();
      while true
        invariant base <= le <= k && stop == LOGENTRY_SIZE * le && !found
        invariant closed == (le < k && slots[k].Ends())
        invariant StopAt(s, gen, base, k + 1) == StopAt(s, gen, base, le + 1)
        invariant le < k ==> !(slots[le].gen == gen && slots[le].Ends())
        decreases le
      {
        StopStep(s, gen, base, le);
        if slots[le].gen == gen {
          if slots[le].commit || slots[le].abort { closed := true; }
          if slots[le].start { found := true; break; }
        }
        if stop == 0 || stop == head { break; }
        le := le - 1;
        if slots[le].gen == gen && (slots[le].commit || slots[le].abort) {
          le := le + 1;
          break;
        }
        PrevSlot(jsize, stop);
        stop := PrevLogEntry(jsize, stop);
      }
      undo := found && !closed;
      UndoneIs(s, gen, le, k, found, closed);
    }

    /** Recover the transaction whose newest valid entry is at offset `off`, slot `k`. */
    method RecoverTransaction(off: nat, gen: nat, ghost k: nat, ghost base: nat) returns (stop: nat, ghost j: nat)
      requires Valid() && off == LOGENTRY_SIZE * k && k < slots.Length && slots[k].gen == gen
      requires if head <= off then head == LOGENTRY_SIZE * base else base == 0
      modifies data
      ensures slots[..] == old(slots[..]) && j == StopAt(slots[..], gen, base, k + 1) && stop == LOGENTRY_SIZE * j
      ensures data[..] == if Undone(slots[..], gen, j, k + 1) then UndoRange(slots[..], gen, j, k + 1, old(data[..])) else old(data[..])
    {
      hide StopAt, UndoRange, Undone;
      var le, undo;
      stop, le, undo := FindStart(off, gen, k, base);
      j := le;
      if undo {
        var used := (off - stop) / LOGENTRY_SIZE + 1;
        var t := new Transaction(0, used, gen, le);
        t.numUsed := used;
        UndoTransaction(t);
      }
    }

    /** Advance the generation, and only then let the ring start at its tail. */
    method ForwardJournal()
      requires Valid() && genId < MAX_GEN_ID
      modifies this`genId, this`head
      ensures Valid() && genId == old(genId) + 1 && head == tail
    {
      genId := NextGenId(genId);
      head := tail;
    }

    /** Undo every transaction the ring still holds open, from the tail back to the head. */
    method RecoverUndoJournal()
      requires Valid() && genId < MAX_GEN_ID
      modifies this`genId, this`head, data
      ensures Valid() && genId == old(genId) + 1 && head == tail == old(tail) && slots[..] == old(slots[..])
      ensures data[..] == Recover(slots[..], old(head) / LOGENTRY_SIZE, old(tail) / LOGENTRY_SIZE, old(genId), old(data[..]))
    {
      var off: nat, gen: nat := tail, genId;
      ghost var s, h, k := slots[..], head / LOGENTRY_SIZE, tail / LOGENTRY_SIZE;
      ghost var result := Recover(s, h, k, genId, data[..]);
      assert head == LOGENTRY_SIZE * h && off == LOGENTRY_SIZE * k && jsize == LOGENTRY_SIZE * slots.Length;
      hide Recover, UndoRange, StopAt, Undone, Valid;
      while head != off
        invariant Valid() && head == old(head) && tail == old(tail) && genId == old(genId)
        invariant off == LOGENTRY_SIZE * k && k < slots.Length && (k < h ==> 1 < gen) && 0 < gen <= MAX_GEN_ID
        invariant slots[..] == s && Recover(s, h, k, gen, data[..]) == result
        decreases k < h, k
      {
        RecoverStep(s, h, k, gen, data[..]);
        if off == 0 { gen := PrevGenId(gen); }
        off := PrevLogEntry(jsize, off);
        k := (if k == 0 then slots.Length else k) - 1;
        assert off == LOGENTRY_SIZE * k && off / LOGENTRY_SIZE == k;
        if slots[off / LOGENTRY_SIZE].gen == gen {
          off, k := RecoverTransaction(off, gen, k, if k >= h then h else 0);
        }
      }
      RecoverDone(s, h, gen, data[..]);
      ForwardJournal();
    }
  }
}
