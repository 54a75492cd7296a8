/**
 The recovery scan as it is coded: one ring of `width` slots that is slid over the file, the log being
 replayed once for each position of the ring.
 */
module FileScanOps {
  import opened Common
  import opened FileLog
  import opened FileKeeps
  import opened FileSafety
  import opened FileScan
  import FileCompact

  const MAX_PGOFF: nat := 262144

  // ---------------------------------------------------------------- what the ring holds

  /** A ring slot for page `p` after `k` log entries; block number 0 stands for an empty slot. */
  predicate Cell(nvmm: nat, entry: Option<nat>, log: seq<LogEntry>, k: nat, s0: nat, p: nat)
    requires k <= |log|
  {
    match RingAt(log[..k], s0, p)
    case None => nvmm == 0
    case Some(j) => nvmm == Nvmm(log[j], p) && nvmm != 0 && entry == Some(j)
  }

  ghost predicate Holding(nvmm: seq<nat>, entry: seq<Option<nat>>, log: seq<LogEntry>, k: nat, s0: nat, base: nat) {
    k <= |log| && |nvmm| == |entry| && forall i :: 0 <= i < |nvmm| ==> Cell(nvmm[i], entry[i], log, k, s0, base + i)
  }

  /** What displacing page `p` by entry `k` marks. */
  function Displaced(log: seq<LogEntry>, s0: nat, keep: Keep, k: nat, p: nat): set<nat>
    requires k <= |log|
  {
    match RingAt(log[..k], s0, p)
    case None => {}
    case Some(j) => if keep(j, k) then {Nvmm(log[j], p)} else {}
  }

  function DisplacedIn(log: seq<LogEntry>, s0: nat, keep: Keep, k: nat, lo: nat, hi: nat): set<nat>
    requires k <= |log|
    decreases hi
  {
    if hi <= lo then {} else DisplacedIn(log, s0, keep, k, lo, hi - 1) + Displaced(log, s0, keep, k, hi - 1)
  }

  lemma {:induction false} DisplacedSplit(log: seq<LogEntry>, s0: nat, keep: Keep, k: nat, lo: nat, mid: nat, hi: nat)
    requires k <= |log| && lo <= mid <= hi
    ensures DisplacedIn(log, s0, keep, k, lo, hi) == DisplacedIn(log, s0, keep, k, lo, mid) + DisplacedIn(log, s0, keep, k, mid, hi)
    decreases hi
  {
    hide Displaced;
    if mid < hi {
      DisplacedSplit(log, s0, keep, k, lo, mid, hi - 1);
    }
  }

  lemma {:induction false} DisplacedNone(log: seq<LogEntry>, s0: nat, keep: Keep, k: nat, lo: nat, hi: nat)
    requires k <= |log|
    requires forall p: nat | lo <= p < hi :: RingAt(log[..k], s0, p) == None || (forall j :: RingAt(log[..k], s0, p) == Some(j) ==> !keep(j, k))
    ensures DisplacedIn(log, s0, keep, k, lo, hi) == {}
    decreases hi
  {
    hide RingAt;
    if lo < hi {
      DisplacedNone(log, s0, keep, k, lo, hi - 1);
    }
  }

  /** Two pages of one entry in the ring have no empty slot between them. */
  lemma RingNoHole(log: seq<LogEntry>, k: nat, s0: nat, p: nat, q: nat, r: nat)
    requires SizesOk(log) && k <= |log| && p <= q <= r
    requires RingAt(log[..k], s0, p).Some? && RingAt(log[..k], s0, p) == RingAt(log[..k], s0, r)
    ensures RingAt(log[..k], s0, q).Some?
  {
    hide RingAt, LastLive, SizesOk;
    FileCompact.PrefixSizes(log, k);
    forall x: nat ensures RingAt(log[..k], s0, x) == LastLive(log[..k], x) {
      StaleSize(log[..k], s0, 0, x);
      RingIsRebuild(log[..k], x);
    }
    NoHoleBetween(log[..k], p, q, r);
  }

  // ---------------------------------------------------------------- runs of one old entry

  /** The run `[s, s + n)` of entry `run` ends at `cur`, but for empty slots. */
  ghost predicate RunIs(log: seq<LogEntry>, k: nat, s0: nat, lo: nat, cur: nat, run: Option<nat>, s: nat, n: nat)
    requires k <= |log|
  {
    run.Some? ==>
      && lo <= s && 0 < n && s + n <= cur
      && (forall p: nat | s <= p < s + n :: RingAt(log[..k], s0, p) == run)
      && (forall p: nat | s + n <= p < cur :: RingAt(log[..k], s0, p) == None)
  }

  /** All but the pending run is marked. */
  ghost predicate Marked(log: seq<LogEntry>, k: nat, s0: nat, keep: Keep, lo: nat, cur: nat, run: Option<nat>, s: nat, n: nat,
                         bm0: set<nat>, bm: set<nat>)
    requires k <= |log|
  {
    RunIs(log, k, s0, lo, cur, run, s, n) &&
    bm == bm0 + DisplacedIn(log, s0, keep, k, lo, if run.Some? then s else cur)
  }

  lemma MarkedStarts(log: seq<LogEntry>, k: nat, s0: nat, keep: Keep, lo: nat, bm: set<nat>)
    requires k <= |log|
    ensures Marked(log, k, s0, keep, lo, lo, None, 0, 0, bm, bm)
  {
  }

  lemma MarkedGrows(log: seq<LogEntry>, k: nat, s0: nat, keep: Keep, lo: nat, cur: nat, run: Option<nat>, s: nat, n: nat, bm0: set<nat>, bm: set<nat>)
    requires SizesOk(log) && k <= |log| && Marked(log, k, s0, keep, lo, cur, run, s, n, bm0, bm)
    requires run.Some? && RingAt(log[..k], s0, cur) == run
    ensures Marked(log, k, s0, keep, lo, cur + 1, run, s, n + 1, bm0, bm)
  {
    hide RingAt, DisplacedIn, SizesOk;
    if s + n < cur {
      RingNoHole(log, k, s0, s, s + n, cur);
    }
  }

  lemma MarkedHole(log: seq<LogEntry>, k: nat, s0: nat, keep: Keep, lo: nat, cur: nat, run: Option<nat>, s: nat, n: nat, bm0: set<nat>, bm: set<nat>)
    requires k <= |log| && lo <= cur && Marked(log, k, s0, keep, lo, cur, run, s, n, bm0, bm) && RingAt(log[..k], s0, cur) == None
    ensures Marked(log, k, s0, keep, lo, cur + 1, run, s, n, bm0, bm)
  {
    hide RingAt;
  }

  /** With the run marked too, everything displaced so far is. */
  lemma MarkedFlush(log: seq<LogEntry>, k: nat, s0: nat, keep: Keep, lo: nat, cur: nat, run: Option<nat>, s: nat, n: nat, bm0: set<nat>, bm: set<nat>)
    requires k <= |log| && lo <= cur && Marked(log, k, s0, keep, lo, cur, run, s, n, bm0, bm)
    ensures bm + (if run.Some? then DisplacedIn(log, s0, keep, k, s, s + n) else {}) == bm0 + DisplacedIn(log, s0, keep, k, lo, cur)
  {
    hide RingAt, DisplacedIn, Displaced;
    if run.Some? {
      DisplacedSplit(log, s0, keep, k, lo, s, cur);
      DisplacedSplit(log, s0, keep, k, s, s + n, cur);
      DisplacedNone(log, s0, keep, k, s + n, cur);
    }
  }

  lemma MarkedTurns(log: seq<LogEntry>, k: nat, s0: nat, keep: Keep, lo: nat, cur: nat, bm0: set<nat>, bm: set<nat>)
    requires k <= |log| && lo <= cur && bm == bm0 + DisplacedIn(log, s0, keep, k, lo, cur)
    ensures Marked(log, k, s0, keep, lo, cur + 1, RingAt(log[..k], s0, cur), cur, 1, bm0, bm) || RingAt(log[..k], s0, cur) == None
  {
    hide RingAt, DisplacedIn;
  }

  // ---------------------------------------------------------------- the scanner

  class Scanner {
    const nvmm: array<nat>
    const entry: array<Option<nat>>
    const keep: Keep
    var bm: set<nat>
    var size: nat

    predicate Valid() {
      nvmm.Length == entry.Length > 0
    }

    /** The ring of a recovery thread: empty, its block numbers zeroed. */
    constructor (width: nat, keep: Keep)
      requires width > 0
      ensures Valid() && nvmm.Length == width && bm == {} && this.keep == keep && forall i :: 0 <= i < width ==> nvmm[i] == 0
    {
      nvmm := new nat[width](_ => 0);
      entry := new Option<nat>[width](_ => None);
      bm, size := {}, 0;
      this.keep := keep;
    }

    /** Mark the blocks of a run of `n` pages of entry `j` from page `p` on, if a snapshot keeps them. */
    method CheckOldEntry(j: nat, p: nat, n: nat, base: nat, k: nat, ghost log: seq<LogEntry>, ghost s0: nat)
      requires Valid() && k <= |log| && base <= p && p + n <= base + nvmm.Length && Holding(nvmm[..], entry[..], log, k, s0, base)
      requires forall q: nat | p <= q < p + n :: RingAt(log[..k], s0, q) == Some(j)
      modifies this`bm
      ensures bm == old(bm) + DisplacedIn(log, s0, keep, k, p, p + n)
    {
      hide RingAt, Holding, Displaced;
      if !keep(j, k) {
        DisplacedNone(log, s0, keep, k, p, p + n);
        return;
      }
      var i := 0;
      while i < n
        invariant i <= n && bm == old(bm) + DisplacedIn(log, s0, keep, k, p, p + i)
      {
        var index := p - base + i;
        CellAt(nvmm[..], entry[..], log, k, s0, keep, base, index);
        if nvmm[index] != 0 { bm := bm + {nvmm[index]}; }
        i := i + 1;
      }
    }

    /** Go through the pages `[lo, hi)` of the ring and mark what entry `k` displaces, one run at a time. */
    method CheckRange(lo: nat, hi: nat, base: nat, k: nat, ghost log: seq<LogEntry>, ghost s0: nat)
      requires Valid() && SizesOk(log) && k <= |log| && base <= lo && hi <= base + nvmm.Length && Holding(nvmm[..], entry[..], log, k, s0, base)
      modifies this`bm
      ensures bm == old(bm) + DisplacedIn(log, s0, keep, k, lo, hi)
    {
      hide RingAt, Holding, SizesOk, Displaced, Marked;
      if hi <= lo { return; }
      var cur := lo;
      var run: Option<nat>, s: nat, n: nat := None, 0, 0;
      ghost var bm0 := bm;
      MarkedStarts(log, k, s0, keep, lo, bm);
      while cur < hi
        invariant lo <= cur <= hi && Marked(log, k, s0, keep, lo, cur, run, s, n, bm0, bm)
      {
        var index := cur - base;
        CellAt(nvmm[..], entry[..], log, k, s0, keep, base, index);
        if nvmm[index] != 0 {
          if entry[index] != run {
            MarkedFlush(log, k, s0, keep, lo, cur, run, s, n, bm0, bm);
            MarkedRun(log, k, s0, keep, lo, cur, run, s, n, bm0, bm);
            if run.Some? { CheckOldEntry(run.value, s, n, base, k, log, s0); }
            MarkedTurns(log, k, s0, keep, lo, cur, bm0, bm);
            run, s, n := entry[index], cur, 1;
          } else {
            MarkedGrows(log, k, s0, keep, lo, cur, run, s, n, bm0, bm);
            n := n + 1;
          }
        } else {
          MarkedHole(log, k, s0, keep, lo, cur, run, s, n, bm0, bm);
        }
        cur := cur + 1;
      }
      MarkedFlush(log, k, s0, keep, lo, cur, run, s, n, bm0, bm);
      MarkedRun(log, k, s0, keep, lo, cur, run, s, n, bm0, bm);
      if run.Some? { CheckOldEntry(run.value, s, n, base, k, log, s0); }
    }

    /** Put the pages of a live write entry that fall into the ring there. */
    method SetRingArray(log: seq<LogEntry>, k: nat, base: nat, ghost s0: nat)
      requires Valid() && SizesOk(log) && k < |log| && log[k].Write? && !log[k].Dead() && Holding(nvmm[..], entry[..], log, k, s0, base)
      modifies this`bm, nvmm, entry
      ensures Holding(nvmm[..], entry[..], log, k + 1, s0, base)
      ensures bm == old(bm) + ChangedIn(log, s0, keep, k, base, base + nvmm.Length)
    {
      hide RingAt, SizesOk, KeptBy, DisplacedIn, ChangedIn, Pages, Tracked;
      var e := log[k];
      var lo := if e.pgoff < base then base else e.pgoff;
      var hi := if e.pgoff + e.num > base + nvmm.Length then base + nvmm.Length else e.pgoff + e.num;
      assert 0 < e.block by { WriteBlock(log, k); }
      CheckRange(lo, hi, base, k, log, s0);
      FillsRange(log, s0, keep, k, base, base + nvmm.Length, lo, hi);
      var p := lo;
      ghost var nv, en, marked := nvmm[..], entry[..], bm;
      while p < hi
        invariant lo <= p && (p <= hi || p == lo) && bm == marked
        invariant forall i :: 0 <= i < nvmm.Length ==>
                    nvmm[i] == (if lo <= base + i < p then Nvmm(e, base + i) else nv[i]) &&
                    entry[i] == (if lo <= base + i < p then Some(k) else en[i])
      {
        var index := p - base;
        entry[index] := Some(k);
        nvmm[index] := e.block + p - e.pgoff;
        p := p + 1;
      }
      HoldingFilled(nv, en, nvmm[..], entry[..], log, k, s0, base);
    }

    /** Clear the pages of the ring that a shrink cuts off. */
    method RingSetattrEntry(log: seq<LogEntry>, k: nat, base: nat, ghost s0: nat)
      requires Valid() && SizesOk(log) && k < |log| && log[k].SetAttr? && Holding(nvmm[..], entry[..], log, k, s0, base)
      requires size == Tracked(log[..k], s0)
      modifies this`bm, this`size, nvmm, entry
      ensures Holding(nvmm[..], entry[..], log, k + 1, s0, base) && size == log[k].size
      ensures bm == old(bm) + ChangedIn(log, s0, keep, k, base, base + nvmm.Length)
    {
      hide RingAt, SizesOk, KeptBy, DisplacedIn, ChangedIn, Tracked;
      var e := log[k];
      ghost var nv, en := nvmm[..], entry[..];
      var end := size;
      size := e.size;
      var lo, hi := 0, 0;
      if end > e.size {
        lo := Pages(e.size);
        var last := (end - 1) / BLOCK_SIZE;
        if lo < base { lo := base; }
        if last > base + nvmm.Length - 1 { last := base + nvmm.Length - 1; }
        hi := last + 1;
        CheckRange(lo, hi, base, k, log, s0);
        var p := lo;
        ghost var marked := bm;
        while p < hi
          invariant lo <= p && (p <= hi || p == lo) && bm == marked && size == e.size
          invariant forall i :: 0 <= i < nvmm.Length ==>
                      nvmm[i] == (if lo <= base + i < p then 0 else nv[i]) &&
                      entry[i] == (if lo <= base + i < p then None else en[i])
        {
          nvmm[p - base] := 0;
          entry[p - base] := None;
          p := p + 1;
        }
      }
      ClearsRange(log, s0, keep, k, base, base + nvmm.Length, lo, hi);
      HoldingCleared(nv, en, nvmm[..], entry[..], log, k, s0, base);
    }

    /** Mark what is left in the ring and empty it. */
    method SetFileBm(base: nat, lastBlock: nat, ghost log: seq<LogEntry>, ghost s0: nat)
      requires Valid() && base <= lastBlock && Holding(nvmm[..], entry[..], log, |log|, s0, base)
      requires forall p: nat | lastBlock < p :: RingAt(log, s0, p) == None
      modifies this`bm, nvmm, entry
      ensures bm == old(bm) + LeftIn(log, s0, base, base + nvmm.Length) && forall i :: 0 <= i < nvmm.Length ==> nvmm[i] == 0
    {
      hide RingAt, LeftAt;
      var last := if lastBlock >= base + nvmm.Length then nvmm.Length - 1 else lastBlock - base;
      var p := 0;
      ghost var nv, en := nvmm[..], entry[..];
      while p <= last
        invariant p <= last + 1 <= nvmm.Length
        invariant bm == old(bm) + LeftIn(log, s0, base, base + p)
        invariant forall i :: 0 <= i < nvmm.Length ==> nvmm[i] == if i < p then 0 else nv[i]
        invariant forall i :: p <= i < nvmm.Length ==> entry[i] == en[i]
      {
        LeftCell(nv, en, log, s0, base, p);
        if nvmm[p] != 0 {
          bm := bm + {nvmm[p]};
          nvmm[p] := 0;
          entry[p] := None;
        }
        p := p + 1;
      }
      forall i | p <= i < nvmm.Length ensures nvmm[i] == 0 {
        LeftCell(nv, en, log, s0, base, i);
      }
      LeftNothing(log, s0, base, base + p, base + nvmm.Length);
    }

    /** One pass over the log with the ring at `base`; returns one less than the end of the longest extent. */
    method Pass(log: seq<LogEntry>, base: nat, lastBlock: nat) returns (last: nat)
      requires Valid() && SizesOk(log) && forall i :: 0 <= i < nvmm.Length ==> nvmm[i] == 0
      modifies this`bm, this`size, nvmm, entry
      ensures Holding(nvmm[..], entry[..], log, |log|, old(size), base)
      ensures bm == old(bm) + KeptIn(log, old(size), keep, base, base + nvmm.Length)
      ensures last == if lastBlock < EndOf(log, |log|) then EndOf(log, |log|) - 1 else lastBlock
    {
      hide RingAt, SizesOk, ChangedIn, KeptAt, Holding, Pages, Tracked;
      var k := 0;
      last := lastBlock;
      ghost var s0 := size;
      HoldingNothing(nvmm[..], entry[..], log, s0, base);
      KeptStarts(log, s0, keep, base, base + nvmm.Length);
      while k < |log|
        invariant k <= |log| && Holding(nvmm[..], entry[..], log, k, s0, base) && size == Tracked(log[..k], s0)
        invariant bm == old(bm) + KeptIn(log[..k], s0, keep, base, base + nvmm.Length)
        invariant last == if lastBlock < EndOf(log, k) then EndOf(log, k) - 1 else lastBlock
      {
        KeptInNext(log, k, s0, keep, base, base + nvmm.Length);
        TrackedNext(log, k, s0);
        var e := log[k];
        var moved := false;
        match e {
          case Write(_, pgoff, num, _, newSize, invalid, _) =>
            size := newSize;
            if num != invalid {
              WriteNum(log, k);
              if pgoff < base + nvmm.Length && pgoff + num > base {
                SetRingArray(log, k, base, s0);
                moved := true;
              }
              if last < pgoff + num - 1 { last := pgoff + num - 1; }
            }
          case SetAttr(_, _, _, _) =>
            RingSetattrEntry(log, k, base, s0);
            moved := true;
          case Other(_, _) =>
        }
        if !moved {
          OutsideRing(log, k, s0, keep, nvmm[..], entry[..], base);
        }
        k := k + 1;
      }
      assert log[..k] == log;
    }

    /**
     Mark every block the file log accounts for: slide the ring over the file until it has passed
     the last page any live entry maps.
     */
    method TraverseFileInodeLog(log: seq<LogEntry>)
      requires Valid() && SizesOk(log) && forall i :: 0 <= i < nvmm.Length ==> nvmm[i] == 0
      modifies this`bm, this`size, nvmm, entry
      ensures bm == old(bm) + MarksIn(log, 0, keep, 0, EndOf(log, |log|))
      ensures forall b :: b in bm <==> b in old(bm) || Wanted(log, keep, b)
      ensures forall i :: 0 <= i < nvmm.Length ==> nvmm[i] == 0
    {
      hide RingAt, SizesOk, KeptIn, LeftIn, MarksAt, Holding, Pages, EndOf, Wanted;
      MarksAll(log, keep);
      var base, last := 0, 0;
      while true
        invariant base == 0 || base <= last
        invariant last == if base == 0 || EndOf(log, |log|) == 0 then 0 else EndOf(log, |log|) - 1
        invariant bm == old(bm) + MarksIn(log, 0, keep, 0, base)
        invariant forall i :: 0 <= i < nvmm.Length ==> nvmm[i] == 0
        decreases EndOf(log, |log|) - base
      {
        ghost var s0 := size;
        last := Pass(log, base, last);
        NothingPast(log, s0, last);
        SetFileBm(base, last, log, s0);
        WindowMarks(log, s0, keep, base, base + nvmm.Length);
        MarksSplit(log, 0, keep, 0, base, base + nvmm.Length);
        if last < base + nvmm.Length {
          MarksEnd(log, keep, base + nvmm.Length);
          break;
        }
        base := base + nvmm.Length;
      }
    }
  }

  /** What entry `k` marks in the pages `[lo, hi)`. */
  function ChangedIn(log: seq<LogEntry>, s0: nat, keep: Keep, k: nat, lo: nat, hi: nat): set<nat>
    requires k < |log|
    decreases hi
  {
    if hi <= lo then {} else ChangedIn(log, s0, keep, k, lo, hi - 1) + KeptBy(log, s0, keep, k, hi - 1)
  }

  /** The entry marks exactly what it displaces when `[a, b)` are the pages it fills or clears. */
  lemma {:induction false} ChangedIsDisplaced(log: seq<LogEntry>, s0: nat, keep: Keep, k: nat, lo: nat, hi: nat, a: nat, b: nat)
    requires k < |log| && lo <= a && (a < b ==> b <= hi)
    requires forall p: nat | lo <= p < hi :: (a <= p < b) == (Fills(log[k], p) || Clears(log[k], Tracked(log[..k], s0), p))
    ensures ChangedIn(log, s0, keep, k, lo, hi) == DisplacedIn(log, s0, keep, k, a, b)
    decreases hi
  {
    hide RingAt, Tracked, Fills, Clears;
    if lo < hi {
      var p := hi - 1;
      if a < b && b == hi {
        ChangedIsDisplaced(log, s0, keep, k, lo, p, a, p);
      } else {
        ChangedIsDisplaced(log, s0, keep, k, lo, p, a, b);
      }
    }
  }

  lemma WriteBlock(log: seq<LogEntry>, k: nat)
    requires SizesOk(log) && k < |log| && log[k].Write?
    ensures 0 < log[k].block
  {
    assert SizeOk(log, k);
  }

  lemma FillsRange(log: seq<LogEntry>, s0: nat, keep: Keep, k: nat, lo: nat, hi: nat, a: nat, b: nat)
    requires k < |log| && log[k].Write? && !log[k].Dead()
    requires a == (if log[k].pgoff < lo then lo else log[k].pgoff) && b == (if log[k].pgoff + log[k].num > hi then hi else log[k].pgoff + log[k].num)
    ensures ChangedIn(log, s0, keep, k, lo, hi) == DisplacedIn(log, s0, keep, k, a, b)
  {
    hide RingAt, Tracked, DisplacedIn, ChangedIn;
    ChangedIsDisplaced(log, s0, keep, k, lo, hi, a, b);
  }

  lemma ClearsRange(log: seq<LogEntry>, s0: nat, keep: Keep, k: nat, lo: nat, hi: nat, a: nat, b: nat)
    requires k < |log| && log[k].SetAttr? && lo < hi
    requires var size := Tracked(log[..k], s0);
             if size <= log[k].size then a == b == 0
             else a == (if Pages(log[k].size) < lo then lo else Pages(log[k].size)) &&
                  b == (if (size - 1) / BLOCK_SIZE > hi - 1 then hi else (size - 1) / BLOCK_SIZE + 1)
    ensures ChangedIn(log, s0, keep, k, lo, hi) == DisplacedIn(log, s0, keep, k, a, b)
    ensures b <= a ==> ChangedIn(log, s0, keep, k, lo, hi) == {}
  {
    hide RingAt, Tracked;
    var size := Tracked(log[..k], s0);
    if size <= log[k].size {
      ChangedIsDisplaced(log, s0, keep, k, lo, hi, lo, lo);
    } else {
      assert (size - 1) / BLOCK_SIZE + 1 == Pages(size);
      ChangedIsDisplaced(log, s0, keep, k, lo, hi, a, b);
    }
  }

  lemma HoldingFilled(nv: seq<nat>, en: seq<Option<nat>>, nv': seq<nat>, en': seq<Option<nat>>, log: seq<LogEntry>, k: nat, s0: nat, base: nat)
    requires k < |log| && log[k].Write? && !log[k].Dead() && 0 < log[k].block && Holding(nv, en, log, k, s0, base)
    requires |nv| == |nv'| == |en'|
    requires forall i :: 0 <= i < |nv| ==>
               nv'[i] == (if log[k].Covers(base + i) then Nvmm(log[k], base + i) else nv[i]) &&
               en'[i] == (if log[k].Covers(base + i) then Some(k) else en[i])
    ensures Holding(nv', en', log, k + 1, s0, base)
  {
    hide RingAt, Tracked;
    forall i: nat | i < |nv'| ensures Cell(nv'[i], en'[i], log, k + 1, s0, base + i) {
      assert Cell(nv[i], en[i], log, k, s0, base + i);
      RingNext(log, k, s0, base + i);
    }
  }

  lemma HoldingCleared(nv: seq<nat>, en: seq<Option<nat>>, nv': seq<nat>, en': seq<Option<nat>>, log: seq<LogEntry>, k: nat, s0: nat, base: nat)
    requires k < |log| && !log[k].Write? && Holding(nv, en, log, k, s0, base)
    requires |nv| == |nv'| == |en'|
    requires forall i :: 0 <= i < |nv| ==>
               var c := Clears(log[k], Tracked(log[..k], s0), base + i);
               nv'[i] == (if c then 0 else nv[i]) && en'[i] == (if c then None else en[i])
    ensures Holding(nv', en', log, k + 1, s0, base)
  {
    hide RingAt, Tracked;
    forall i: nat | i < |nv'| ensures Cell(nv'[i], en'[i], log, k + 1, s0, base + i) {
      assert Cell(nv[i], en[i], log, k, s0, base + i);
      RingNext(log, k, s0, base + i);
    }
  }

  lemma MarkedRun(log: seq<LogEntry>, k: nat, s0: nat, keep: Keep, lo: nat, cur: nat, run: Option<nat>, s: nat, n: nat, bm0: set<nat>, bm: set<nat>)
    requires k <= |log| && Marked(log, k, s0, keep, lo, cur, run, s, n, bm0, bm)
    ensures RunIs(log, k, s0, lo, cur, run, s, n)
  {
  }

  lemma CellAt(nvmm: seq<nat>, entry: seq<Option<nat>>, log: seq<LogEntry>, k: nat, s0: nat, keep: Keep, base: nat, i: nat)
    requires Holding(nvmm, entry, log, k, s0, base) && i < |nvmm|
    ensures nvmm[i] == 0 <==> RingAt(log[..k], s0, base + i) == None
    ensures nvmm[i] != 0 ==> entry[i] == RingAt(log[..k], s0, base + i) && entry[i].Some?
    ensures nvmm[i] != 0 ==> Displaced(log, s0, keep, k, base + i) == if keep(entry[i].value, k) then {nvmm[i]} else {}
    ensures nvmm[i] == 0 ==> Displaced(log, s0, keep, k, base + i) == {}
  {
    hide RingAt;
    assert Cell(nvmm[i], entry[i], log, k, s0, base + i);
  }

  // ---------------------------------------------------------------- what is left in the ring

  function LeftAt(log: seq<LogEntry>, s0: nat, p: nat): set<nat> {
    match RingAt(log, s0, p) case None => {} case Some(k) => {Nvmm(log[k], p)}
  }

  function LeftIn(log: seq<LogEntry>, s0: nat, lo: nat, hi: nat): set<nat>
    decreases hi
  {
    if hi <= lo then {} else LeftIn(log, s0, lo, hi - 1) + LeftAt(log, s0, hi - 1)
  }

  lemma LeftCell(nvmm: seq<nat>, entry: seq<Option<nat>>, log: seq<LogEntry>, s0: nat, base: nat, i: nat)
    requires Holding(nvmm, entry, log, |log|, s0, base) && i < |nvmm|
    ensures LeftAt(log, s0, base + i) == if nvmm[i] != 0 then {nvmm[i]} else {}
    ensures RingAt(log, s0, base + i) == None ==> nvmm[i] == 0
  {
    hide RingAt;
    assert Cell(nvmm[i], entry[i], log, |log|, s0, base + i);
    assert log[..|log|] == log;
  }

  lemma {:induction false} LeftNothing(log: seq<LogEntry>, s0: nat, lo: nat, mid: nat, hi: nat)
    requires lo <= mid <= hi && forall p: nat | mid <= p < hi :: RingAt(log, s0, p) == None
    ensures LeftIn(log, s0, lo, hi) == LeftIn(log, s0, lo, mid)
    decreases hi
  {
    hide RingAt;
    if mid < hi {
      LeftNothing(log, s0, lo, mid, hi - 1);
    }
  }

  // ---------------------------------------------------------------- one pass

  function KeptIn(log: seq<LogEntry>, s0: nat, keep: Keep, lo: nat, hi: nat): set<nat>
    decreases hi
  {
    if hi <= lo then {} else KeptIn(log, s0, keep, lo, hi - 1) + KeptAt(log, s0, keep, hi - 1)
  }

  lemma {:induction false} KeptStarts(log: seq<LogEntry>, s0: nat, keep: Keep, lo: nat, hi: nat)
    ensures KeptIn(log[..0], s0, keep, lo, hi) == {}
    decreases hi
  {
    if lo < hi {
      KeptStarts(log, s0, keep, lo, hi - 1);
    }
  }

  lemma {:induction false} KeptInNext(log: seq<LogEntry>, k: nat, s0: nat, keep: Keep, lo: nat, hi: nat)
    requires k < |log|
    ensures KeptIn(log[..k + 1], s0, keep, lo, hi) == KeptIn(log[..k], s0, keep, lo, hi) + ChangedIn(log, s0, keep, k, lo, hi)
    decreases hi
  {
    hide RingAt, KeptAt, KeptBy, Tracked;
    if lo < hi {
      KeptInNext(log, k, s0, keep, lo, hi - 1);
      KeptNext(log, k, s0, keep, hi - 1);
    }
  }

  lemma HoldingNothing(nvmm: seq<nat>, entry: seq<Option<nat>>, log: seq<LogEntry>, s0: nat, base: nat)
    requires |nvmm| == |entry| && forall i :: 0 <= i < |nvmm| ==> nvmm[i] == 0
    ensures Holding(nvmm, entry, log, 0, s0, base) && Tracked(log[..0], s0) == s0
  {
  }

  lemma WriteNum(log: seq<LogEntry>, k: nat)
    requires SizesOk(log) && k < |log| && log[k].Write?
    ensures 0 < log[k].num
  {
    assert SizeOk(log, k);
  }

  /** An entry with no page in the ring that it fills or clears leaves the ring as it is. */
  lemma OutsideRing(log: seq<LogEntry>, k: nat, s0: nat, keep: Keep, nvmm: seq<nat>, entry: seq<Option<nat>>, base: nat)
    requires k < |log| && !log[k].SetAttr? && Holding(nvmm, entry, log, k, s0, base)
    requires forall p: nat | base <= p < base + |nvmm| :: !Fills(log[k], p)
    ensures Holding(nvmm, entry, log, k + 1, s0, base) && ChangedIn(log, s0, keep, k, base, base + |nvmm|) == {}
  {
    hide RingAt, Tracked;
    ChangedIsDisplaced(log, s0, keep, k, base, base + |nvmm|, base, base);
    forall i: nat | i < |nvmm| ensures Cell(nvmm[i], entry[i], log, k + 1, s0, base + i) {
      assert Cell(nvmm[i], entry[i], log, k, s0, base + i);
      RingNext(log, k, s0, base + i);
    }
  }

  /** One past the last page that any of the first `k` entries, if live, maps. */
  function EndOf(log: seq<LogEntry>, k: nat): nat
    requires k <= |log|
  {
    if k == 0 then 0
    else
      var e := log[k - 1];
      var before := EndOf(log, k - 1);
      if e.Write? && !e.Dead() && before < e.pgoff + e.num then e.pgoff + e.num else before
  }

  // ---------------------------------------------------------------- all passes

  lemma {:induction false} EndCovers(log: seq<LogEntry>, k: nat, p: nat)
    requires k <= |log| && EndOf(log, k) <= p
    ensures RingAt(log[..k], 0, p) == None && forall keep: Keep :: KeptAt(log[..k], 0, keep, p) == {}
  {
    if k > 0 {
      EndCovers(log, k - 1, p);
      RingNext(log, k - 1, 0, p);
      forall keep: Keep ensures KeptAt(log[..k], 0, keep, p) == {} { KeptNext(log, k - 1, 0, keep, p); }
    }
  }

  lemma NothingPast(log: seq<LogEntry>, s0: nat, last: nat)
    requires EndOf(log, |log|) <= last + 1
    ensures forall p: nat | last < p :: RingAt(log, s0, p) == None
  {
    hide RingAt, EndOf;
    assert log[..|log|] == log;
    forall p: nat | last < p ensures RingAt(log, s0, p) == None {
      EndCovers(log, |log|, p);
      StaleSize(log, s0, 0, p);
    }
  }

  lemma {:induction false} MarksSplit(log: seq<LogEntry>, s0: nat, keep: Keep, lo: nat, mid: nat, hi: nat)
    requires lo <= mid <= hi
    ensures MarksIn(log, s0, keep, lo, hi) == MarksIn(log, s0, keep, lo, mid) + MarksIn(log, s0, keep, mid, hi)
    decreases hi
  {
    hide MarksAt;
    if mid < hi {
      MarksSplit(log, s0, keep, lo, mid, hi - 1);
    }
  }

  /** What one pass marks, together with what it leaves in the ring, is what the replay marks in its window. */
  lemma WindowMarks(log: seq<LogEntry>, s0: nat, keep: Keep, lo: nat, hi: nat)
    ensures KeptIn(log, s0, keep, lo, hi) + LeftIn(log, s0, lo, hi) == MarksIn(log, 0, keep, lo, hi)
  {
    hide KeptIn, LeftIn, MarksIn;
    WindowMarksHere(log, s0, keep, lo, hi);
    StaleMarksIn(log, s0, 0, keep, lo, hi);
  }

  lemma {:induction false} WindowMarksHere(log: seq<LogEntry>, s0: nat, keep: Keep, lo: nat, hi: nat)
    ensures KeptIn(log, s0, keep, lo, hi) + LeftIn(log, s0, lo, hi) == MarksIn(log, s0, keep, lo, hi)
    decreases hi
  {
    hide RingAt, KeptAt;
    if lo < hi {
      WindowMarksHere(log, s0, keep, lo, hi - 1);
    }
  }

  lemma {:induction false} MarksEnd(log: seq<LogEntry>, keep: Keep, hi: nat)
    requires EndOf(log, |log|) <= hi
    ensures MarksIn(log, 0, keep, 0, hi) == MarksIn(log, 0, keep, 0, EndOf(log, |log|))
    decreases hi
  {
    hide RingAt, KeptAt, EndOf;
    if EndOf(log, |log|) < hi {
      MarksEnd(log, keep, hi - 1);
      assert log[..|log|] == log;
      EndCovers(log, |log|, hi - 1);
    }
  }

  // ---------------------------------------------------------------- what is marked in the end

  /** A rebuild of the log leads page `p` to block `b`. */
  ghost predicate Leads(log: seq<LogEntry>, p: nat, b: nat) {
    LastLive(log, p).Some? && Nvmm(log[LastLive(log, p).value], p) == b
  }

  /** Entry `k` takes page `p` away from block `b`, which a snapshot keeps. */
  ghost predicate TakesKept(log: seq<LogEntry>, keep: Keep, k: nat, p: nat, b: nat) {
    && k < |log| && ((log[k].Covers(p) && !log[k].Dead()) || (log[k].SetAttr? && log[k].size <= p * BLOCK_SIZE))
    && Leads(log[..k], p, b) && keep(LastLive(log[..k], p).value, k)
  }

  ghost predicate WantedAt(log: seq<LogEntry>, keep: Keep, p: nat, b: nat) {
    Leads(log, p, b) || exists k: nat :: TakesKept(log, keep, k, p, b)
  }

  /** A block to be kept out of the free lists: the file leads to it, or it was replaced and a snapshot keeps it. */
  ghost predicate Wanted(log: seq<LogEntry>, keep: Keep, b: nat) {
    exists p: nat :: WantedAt(log, keep, p, b)
  }

  /** What takes a page away from an entry, told without the size the scan believes in. */
  lemma KeptByIs(log: seq<LogEntry>, keep: Keep, k: nat, p: nat, b: nat)
    requires SizesOk(log) && k < |log|
    ensures b in KeptBy(log, 0, keep, k, p) <==> TakesKept(log, keep, k, p, b)
  {
    hide LastLive, RingAt, SizesOk, Tracked, LastSize, Pages;
    FileCompact.PrefixSizes(log, k);
    RingIsRebuild(log[..k], p);
    TrackedIsLast(log[..k]);
    PagesAre(LastSize(log[..k]), p);
    if log[k].SetAttr? { PagesAre(log[k].size, p); }
  }

  lemma {:induction false} KeptExact(log: seq<LogEntry>, keep: Keep, n: nat, p: nat, b: nat)
    requires SizesOk(log) && n <= |log|
    ensures b in KeptAt(log[..n], 0, keep, p) <==> exists k: nat :: k < n && TakesKept(log, keep, k, p, b)
  {
    hide KeptAt, KeptBy, TakesKept, SizesOk;
    if n == 0 {
      NothingKeptYet(log, keep, p);
    } else {
      KeptExact(log, keep, n - 1, p, b);
      KeptNext(log, n - 1, 0, keep, p);
      KeptByIs(log, keep, n - 1, p, b);
    }
  }

  lemma NothingKeptYet(log: seq<LogEntry>, keep: Keep, p: nat)
    ensures KeptAt(log[..0], 0, keep, p) == {}
  {
  }

  lemma MarksAtExact(log: seq<LogEntry>, keep: Keep, p: nat, b: nat)
    requires SizesOk(log)
    ensures b in MarksAt(log, 0, keep, p) <==> WantedAt(log, keep, p, b)
  {
    hide RingAt, LastLive, KeptAt, SizesOk;
    RingIsRebuild(log, p);
    KeptExact(log, keep, |log|, p, b);
    assert log[..|log|] == log;
  }

  lemma {:induction false} MarksInAt(log: seq<LogEntry>, keep: Keep, lo: nat, hi: nat, b: nat)
    ensures b in MarksIn(log, 0, keep, lo, hi) <==> exists p: nat :: lo <= p < hi && b in MarksAt(log, 0, keep, p)
    decreases hi
  {
    hide MarksAt;
    if lo < hi { MarksInAt(log, keep, lo, hi - 1, b); }
  }

  /** All windows together mark exactly the blocks wanted. */
  lemma MarksExact(log: seq<LogEntry>, keep: Keep, b: nat)
    requires SizesOk(log)
    ensures b in MarksIn(log, 0, keep, 0, EndOf(log, |log|)) <==> Wanted(log, keep, b)
  {
    hide MarksAt, MarksIn, EndOf, WantedAt, SizesOk;
    MarksInAt(log, keep, 0, EndOf(log, |log|), b);
    forall p: nat ensures b in MarksAt(log, 0, keep, p) <==> WantedAt(log, keep, p, b) {
      MarksAtExact(log, keep, p, b);
    }
    forall p: nat | b in MarksAt(log, 0, keep, p) ensures p < EndOf(log, |log|) {
      MarkedBefore(log, keep, p, b);
    }
  }

  lemma MarksAll(log: seq<LogEntry>, keep: Keep)
    requires SizesOk(log)
    ensures forall b: nat :: b in MarksIn(log, 0, keep, 0, EndOf(log, |log|)) <==> Wanted(log, keep, b)
  {
    hide Wanted, MarksIn, EndOf, SizesOk;
    forall b: nat ensures b in MarksIn(log, 0, keep, 0, EndOf(log, |log|)) <==> Wanted(log, keep, b) {
      MarksExact(log, keep, b);
    }
  }

  lemma MarkedBefore(log: seq<LogEntry>, keep: Keep, p: nat, b: nat)
    requires b in MarksAt(log, 0, keep, p)
    ensures p < EndOf(log, |log|)
  {
    hide RingAt, KeptAt, EndOf;
    assert log[..|log|] == log;
    if EndOf(log, |log|) <= p { EndCovers(log, |log|, p); }
  }
}
