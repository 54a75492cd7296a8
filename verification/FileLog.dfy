/**
 A NOVA regular file: its log of write and attribute entries, the index from page offsets to write
 entries, and the accounting of invalid pages that garbage collection and rebuild rely on.

 No snapshot is live here, so a replaced block is freed at once.
 */
module FileLog {
  import opened Common

  const BLOCK_SIZE: nat := 4096

  /**
   `page` is the log page an entry sits in.  A write entry maps `num` pages from `pgoff` on to the
   blocks from `block` on; `invalid` of them are no longer mapped to it.  An attribute entry sets the
   size, or repeats it and may be dropped once a later one stands.  `size` is the file size recorded.
   Other entries, such as link changes, say nothing about pages.
   */
  datatype LogEntry =
    | Write(page: nat, pgoff: nat, num: nat, block: nat, size: nat, invalid: nat, reassigned: bool)
    | SetAttr(page: nat, size: nat, setsSize: bool, dropped: bool)
    | Other(page: nat, dropped: bool)
  {
    predicate Covers(p: nat) { Write? && pgoff <= p < pgoff + num }

    /** The entry counts as invalid for garbage collection. */
    predicate Dead() { if Write? then invalid == num else dropped }
  }

  /** What overwriting and truncating keep account of; `invalidEntries` counts dead entries per log page. */
  datatype Acct = Acct(log: seq<LogEntry>, free: multiset<nat>, invalidEntries: multiset<nat>)

  /** `index` maps a page offset to the position of its write entry in the log. */
  datatype File = File(acct: Acct, index: map<nat, nat>, size: nat)

  function Pages(size: nat): nat { (size + BLOCK_SIZE - 1) / BLOCK_SIZE }

  /** The pages of a file are those that begin below its size. */
  lemma PagesAre(size: nat, p: nat)
    ensures p < Pages(size) <==> p * BLOCK_SIZE < size
  {
  }

  /** The block that a write entry holds for a page. */
  function Nvmm(e: LogEntry, p: nat): nat
    requires e.Covers(p)
  {
    e.block + (p - e.pgoff)
  }

  predicate Between(lo: nat, n: nat, b: nat) { lo <= b < lo + n }

  function BlockRange(lo: nat, n: nat): (r: multiset<nat>)
    ensures forall b :: r[b] == if lo <= b < lo + n then 1 else 0
  {
    multiset(set b: nat | lo <= b < lo + n && Between(lo, n, b))
  }

  // ---------------------------------------------------------------- freeing, run by run and page by page

  ghost predicate IndexOk(log: seq<LogEntry>, index: map<nat, nat>) {
    forall p | p in index :: index[p] < |log| && log[index[p]].Covers(p)
  }

  function Invalidated(e: LogEntry, n: nat): LogEntry
    requires e.Write?
  {
    e.(invalid := e.invalid + n, reassigned := true)
  }

  /** Free `n` blocks of entry `k`, the first of them for page `p`. */
  function FreeRun(a: Acct, k: nat, p: nat, n: nat): Acct
    requires k < |a.log| && a.log[k].Covers(p)
  {
    var e := Invalidated(a.log[k], n);
    Acct(a.log[k := e],
         a.free + BlockRange(Nvmm(a.log[k], p), n),
         a.invalidEntries + if e.Dead() then multiset{e.page} else multiset{})
  }

  /** Unmap one page, if it is mapped, and free its block. */
  function Drop(st: File, p: nat): (r: File)
    requires IndexOk(st.acct.log, st.index)
    ensures SameShape(st.acct.log, r.acct.log) && r.size == st.size && r.index == st.index - {p}
    ensures IndexOk(r.acct.log, r.index)
  {
    if p !in st.index then st else File(FreeRun(st.acct, st.index[p], p, 1), st.index - {p}, st.size)
  }

  /** Unmap the pages `[lo, hi)` one at a time. */
  function DropRange(st: File, lo: nat, hi: nat): (r: File)
    requires IndexOk(st.acct.log, st.index)
    ensures IndexOk(r.acct.log, r.index) && SameShape(st.acct.log, r.acct.log) && r.size == st.size
    decreases hi
  {
    if hi <= lo then st else Drop(DropRange(st, lo, hi - 1), hi - 1)
  }

  lemma {:induction false} DropRangeAt(st: File, lo: nat, hi: nat, p: nat)
    requires IndexOk(st.acct.log, st.index)
    ensures Lookup(DropRange(st, lo, hi).index, p) == if lo <= p < hi then None else Lookup(st.index, p)
    decreases hi
  {
    if lo < hi {
      DropRangeAt(st, lo, hi - 1, p);
    }
  }

  /** The logs differ in `invalid` and `reassigned` alone. */
  ghost predicate SameShape(s: seq<LogEntry>, t: seq<LogEntry>) {
    |s| == |t| && forall k :: 0 <= k < |s| ==> Shape(s[k]) == Shape(t[k])
  }

  function Shape(e: LogEntry): LogEntry {
    if e.Write? then e.(invalid := 0, reassigned := false) else e
  }

  // ---------------------------------------------------------------- the file operations

  /** The index once the `n` pages from `lo` on map to entry `k`. */
  function Repoint(index: map<nat, nat>, lo: nat, n: nat, k: nat): map<nat, nat> {
    index + map p: nat | lo <= p < lo + n && Between(lo, n, p) :: k
  }

  /** Point the pages of write entry `k` at it. */
  function Point(st: File, k: nat): File
    requires k < |st.acct.log| && st.acct.log[k].Write?
  {
    st.(index := Repoint(st.index, st.acct.log[k].pgoff, st.acct.log[k].num, k))
  }

  /** Point the pages of write entry `k` at it, freeing what they mapped to before. */
  function DoAssign(st: File, k: nat): File
    requires IndexOk(st.acct.log, st.index) && k < |st.acct.log| && st.acct.log[k].Write?
  {
    var t := DropRange(st, st.acct.log[k].pgoff, st.acct.log[k].pgoff + st.acct.log[k].num);
    assert Shape(t.acct.log[k]) == Shape(st.acct.log[k]);
    Point(t, k)
  }

  /** Assign every write entry from position `k` on, in log order. */
  function AssignAll(st: File, k: nat): File
    requires IndexOk(st.acct.log, st.index)
    decreases |st.acct.log| - k
  {
    if k >= |st.acct.log| then st
    else if !st.acct.log[k].Write? then AssignAll(st, k + 1)
    else
      AssignKeepsIndexOk(st, k);
      AssignAll(DoAssign(st, k), k + 1)
  }

  lemma DropRangeEntry(st: File, lo: nat, hi: nat, k: nat)
    requires IndexOk(st.acct.log, st.index) && k < |st.acct.log| && st.acct.log[k].Write?
    ensures var f := DropRange(st, lo, hi).acct.log[k];
            f.Write? && f.pgoff == st.acct.log[k].pgoff && f.num == st.acct.log[k].num && f.block == st.acct.log[k].block
  {
    var t := DropRange(st, lo, hi);
    hide DropRange;
    assert Shape(t.acct.log[k]) == Shape(st.acct.log[k]);
  }

  lemma AssignKeepsIndexOk(st: File, k: nat)
    requires IndexOk(st.acct.log, st.index) && k < |st.acct.log| && st.acct.log[k].Write?
    ensures var u := DoAssign(st, k); IndexOk(u.acct.log, u.index) && SameShape(st.acct.log, u.acct.log) && u.size == st.size
  {
    hide DropRange, Shape;
    var u := DoAssign(st, k);
    DropRangeEntry(st, st.acct.log[k].pgoff, st.acct.log[k].pgoff + st.acct.log[k].num, k);
    assert forall p: nat :: Between(st.acct.log[k].pgoff, st.acct.log[k].num, p) ==> u.acct.log[k].Covers(p);
  }

  /** A write appends one entry for each extent of blocks it was given; an attribute entry may set the size. */
  datatype Step =
    | WriteFile(es: seq<LogEntry>)
    | SetSize(page: nat, size: nat)
    | OtherEntry(e: LogEntry)
    | Invalidate(k: nat)
    | Collect(u: File, at: seq<nat>)

  function BlocksOf(e: LogEntry): multiset<nat> {
    if e.Write? then BlockRange(e.block, e.num) else multiset{}
  }

  /** The blocks of the entries from `k` on. */
  function BlocksFrom(log: seq<LogEntry>, k: nat): multiset<nat>
    decreases |log| - k
  {
    if k >= |log| then multiset{} else BlocksOf(log[k]) + BlocksFrom(log, k + 1)
  }

  function NewSize(st: File, es: seq<LogEntry>): nat {
    if es == [] || !es[|es| - 1].Write? then st.size else es[|es| - 1].size
  }

  /** An extent fits the size its entry records, and each entry's size is no less than the one before. */
  ghost predicate ExtentOk(es: seq<LogEntry>, i: nat, size: nat)
    requires i < |es|
  {
    var e := es[i];
    && e.Write? && 0 < e.num && 0 < e.block && e.invalid == 0 && !e.reassigned && e.pgoff + e.num <= Pages(e.size)
    && if i == 0 then size <= e.size else es[i - 1].Write? && es[i - 1].size <= e.size
  }

  /** The same entry, perhaps copied to another log page. */
  predicate Moved(e: LogEntry, f: LogEntry) { f == e.(page := f.page) }

  /** `t` is `s` with entries left out; `at` says where each kept entry was. */
  ghost predicate Embeds(s: seq<LogEntry>, t: seq<LogEntry>, at: seq<nat>) {
    && |at| == |t|
    && (forall i :: 0 <= i < |at| ==> at[i] < |s| && Moved(s[at[i]], t[i]))
    && (forall i, j :: 0 <= i < j < |at| ==> at[i] < at[j])
  }

  ghost predicate Kept(at: seq<nat>, k: nat) {
    exists i :: 0 <= i < |at| && at[i] == k
  }

  /** Only dead entries are left out. */
  ghost predicate DropsDead(s: seq<LogEntry>, at: seq<nat>) {
    forall k: nat | k < |s| && !Kept(at, k) :: s[k].Dead()
  }

  /** Garbage collection leaves out dead entries only and points every page at the copy of its entry. */
  ghost predicate Compaction(st: File, u: File, at: seq<nat>) {
    && Embeds(st.acct.log, u.acct.log, at)
    && DropsDead(st.acct.log, at)
    && u.size == st.size && u.acct.free == st.acct.free && u.index.Keys == st.index.Keys
    && (forall p | p in u.index :: u.index[p] < |at| && at[u.index[p]] == st.index[p])
    && u.acct.invalidEntries == Sum(u.acct.log, DeadPage)
  }

  /** The blocks of a write come from the allocator. */
  ghost predicate Enabled(st: File, s: Step) {
    match s
    case WriteFile(es) => BlocksFrom(es, 0) <= st.acct.free && forall i :: 0 <= i < |es| ==> ExtentOk(es, i, st.size)
    case SetSize(_, _) => true
    case OtherEntry(e) => !e.Write? && !e.dropped && (e.SetAttr? ==> !e.setsSize && e.size == st.size)
    case Invalidate(k) =>
      && k < |st.acct.log| && !st.acct.log[k].Write? && !st.acct.log[k].dropped
      && (st.acct.log[k].SetAttr? ==> !st.acct.log[k].setsSize && exists j :: k < j < |st.acct.log| && st.acct.log[j].SetAttr?)
    case Collect(u, at) => Compaction(st, u, at)
  }

  lemma {:induction false} SizesRise(es: seq<LogEntry>, size: nat, i: nat, j: nat)
    requires (forall k :: 0 <= k < |es| ==> ExtentOk(es, k, size)) && i <= j < |es|
    ensures es[i].Write? && es[j].Write? && size <= es[i].size <= es[j].size
    decreases i + j
  {
    hide Pages;
    assert ExtentOk(es, j, size);
    if i < j {
      SizesRise(es, size, i, j - 1);
    } else if i > 0 {
      SizesRise(es, size, i - 1, j - 1);
    }
  }

  lemma PagesMono(a: nat, b: nat)
    requires a <= b
    ensures Pages(a) <= Pages(b)
  {
  }

  lemma WriteFits(st: File, es: seq<LogEntry>)
    requires Enabled(st, WriteFile(es))
    ensures st.size <= NewSize(st, es)
    ensures forall e | e in es :: e.Write? && 0 < e.num && e.invalid == 0 && !e.reassigned && e.pgoff + e.num <= Pages(NewSize(st, es))
  {
    hide Pages, BlocksFrom;
    if es != [] {
      SizesRise(es, st.size, 0, |es| - 1);
    }
    forall e | e in es ensures e.Write? && 0 < e.num && e.invalid == 0 && !e.reassigned && e.pgoff + e.num <= Pages(NewSize(st, es)) {
      var i :| 0 <= i < |es| && es[i] == e;
      assert ExtentOk(es, i, st.size);
      SizesRise(es, st.size, i, |es| - 1);
      PagesMono(e.size, NewSize(st, es));
    }
  }

  function Append(st: File, es: seq<LogEntry>): (r: File)
    ensures IndexOk(st.acct.log, st.index) ==> IndexOk(r.acct.log, r.index)
  {
    st.(acct := st.acct.(log := st.acct.log + es))
  }

  /** The entries of a write are in the log, its blocks taken, but no page points at them yet. */
  function Logged(st: File, es: seq<LogEntry>): (r: File)
    ensures IndexOk(st.acct.log, st.index) ==> IndexOk(r.acct.log, r.index)
  {
    File(Acct(st.acct.log + es, st.acct.free - BlocksFrom(es, 0), st.acct.invalidEntries), st.index, NewSize(st, es))
  }

  /** Each operation appends its entries to the log first. */
  function Apply(st: File, s: Step): File
    requires IndexOk(st.acct.log, st.index)
  {
    match s
    case WriteFile(es) => AssignAll(Logged(st, es), |st.acct.log|)
    case SetSize(page, size) => DropRange(Append(st, [SetAttr(page, size, true, false)]), Pages(size), Pages(st.size)).(size := size)
    case OtherEntry(e) => Append(st, [e])
    case Invalidate(k) => if k < |st.acct.log| && !st.acct.log[k].Write? then DropEntry(st, k) else st
    case Collect(u, _) => u
  }

  /** An attribute or link entry that a later one supersedes is marked, and its log page charged. */
  function DropEntry(st: File, k: nat): (r: File)
    requires k < |st.acct.log| && !st.acct.log[k].Write?
    ensures IndexOk(st.acct.log, st.index) ==> IndexOk(r.acct.log, r.index)
  {
    var e := st.acct.log[k].(dropped := true);
    st.(acct := Acct(st.acct.log[k := e], st.acct.free, st.acct.invalidEntries + multiset{e.page}))
  }

  // ---------------------------------------------------------------- invariant

  ghost function Mapped(index: map<nat, nat>, k: nat): set<nat> {
    set p | p in index && index[p] == k
  }

  /** The index gives page `p` block `b`. */
  ghost predicate Holds(log: seq<LogEntry>, index: map<nat, nat>, p: nat, b: nat)
    requires IndexOk(log, index)
  {
    p in index && Nvmm(log[index[p]], p) == b
  }

  ghost function Users(log: seq<LogEntry>, index: map<nat, nat>, b: nat): set<nat>
    requires IndexOk(log, index)
  {
    set p | p in index && Holds(log, index, p, b)
  }

  function DeadPage(e: LogEntry): multiset<nat> {
    if e.Dead() then multiset{e.page} else multiset{}
  }

  /** `invalid` counts exactly the pages no longer mapped to an entry; from `young` on none is mapped yet. */
  ghost predicate EntryOk(st: File, k: nat, young: nat)
    requires k < |st.acct.log|
  {
    var e := st.acct.log[k];
    e.Write? ==>
      && 0 < e.num && (e.invalid > 0 ==> e.reassigned)
      && if k >= young then e.invalid == 0 && Mapped(st.index, k) == {} else e.invalid + |Mapped(st.index, k)| == e.num
  }

  ghost predicate EntriesOk(st: File, young: nat) {
    forall k :: 0 <= k < |st.acct.log| ==> EntryOk(st, k, young)
  }

  /** Every block is free once or mapped once. */
  ghost predicate BlocksOk(st: File, all: multiset<nat>)
    requires IndexOk(st.acct.log, st.index)
  {
    forall b: nat :: st.acct.free[b] + |Users(st.acct.log, st.index, b)| == all[b]
  }

  /** Each dead entry is counted once against its log page. */
  ghost predicate CountsOk(a: Acct) {
    a.invalidEntries == Sum(a.log, DeadPage)
  }

  ghost predicate Core(st: File, all: multiset<nat>, young: nat) {
    IndexOk(st.acct.log, st.index) && EntriesOk(st, young) && BlocksOk(st, all) && CountsOk(st.acct)
  }

  /** No hole lies between two pages mapped to the same entry. */
  ghost predicate NoHoles(index: map<nat, nat>) {
    forall p, q, r | p in index && r in index && index[p] == index[r] && p <= q <= r :: q in index
  }

  ghost predicate NothingPastEof(st: File) {
    forall p | p in st.index :: p < Pages(st.size)
  }

  /** The position of the last entry that says anything about page `p`, if it maps it. */
  function Last(log: seq<LogEntry>, p: nat): (r: Option<nat>)
    ensures r.Some? ==> r.value < |log| && log[r.value].Covers(p)
  {
    if log == [] then None
    else
      var e := log[|log| - 1];
      if e.Covers(p) then Some(|log| - 1)
      else if e.SetAttr? && Pages(e.size) <= p then None
      else Last(log[..|log| - 1], p)
  }

  function Lookup(index: map<nat, nat>, p: nat): Option<nat> {
    if p in index then Some(index[p]) else None
  }

  /** The index holds what the log entries before `young` say. */
  ghost predicate IndexIsLast(st: File, young: nat) {
    young <= |st.acct.log| && forall p: nat :: Lookup(st.index, p) == Last(st.acct.log[..young], p)
  }

  ghost predicate IndexInv(st: File, young: nat) {
    NoHoles(st.index) && NothingPastEof(st) && IndexIsLast(st, young)
  }

  /** The size the last entry that records one gives. */
  function LastSize(log: seq<LogEntry>): nat {
    if log == [] then 0
    else
      var e := log[|log| - 1];
      if e.Other? then LastSize(log[..|log| - 1]) else e.size
  }

  /**
   A write entry holds real blocks inside the size it records, and sizes fall only where one is set.
   A size-setting entry is never dropped.
   */
  ghost predicate SizeOk(log: seq<LogEntry>, k: nat)
    requires k < |log|
  {
    match log[k]
    case Write(_, pgoff, num, block, size, _, _) => 0 < num && 0 < block && pgoff + num <= Pages(size) && LastSize(log[..k]) <= size
    case SetAttr(_, size, setsSize, dropped) => if setsSize then !dropped else LastSize(log[..k]) <= size
    case Other(_, _) => true
  }

  ghost predicate SizesOk(log: seq<LogEntry>) {
    forall k :: 0 <= k < |log| ==> SizeOk(log, k)
  }

  /** The last attribute entry is never dropped. */
  ghost predicate LastAttrStands(log: seq<LogEntry>) {
    forall k :: 0 <= k < |log| && log[k].SetAttr? && log[k].dropped ==> exists j :: k < j < |log| && log[j].SetAttr?
  }

  ghost predicate SizeInv(st: File) {
    st.size == LastSize(st.acct.log) && SizesOk(st.acct.log) && LastAttrStands(st.acct.log)
  }

  ghost predicate Inv(st: File, all: multiset<nat>) {
    Core(st, all, |st.acct.log|) && IndexInv(st, |st.acct.log|) && SizeInv(st)
  }

  function Init(all: multiset<nat>): File {
    File(Acct([], all, multiset{}), map[], 0)
  }

  lemma InitInv(all: multiset<nat>)
    ensures Inv(Init(all), all)
  {
  }
}
