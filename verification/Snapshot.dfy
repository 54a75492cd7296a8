/**
 NOVA snapshot lifetimes: epochs, the per-snapshot lists of deferred frees, linking a deleted
 snapshot's lists into its successor, and the background cleaner.

 A data block is created in one epoch and dropped in another.  While a live snapshot can still
 read it, dropping it only appends an entry to the list of the smallest snapshot that can.
 */
module Snapshot {
  import opened Common

  /** A list page has room for 4064 bytes of entries and every entry is 32 bytes long. */
  const ENTRIES_PER_PAGE: nat := 127

  /** What the file system gives back: a data block, or a dead inode with its log. */
  datatype Resource = Block(nr: nat) | DeadInode(ino: nat)

  datatype Item = Extent(nvmm: nat, numPages: nat) | InodeItem(ino: nat)

  datatype Entry = Entry(item: Item, deleteEpoch: nat, deleted: bool)

  /** `tag` is the epoch id stored in the page tail. */
  datatype Page = Page(tag: nat, entries: seq<Entry>)

  type List = seq<Page>

  datatype Info = Info(epoch: nat, lists: seq<List>)

  /** One life of a resource: created in epoch `born`, dropped in epoch `gone`. */
  datatype Life = Life(r: Resource, born: nat, gone: nat)

  /**
   `infos` is the snapshot tree in increasing epoch order, `target` the snapshot the cleaner was
   pointed at.  `free` counts how often the allocator holds each resource, so a double free shows.
   `born`, `gone` and `past` are history: the latest life of each resource, and all lives that ended
   in a free.
   */
  datatype State = State(
    epoch: nat,
    infos: seq<Info>,
    target: Option<nat>,
    live: set<Resource>,
    free: multiset<Resource>,
    born: map<Resource, nat>,
    gone: map<Resource, nat>,
    past: set<Life>)

  function Resources(item: Item): set<Resource> {
    match item
    case Extent(nvmm, num) => set n: nat | nvmm <= n < nvmm + num :: Block(n)
    case InodeItem(ino) => {DeadInode(ino)}
  }

  // ---------------------------------------------------------------- deferred entries

  function PendEntry(e: Entry): multiset<Resource> {
    if e.deleted then multiset{} else multiset(Resources(e.item))
  }

  function PendPage(p: Page): multiset<Resource> { Sum(p.entries, PendEntry) }

  function PendList(l: List): multiset<Resource> { Sum(l, PendPage) }

  function PendInfo(i: Info): multiset<Resource> { Sum(i.lists, PendList) }

  /** All resources whose free is still deferred. */
  function Pend(infos: seq<Info>): multiset<Resource> { Sum(infos, PendInfo) }

  // ---------------------------------------------------------------- the snapshot tree

  ghost predicate Sorted(infos: seq<Info>) {
    forall i, j :: 0 <= i < j < |infos| ==> infos[i].epoch < infos[j].epoch
  }

  ghost function Keys(infos: seq<Info>): set<nat> { set i | i in infos :: i.epoch }

  /** The gang lookup: the first snapshot with an epoch of at least `e`. */
  function FirstAtLeast(infos: seq<Info>, e: nat): (k: nat)
    ensures k <= |infos|
    ensures forall i :: 0 <= i < k ==> infos[i].epoch < e
    ensures k < |infos| ==> e <= infos[k].epoch
  {
    if infos == [] || e <= infos[0].epoch then 0 else 1 + FirstAtLeast(infos[1..], e)
  }

  /** May something created in epoch `c` and dropped in epoch `d` be freed at once? */
  predicate Deleteable(infos: seq<Info>, c: nat, d: nat) {
    c == d ||
    var k := FirstAtLeast(infos, c);
    k == |infos| || infos[k].epoch >= d
  }

  // ---------------------------------------------------------------- list operations

  function NewInfo(epoch: nat, cpus: nat): Info {
    Info(epoch, seq(cpus, _ => [Page(epoch, [])]))
  }

  function Append(l: List, e: Entry, host: nat): List
    requires l != []
  {
    var last := l[|l| - 1];
    if |last.entries| < ENTRIES_PER_PAGE
    then l[|l| - 1 := last.(entries := last.entries + [e])]
    else l + [Page(host, [e])]
  }

  function CleanEntry(e: Entry, epoch: nat): Entry {
    if !e.deleted && e.deleteEpoch <= epoch then e.(deleted := true) else e
  }

  function CleanPage(p: Page, epoch: nat): Page {
    Page(p.tag, seq(|p.entries|, i requires 0 <= i < |p.entries| => CleanEntry(p.entries[i], epoch)))
  }

  /** The page at which the cleaner stops: the first one whose tag reaches the epoch. */
  function Stop(l: List, epoch: nat): (k: nat)
    ensures k <= |l|
    ensures forall i :: 0 <= i < k ==> l[i].tag < epoch
    ensures k < |l| ==> l[k].tag >= epoch
  {
    if l == [] || l[0].tag >= epoch then 0 else 1 + Stop(l[1..], epoch)
  }

  function CleanList(l: List, epoch: nat): List {
    seq(|l|, i requires 0 <= i < |l| => if i < Stop(l, epoch) then CleanPage(l[i], epoch) else l[i])
  }

  function CleanInfo(info: Info): Info {
    info.(lists := seq(|info.lists|, i requires 0 <= i < |info.lists| => CleanList(info.lists[i], info.epoch)))
  }

  /** The lists of a deleted snapshot go in front of those of the next one. */
  function LinkInfo(prev: Info, next: Info): Info
    requires |prev.lists| == |next.lists|
  {
    next.(lists := seq(|next.lists|, i requires 0 <= i < |next.lists| => prev.lists[i] + next.lists[i]))
  }

  /** Restoring saved lists stamps every page with the snapshot's own epoch. */
  function Retag(info: Info): Info {
    info.(lists := seq(|info.lists|, i requires 0 <= i < |info.lists| =>
      seq(|info.lists[i]|, j requires 0 <= j < |info.lists[i]| => info.lists[i][j].(tag := info.epoch))))
  }

  // ---------------------------------------------------------------- steps

  datatype Step =
    | Create
    | Alloc(rs: set<Resource>)
    | Drop(item: Item, created: nat, dropped: nat, cpu: nat)
    | Delete(epoch: nat)
    | Clean
    | Remount

  function LivesOf(st: State, rs: multiset<Resource>): set<Life> {
    set r | r in rs && r in st.born && r in st.gone :: Life(r, st.born[r], st.gone[r])
  }

  /** Resources `rs` go back to the allocator. */
  function Release(st: State, rs: multiset<Resource>): State {
    st.(free := st.free + rs, past := st.past + LivesOf(st, rs))
  }

  function DoCreate(st: State, cpus: nat): State {
    st.(epoch := st.epoch + 1, infos := st.infos + [NewInfo(st.epoch, cpus)])
  }

  function DoAlloc(st: State, rs: set<Resource>): State {
    st.(live := st.live + rs, free := st.free - multiset(rs),
        born := st.born + map r | r in rs :: st.epoch,
        gone := st.gone - rs)
  }

  /** Every snapshot has a list for at least `n` CPUs, and no list is without a page. */
  ghost predicate Shaped(infos: seq<Info>, n: nat) {
    forall i | i in infos :: n <= |i.lists| && forall l | l in i.lists :: l != []
  }

  ghost function DoDrop(st: State, item: Item, c: nat, d: nat, cpu: nat): State
    requires Shaped(st.infos, cpu + 1)
  {
    var rs := Resources(item);
    var st1 := st.(live := st.live - rs, gone := st.gone + map r | r in rs :: d);
    if Deleteable(st.infos, c, d) then Release(st1, multiset(rs))
    else
      var k := FirstAtLeast(st.infos, c);
      var info := st.infos[k];
      assert info in st.infos && info.lists[cpu] in info.lists;
      var l := Append(info.lists[cpu], Entry(item, d, false), info.epoch);
      st1.(infos := st.infos[k := info.(lists := info.lists[cpu := l])])
  }

  function DoDelete(st: State, epoch: nat, cpus: nat): State
    requires forall i | i in st.infos :: |i.lists| == cpus
  {
    var k := FirstAtLeast(st.infos, epoch);
    if k == |st.infos| || st.infos[k].epoch != epoch then st
    else if k + 1 < |st.infos| then
      var next := LinkInfo(st.infos[k], st.infos[k + 1]);
      st.(infos := st.infos[..k] + [next] + st.infos[k + 2..], target := Some(next.epoch))
    else
      Release(st, PendInfo(st.infos[k])).(infos := st.infos[..k])
  }

  /** The snapshot the cleaner is pointed at is still in the tree. */
  predicate TargetLive(st: State) {
    st.target.Some? ==> exists i :: 0 <= i < |st.infos| && st.infos[i].epoch == st.target.value
  }

  function DoClean(st: State): State {
    if st.target.None? then st
    else
      var k := FirstAtLeast(st.infos, st.target.value);
      if k == |st.infos| then st
      else
        var infos := st.infos[k := CleanInfo(st.infos[k])];
        Release(st, Pend(st.infos) - Pend(infos)).(infos := infos, target := None)
  }

  function DoRemount(st: State): State {
    st.(infos := seq(|st.infos|, i requires 0 <= i < |st.infos| => Retag(st.infos[i])))
  }

  /** What a caller owes each step. */
  ghost predicate Enabled(st: State, s: Step, cpus: nat) {
    match s
    case Create => true
    case Alloc(rs) => forall r | r in rs :: r in st.free
    case Drop(item, c, d, cpu) =>
      cpu < cpus && c <= d <= st.epoch &&
      forall r | r in Resources(item) :: r in st.live && r in st.born && st.born[r] == c
    case Delete(_) => true
    case Clean => TargetLive(st)
    case Remount => st.target.None?
  }

  ghost function Apply(st: State, s: Step, all: set<Resource>, cpus: nat): State
    requires Inv(st, all, cpus) && Enabled(st, s, cpus)
  {
    assert Shaped(st.infos, cpus) by {
      forall i, l | i in st.infos && l in i.lists ensures l != [] {
        assert InfoOk(ViewOf(st), i, cpus) && ListOk(ViewOf(st), l, i.epoch);
      }
    }
    match s
    case Create => DoCreate(st, cpus)
    case Alloc(rs) => DoAlloc(st, rs)
    case Drop(item, c, d, cpu) => DoDrop(st, item, c, d, cpu)
    case Delete(epoch) => DoDelete(st, epoch, cpus)
    case Clean => DoClean(st)
    case Remount => DoRemount(st)
  }

  // ---------------------------------------------------------------- invariant

  /** The part of the state that an entry's placement depends on. */
  datatype View = View(keys: set<nat>, born: map<Resource, nat>, gone: map<Resource, nat>, epoch: nat)

  ghost function ViewOf(st: State): View { View(Keys(st.infos), st.born, st.gone, st.epoch) }

  ghost predicate NoneIn(keys: set<nat>, lo: nat, hi: nat) {
    forall s | s in keys :: !(lo <= s < hi)
  }

  /** Resource `r`, deferred on snapshot `host` in a page tagged `tag`, is where it should be. */
  ghost predicate Placed(v: View, r: Resource, gone: nat, host: nat, tag: nat) {
    r in v.born && r in v.gone && v.gone[r] == gone <= v.epoch &&
    v.born[r] <= tag <= host && NoneIn(v.keys, v.born[r], host)
  }

  ghost predicate EntryOk(v: View, e: Entry, host: nat, tag: nat) {
    !e.deleted ==> forall r | r in Resources(e.item) :: Placed(v, r, e.deleteEpoch, host, tag)
  }

  ghost predicate PageOk(v: View, p: Page, host: nat) {
    p.tag <= host && NoneIn(v.keys, p.tag, host) && |p.entries| <= ENTRIES_PER_PAGE && forall e | e in p.entries :: EntryOk(v, e, host, p.tag)
  }

  ghost predicate TagsRise(l: List) {
    forall i, j :: 0 <= i < j < |l| ==> l[i].tag <= l[j].tag
  }

  ghost predicate ListOk(v: View, l: List, host: nat) {
    l != [] && l[|l| - 1].tag == host && TagsRise(l) && forall p | p in l :: PageOk(v, p, host)
  }

  ghost predicate InfoOk(v: View, info: Info, cpus: nat) {
    |info.lists| == cpus && info.epoch < v.epoch && forall l | l in info.lists :: ListOk(v, l, info.epoch)
  }

  ghost predicate PastOk(st: State) {
    && (forall l | l in st.past :: l.gone <= st.epoch && NoneIn(Keys(st.infos), l.born, l.gone))
    && (forall r | r in st.free && r in st.gone :: r in st.born && Life(r, st.born[r], st.gone[r]) in st.past)
  }

  ghost predicate LiveOk(st: State) {
    forall r | r in st.live :: r in st.born && st.born[r] <= st.epoch
  }

  /** Every resource is in exactly one place: free once, live, or deferred once. */
  ghost predicate Balanced(st: State, all: set<Resource>) {
    st.free + multiset(st.live) + Pend(st.infos) == multiset(all)
  }

  ghost predicate Inv(st: State, all: set<Resource>, cpus: nat) {
    && Sorted(st.infos)
    && (forall i | i in st.infos :: InfoOk(ViewOf(st), i, cpus))
    && PastOk(st)
    && LiveOk(st)
    && Balanced(st, all)
  }

  function Init(all: set<Resource>, epoch: nat): State {
    State(epoch, [], None, {}, multiset(all), map[], map[], {})
  }

  lemma InitInv(all: set<Resource>, epoch: nat, cpus: nat)
    ensures Inv(Init(all, epoch), all, cpus)
  {
  }
}
