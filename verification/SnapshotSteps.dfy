/** What each step of the snapshot machinery does to the table, told by what can be seen in it. */
module SnapshotSteps {
  import opened Common
  import opened Snapshot
  import opened SnapshotSafety

  // ---------------------------------------------------------------- create and allocate

  /** The new snapshot is the newest, has a list for every CPU, and defers nothing yet. */
  lemma CreateDoes(st: State, all: set<Resource>, cpus: nat)
    requires Inv(st, all, cpus)
    ensures var t := Apply(st, Create, all, cpus);
            && |t.infos| == |st.infos| + 1 && t.infos[..|st.infos|] == st.infos
            && (var new_ := t.infos[|st.infos|]; new_.epoch == st.epoch && |new_.lists| == cpus && PendInfo(new_) == multiset{})
            && (forall i | i in st.infos :: i.epoch < st.epoch)
            && t == st.(epoch := st.epoch + 1, infos := t.infos)
  {
    hide ListOk;
    var new_ := NewInfo(st.epoch, cpus);
    forall l | l in new_.lists ensures PendList(l) == multiset{} {
      EmptyList(st.epoch);
    }
    SumEmpty(new_.lists, PendList);
    forall i | i in st.infos ensures i.epoch < st.epoch { assert InfoOk(ViewOf(st), i, cpus); }
  }

  lemma EmptyList(epoch: nat)
    ensures PendList([Page(epoch, [])]) == multiset{}
  {
    SumEmpty([Page(epoch, [])], PendPage);
  }

  /** What is allocated is live, no longer free, and as old as the current epoch; nothing else changes. */
  lemma AllocDoes(st: State, rs: set<Resource>, all: set<Resource>, cpus: nat, r: Resource)
    requires Inv(st, all, cpus) && Enabled(st, Alloc(rs), cpus)
    ensures var t := Apply(st, Alloc(rs), all, cpus);
            && t.infos == st.infos && t.epoch == st.epoch && t.target == st.target
            && (r in rs ==> r in t.live && r !in t.free && r in t.born && t.born[r] == st.epoch && r !in t.gone)
            && (r !in rs ==> t.free[r] == st.free[r] && (r in t.live <==> r in st.live)
                             && (r in t.born <==> r in st.born) && (r in st.born ==> t.born[r] == st.born[r])
                             && (r in t.gone <==> r in st.gone) && (r in st.gone ==> t.gone[r] == st.gone[r]))
  {
    hide InfoOk;
    if r in rs { OnePlace(st, all, r); }
  }

  // ---------------------------------------------------------------- drop

  /** The snapshot `k` is the oldest that can see something created in epoch `c`. */
  ghost predicate Oldest(infos: seq<Info>, c: nat, k: nat) {
    k < |infos| && c <= infos[k].epoch && forall i | i in infos :: i.epoch < c || infos[k].epoch <= i.epoch
  }

  /** Every other snapshot, and every epoch, is as it was. */
  ghost predicate OnlyAt(before: seq<Info>, after: seq<Info>, k: nat) {
    && |after| == |before| && k < |after| && after[k].epoch == before[k].epoch
    && forall i :: 0 <= i < |after| && i != k ==> after[i] == before[i]
  }

  /** The oldest snapshot that can see the resources defers them, and nothing else in the table changes. */
  ghost predicate DeferredOn(before: seq<Info>, after: seq<Info>, c: nat, rs: set<Resource>, k: nat) {
    Oldest(before, c, k) && OnlyAt(before, after, k) && PendInfo(after[k]) == PendInfo(before[k]) + multiset(rs)
  }

  /**
   A dropped item leaves the live set.  If no snapshot lies between its creation and its drop it is free at once;
   otherwise the oldest snapshot that can see it defers it, and the others and the free blocks stay as they are.
   */
  lemma DropDoes(st: State, item: Item, c: nat, d: nat, cpu: nat, all: set<Resource>, cpus: nat)
    requires Inv(st, all, cpus) && Enabled(st, Drop(item, c, d, cpu), cpus)
    ensures var t := Apply(st, Drop(item, c, d, cpu), all, cpus);
            var rs := Resources(item);
            && t.live == st.live - rs && (forall r | r in rs :: r in t.gone && t.gone[r] == d)
            && t.epoch == st.epoch && t.target == st.target && t.born == st.born
            && if forall i | i in st.infos :: !(c <= i.epoch < d) then t.infos == st.infos && t.free == st.free + multiset(rs)
               else t.free == st.free && exists k: nat :: DeferredOn(st.infos, t.infos, c, rs, k)
  {
    InvShaped(st, all, cpus);
    DropKeeps(st, all, cpus, item, c, d, cpu);
    SeenAre(st.infos, c, d);
    hide Inv, DoDrop, Defer, Deleteable, NoneIn, Keys, FirstAtLeast, DeferredOn;
    if !Deleteable(st.infos, c, d) {
      DeferDoes(st, all, cpus, item, c, d, cpu);
    }
  }

  lemma DeferDoes(st: State, all: set<Resource>, cpus: nat, item: Item, c: nat, d: nat, cpu: nat)
    requires Inv(st, all, cpus) && !Deleteable(st.infos, c, d)
    requires var i := st.infos[FirstAtLeast(st.infos, c)]; cpu < |i.lists| && i.lists[cpu] != []
    ensures DeferredOn(st.infos, Defer(st.infos, item, c, d, cpu), c, Resources(item), FirstAtLeast(st.infos, c))
  {
    SortedInv(st, all, cpus);
    hide Inv, Append;
    var k := FirstAtLeast(st.infos, c);
    var l := st.infos[k].lists[cpu];
    var e := Entry(item, d, false);
    NoneBefore(st.infos, c);
    OldestIs(st.infos, c, k);
    PendAppend(l, e, st.infos[k].epoch);
    SumUpdate(st.infos[k].lists, cpu, Append(l, e, st.infos[k].epoch), PendList);
    MsMore(PendInfo(Defer(st.infos, item, c, d, cpu)[k]), PendInfo(st.infos[k]), PendList(l), PendEntry(e));
  }

  lemma MsMore<R>(y': multiset<R>, y: multiset<R>, a: multiset<R>, b: multiset<R>)
    requires y' + a == y + (a + b)
    ensures y' == y + b
  {
    forall r ensures y'[r] == (y + b)[r] { assert (y' + a)[r] == (y + (a + b))[r]; }
  }

  lemma SortedInv(st: State, all: set<Resource>, cpus: nat)
    requires Inv(st, all, cpus)
    ensures Sorted(st.infos)
  {
  }

  lemma SeenAre(infos: seq<Info>, c: nat, d: nat)
    ensures (c == d || NoneIn(Keys(infos), c, d)) <==> forall i | i in infos :: !(c <= i.epoch < d)
  {
    if i :| i in infos && c <= i.epoch < d { assert i.epoch in Keys(infos); }
  }

  lemma OldestIs(infos: seq<Info>, c: nat, k: nat)
    requires k == FirstAtLeast(infos, c) < |infos|
    requires forall s | s in Keys(infos) :: s < c || s >= infos[k].epoch
    ensures Oldest(infos, c, k)
  {
    forall i | i in infos ensures i.epoch < c || infos[k].epoch <= i.epoch { assert i.epoch in Keys(infos); }
  }

  // ---------------------------------------------------------------- delete

  /** `after` is the table without snapshot `k`; only the one that takes its place may have changed. */
  ghost predicate TakenOut(before: seq<Info>, after: seq<Info>, k: nat) {
    && |after| == |before| - 1
    && (forall i :: 0 <= i < k < |after| ==> after[i] == before[i])
    && (forall i :: k < i < |after| ==> after[i] == before[i + 1])
  }

  /**
   A deleted snapshot is gone from the table.  Its successor, if there is one, now defers what it deferred and is
   the cleaner's target; otherwise all that is free.
   */
  lemma DeleteDoes(st: State, k: nat, all: set<Resource>, cpus: nat)
    requires Inv(st, all, cpus) && k < |st.infos|
    ensures var t := Apply(st, Delete(st.infos[k].epoch), all, cpus);
            && t.epoch == st.epoch && t.live == st.live && t.born == st.born && t.gone == st.gone
            && if k + 1 < |st.infos| then
                 && TakenOut(st.infos, t.infos, k) && t.infos[k].epoch == st.infos[k + 1].epoch
                 && PendInfo(t.infos[k]) == PendInfo(st.infos[k]) + PendInfo(st.infos[k + 1])
                 && t.free == st.free && t.target == Some(st.infos[k + 1].epoch)
               else
                 t.infos == st.infos[..k] && t.free == st.free + PendInfo(st.infos[k]) && t.target == st.target
  {
    InvShaped(st, all, cpus);
    SortedInv(st, all, cpus);
    FirstIs(st.infos, st.infos[k].epoch, k);
    hide Inv, DoDelete, Sorted, FirstAtLeast, PendInfo, Shaped, TakenOut;
    DeleteAt(st, k, cpus);
  }

  lemma DeleteAt(st: State, k: nat, cpus: nat)
    requires k < |st.infos| && FirstAtLeast(st.infos, st.infos[k].epoch) == k && forall i | i in st.infos :: |i.lists| == cpus
    ensures var t := DoDelete(st, st.infos[k].epoch, cpus);
            && t.epoch == st.epoch && t.live == st.live && t.born == st.born && t.gone == st.gone
            && if k + 1 < |st.infos| then
                 && TakenOut(st.infos, t.infos, k) && t.infos[k].epoch == st.infos[k + 1].epoch
                 && PendInfo(t.infos[k]) == PendInfo(st.infos[k]) + PendInfo(st.infos[k + 1])
                 && t.free == st.free && t.target == Some(st.infos[k + 1].epoch)
               else
                 t.infos == st.infos[..k] && t.free == st.free + PendInfo(st.infos[k]) && t.target == st.target
  {
    hide LinkInfo, LivesOf, FirstAtLeast, PendInfo;
    if k + 1 < |st.infos| {
      assert st.infos[k] in st.infos && st.infos[k + 1] in st.infos;
      LinkPends(st.infos[k], st.infos[k + 1]);
      LinkedEpoch(st.infos[k], st.infos[k + 1]);
    }
  }

  lemma LinkedEpoch(prev: Info, next: Info)
    requires |prev.lists| == |next.lists|
    ensures LinkInfo(prev, next).epoch == next.epoch
  {
  }

  /** Deleting a snapshot that is not there changes nothing. */
  lemma DeleteAbsent(st: State, epoch: nat, all: set<Resource>, cpus: nat)
    requires Inv(st, all, cpus) && forall i | i in st.infos :: i.epoch != epoch
    ensures Apply(st, Delete(epoch), all, cpus) == st
  {
    InvShaped(st, all, cpus);
    hide Inv;
    var k := FirstAtLeast(st.infos, epoch);
    if k < |st.infos| { assert st.infos[k] in st.infos; }
  }

  // ---------------------------------------------------------------- remount

  /** A remount keeps every snapshot and what it defers, and stamps its pages with its own epoch. */
  lemma RemountDoes(st: State, all: set<Resource>, cpus: nat)
    requires Inv(st, all, cpus) && st.target.None?
    ensures var t := Apply(st, Remount, all, cpus);
            && t == st.(infos := t.infos) && |t.infos| == |st.infos|
            && (forall k :: 0 <= k < |t.infos| ==> t.infos[k].epoch == st.infos[k].epoch && PendInfo(t.infos[k]) == PendInfo(st.infos[k]))
            && forall i, l, p | i in t.infos && l in i.lists && p in l :: p.tag == i.epoch
  {
    hide Inv;
    forall k | 0 <= k < |st.infos| ensures PendInfo(Retag(st.infos[k])) == PendInfo(st.infos[k]) {
      RetagPends(st.infos[k]);
    }
  }

  // ---------------------------------------------------------------- clean

  /** `r` is in an entry dropped by the epoch of the snapshot, on a page of an earlier epoch. */
  ghost predicate Cleanable(info: Info, r: Resource) {
    exists l, p, e :: l in info.lists && p in l && p.tag < info.epoch && CleanableEntry(info, r, p, e)
  }

  ghost predicate CleanableEntry(info: Info, r: Resource, p: Page, e: Entry) {
    e in p.entries && !e.deleted && e.deleteEpoch <= info.epoch && r in Resources(e.item)
  }

  lemma {:induction false} SumLess<T, R>(s: seq<T>, t: seq<T>, f: T -> multiset<R>, r: R, i: nat)
    requires |s| == |t| && i < |s| && (forall j :: 0 <= j < |s| ==> f(t[j])[r] <= f(s[j])[r]) && f(t[i])[r] < f(s[i])[r]
    ensures Sum(t, f)[r] < Sum(s, f)[r]
  {
    var n := |s| - 1;
    if i < n {
      SumLess(s[..n], t[..n], f, r, i);
    } else {
      SumNoMore(s[..n], t[..n], f, r);
    }
  }

  lemma {:induction false} SumNoMore<T, R>(s: seq<T>, t: seq<T>, f: T -> multiset<R>, r: R)
    requires |s| == |t| && forall j :: 0 <= j < |s| ==> f(t[j])[r] <= f(s[j])[r]
    ensures Sum(t, f)[r] <= Sum(s, f)[r]
  {
    if s != [] { SumNoMore(s[..|s| - 1], t[..|s| - 1], f, r); }
  }

  lemma CleanedPage(p: Page, epoch: nat, r: Resource, j: nat)
    requires j < |p.entries| && !p.entries[j].deleted && p.entries[j].deleteEpoch <= epoch && r in Resources(p.entries[j].item)
    ensures PendPage(CleanPage(p, epoch))[r] < PendPage(p)[r]
  {
    SumLess(p.entries, CleanPage(p, epoch).entries, PendEntry, r, j);
  }

  lemma CleanedOnPage(l: List, epoch: nat, r: Resource, i: nat, j: nat)
    requires TagsRise(l) && i < |l| && l[i].tag < epoch && j < |l[i].entries|
    requires !l[i].entries[j].deleted && l[i].entries[j].deleteEpoch <= epoch && r in Resources(l[i].entries[j].item)
    ensures PendList(CleanList(l, epoch))[r] < PendList(l)[r]
  {
    hide CleanPage, PendPage;
    assert i < Stop(l, epoch);
    CleanedPage(l[i], epoch, r, j);
    forall x | 0 <= x < |l| ensures PendPage(CleanList(l, epoch)[x])[r] <= PendPage(l[x])[r] { CleanPagePends(l[x], epoch); }
    SumLess(l, CleanList(l, epoch), PendPage, r, i);
  }

  lemma CleanedInfo(v: View, info: Info, cpus: nat, r: Resource)
    requires InfoOk(v, info, cpus) && Cleanable(info, r)
    ensures PendInfo(CleanInfo(info))[r] < PendInfo(info)[r]
  {
    hide CleanList, PendList;
    var l, p, e :| l in info.lists && p in l && p.tag < info.epoch && CleanableEntry(info, r, p, e);
    var c :| 0 <= c < |info.lists| && info.lists[c] == l;
    var i :| 0 <= i < |l| && l[i] == p;
    var j :| 0 <= j < |p.entries| && p.entries[j] == e;
    assert ListOk(v, l, info.epoch);
    CleanedOnPage(l, info.epoch, r, i, j);
    forall x | 0 <= x < |info.lists| ensures PendList(CleanInfo(info).lists[x])[r] <= PendList(info.lists[x])[r] {
      CleanListPends(info.lists[x], info.epoch);
    }
    SumLess(info.lists, CleanInfo(info).lists, PendList, r, c);
  }

  /** The cleaner takes nothing else. */
  lemma OnlyCleanable(info: Info, r: Resource)
    requires PendInfo(CleanInfo(info))[r] < PendInfo(info)[r]
    ensures Cleanable(info, r)
  {
    var c := SumWitness(info.lists, CleanInfo(info).lists, PendList, r);
    var l := info.lists[c];
    var p := SumWitness(l, CleanList(l, info.epoch), PendPage, r);
    var e := SumWitness(l[p].entries, CleanPage(l[p], info.epoch).entries, PendEntry, r);
    assert CleanableEntry(info, r, l[p], l[p].entries[e]);
    assert l in info.lists && l[p] in l && l[p].tag < info.epoch;
  }

  lemma TargetFound(st: State, k: nat, all: set<Resource>, cpus: nat)
    requires Inv(st, all, cpus) && k < |st.infos| && st.target == Some(st.infos[k].epoch)
    ensures FirstAtLeast(st.infos, st.target.value) == k && Enabled(st, Clean, cpus)
  {
    FirstIs(st.infos, st.infos[k].epoch, k);
  }

  /**
   A wake-up of the cleaner frees exactly what it may: each deferred resource of its target that was dropped by
   the target's epoch and sits on a page of an earlier epoch.  Each is taken off the target, no other snapshot
   changes, and the target is done with.
   */
  lemma CleanDoes(st: State, k: nat, all: set<Resource>, cpus: nat)
    requires Inv(st, all, cpus) && k < |st.infos| && st.target == Some(st.infos[k].epoch)
    ensures Enabled(st, Clean, cpus)
    ensures var t := Apply(st, Clean, all, cpus);
            && t.target == None && OnlyAt(st.infos, t.infos, k)
            && t.epoch == st.epoch && t.live == st.live && t.born == st.born && t.gone == st.gone
            && forall r :: t.free[r] == st.free[r] + (if Cleanable(st.infos[k], r) then 1 else 0)
                        && PendInfo(t.infos[k])[r] + (if Cleanable(st.infos[k], r) then 1 else 0) == PendInfo(st.infos[k])[r]
  {
    TargetFound(st, k, all, cpus);
    hide FirstAtLeast, CleanInfo, Cleanable, LivesOf, Inv;
    PendClean(st.infos, k);
    CleanedEpoch(st.infos[k]);
    forall r
      ensures PendInfo(st.infos[k])[r] == PendInfo(CleanInfo(st.infos[k]))[r] + if Cleanable(st.infos[k], r) then 1 else 0
    {
      CleanTakes(st, k, all, cpus, r);
    }
    CleanInfoPends(st.infos[k]);
  }

  lemma CleanedEpoch(info: Info)
    ensures CleanInfo(info).epoch == info.epoch
  {
  }

  lemma CleanTakes(st: State, k: nat, all: set<Resource>, cpus: nat, r: Resource)
    requires Inv(st, all, cpus) && k < |st.infos|
    ensures PendInfo(st.infos[k])[r] == PendInfo(CleanInfo(st.infos[k]))[r] + if Cleanable(st.infos[k], r) then 1 else 0
  {
    hide CleanInfo, Cleanable, PendInfo;
    var info := st.infos[k];
    assert info in st.infos;
    OnePlace(st, all, r);
    SumContains(st.infos, info, PendInfo);
    CleanInfoPends(info);
    if Cleanable(info, r) {
      CleanedInfo(ViewOf(st), info, cpus, r);
    } else if PendInfo(CleanInfo(info))[r] < PendInfo(info)[r] {
      OnlyCleanable(info, r);
    }
  }

  /** With no target the cleaner does nothing. */
  lemma CleanIdle(st: State, all: set<Resource>, cpus: nat)
    requires Inv(st, all, cpus) && st.target.None?
    ensures Enabled(st, Clean, cpus) && Apply(st, Clean, all, cpus) == st
  {
    hide Inv;
  }

  /** Until lists are restored, the cleaner frees all that was dropped by its target's epoch. */
  lemma CleanFreesAll(st: State, k: nat, all: set<Resource>, cpus: nat, r: Resource)
    requires Inv(st, all, cpus) && Fresh(st.infos) && k < |st.infos| && st.target == Some(st.infos[k].epoch)
    requires r in PendInfo(st.infos[k]) && r in st.gone && st.gone[r] <= st.infos[k].epoch
    ensures Enabled(st, Clean, cpus) && r in Apply(st, Clean, all, cpus).free
  {
    CleanDoes(st, k, all, cpus);
    FreshCleanable(ViewOf(st), st.infos, k, cpus, r) by { assert st.infos[k] in st.infos; }
  }

  lemma FreshCleanable(v: View, infos: seq<Info>, k: nat, cpus: nat, r: Resource)
    requires Fresh(infos) && k < |infos| && InfoOk(v, infos[k], cpus) && r in PendInfo(infos[k])
    requires r in v.gone && v.gone[r] <= infos[k].epoch
    ensures Cleanable(infos[k], r)
  {
    var info := infos[k];
    var c := SumMember(info.lists, PendList, r);
    var l := info.lists[c];
    assert ListOk(v, l, info.epoch);
    var p := SumMember(l, PendPage, r);
    assert PageOk(v, l[p], info.epoch);
    var e := SumMember(l[p].entries, PendEntry, r);
    var en := l[p].entries[e];
    assert EntryOk(v, en, info.epoch, l[p].tag) && Placed(v, r, en.deleteEpoch, info.epoch, l[p].tag);
    assert info in infos && l in info.lists && FreshList(l) && l[p] in l && en in l[p].entries;
    assert CleanableEntry(info, r, l[p], en);
  }
}
