/** The snapshot machinery as the file system runs it: a table updated in place, with loops over list pages. */
module SnapshotTable {
  import opened Common
  import opened Snapshot
  import opened SnapshotSafety

  class Table {
    var epoch: nat
    var infos: seq<Info>
    var target: Option<nat>
    var free: multiset<Resource>
    const cpus: nat

    ghost var live: set<Resource>
    ghost var born: map<Resource, nat>
    ghost var gone: map<Resource, nat>
    ghost var past: set<Life>
    ghost const all: set<Resource>

    ghost function Abs(): State
      reads this
    {
      State(epoch, infos, target, live, free, born, gone, past)
    }

    ghost predicate Valid()
      reads this
    {
      Inv(Abs(), all, cpus)
    }

    constructor (cpus: nat, epoch: nat, ghost all: set<Resource>, blocks: set<Resource>)
      requires blocks == all
      ensures Valid() && this.cpus == cpus && this.all == all && Abs() == Init(all, epoch)
    {
      this.cpus, this.epoch, this.all := cpus, epoch, all;
      infos, target, free := [], None, multiset(blocks);
      live, born, gone, past := {}, map[], map[], {};
      new;
      InitInv(all, epoch, cpus);
    }

    lemma Shape()
      requires Valid()
      ensures Shaped(infos, cpus)
      ensures forall i | i in infos :: |i.lists| == cpus
    {
      forall i, l | i in infos && l in i.lists ensures l != [] {
        assert InfoOk(ViewOf(Abs()), i, cpus) && ListOk(ViewOf(Abs()), l, i.epoch);
      }
      forall i | i in infos ensures |i.lists| == cpus { assert InfoOk(ViewOf(Abs()), i, cpus); }
    }

    /** Gang lookup of one snapshot: the first at or after `e`. */
    method FindTarget(e: nat) returns (k: nat)
      ensures k == FirstAtLeast(infos, e)
    {
      k := 0;
      while k < |infos| && infos[k].epoch < e
        invariant k <= |infos| && forall i :: 0 <= i < k ==> infos[i].epoch < e
      {
        k := k + 1;
      }
    }

    method CreateSnapshot()
      requires Valid()
      modifies this`epoch, this`infos
      ensures Valid() && Abs() == DoCreate(old(Abs()), cpus)
    {
      hide Inv;
      ghost var st := Abs();
      CreateKeeps(st, all, cpus);
      var id := epoch;
      epoch := epoch + 1;
      var lists: seq<List> := [];
      while |lists| < cpus
        invariant |lists| <= cpus && forall x :: 0 <= x < |lists| ==> lists[x] == [Page(id, [])]
      {
        lists := lists + [[Page(id, [])]];
      }
      assert lists == NewInfo(id, cpus).lists;
      infos := infos + [Info(id, lists)];
      assert Abs() == DoCreate(st, cpus);
    }

    /** Resources leave the allocator for something created in the current epoch. */
    method Allocate(rs: set<Resource>)
      requires Valid() && Enabled(Abs(), Alloc(rs), cpus)
      modifies this`free, this`live, this`born, this`gone
      ensures Valid() && Abs() == DoAlloc(old(Abs()), rs)
    {
      hide Inv;
      ghost var st := Abs();
      AllocKeeps(st, all, cpus, rs);
      free := free - multiset(rs);
      live := live + rs;
      born := born + map r | r in rs :: epoch;
      gone := gone - rs;
      assert Abs() == DoAlloc(st, rs);
    }

    method OldEntryDeleteable(c: nat, d: nat) returns (freeNow: bool, k: nat)
      requires Valid()
      ensures freeNow <==> Deleteable(infos, c, d)
      ensures !freeNow ==> k == FirstAtLeast(infos, c) < |infos|
    {
      k := 0;
      if c == d {
        return true, 0;
      }
      k := FindTarget(c);
      freeNow := k == |infos| || infos[k].epoch >= d;
    }

    method AppendEntry(k: nat, cpu: nat, e: Entry)
      requires k < |infos| && cpu < |infos[k].lists| && infos[k].lists[cpu] != []
      modifies this`infos
      ensures infos == old(var i := infos[k];
                           infos[k := i.(lists := i.lists[cpu := Append(i.lists[cpu], e, i.epoch)])])
    {
      var info := infos[k];
      var l := info.lists[cpu];
      var n := |l| - 1;
      if |l[n].entries| >= ENTRIES_PER_PAGE {
        l := l + [Page(info.epoch, [e])];
      } else {
        l := l[n := l[n].(entries := l[n].entries + [e])];
      }
      infos := infos[k := info.(lists := info.lists[cpu := l])];
    }

    /** An item created in epoch `c` is no longer used as of epoch `d`; `freed` says it was freed at once. */
    method DropItem(item: Item, c: nat, d: nat, cpu: nat) returns (freed: bool)
      requires Valid() && Enabled(Abs(), Drop(item, c, d, cpu), cpus)
      modifies this`infos, this`free, this`live, this`gone, this`past
      ensures Valid()
      ensures Shaped(old(infos), cpu + 1) && Abs() == DoDrop(old(Abs()), item, c, d, cpu)
      ensures freed <==> c == d || NoneIn(Keys(old(infos)), c, d)
    {
      hide Inv, FirstAtLeast, Append, DoDrop;
      ghost var st := Abs();
      Shape();
      DropKeeps(st, all, cpus, item, c, d, cpu);
      var k;
      freed, k := OldEntryDeleteable(c, d);
      live := live - Resources(item);
      gone := gone + map r | r in Resources(item) :: d;
      if freed {
        past := past + LivesOf(Abs(), multiset(Resources(item)));
        free := free + multiset(Resources(item));
        assert Abs() == Release(Forget(st, item, d), multiset(Resources(item)));
      } else {
        AppendEntry(k, cpu, Entry(item, d, false));
        assert Abs() == Forget(st, item, d).(infos := Defer(st.infos, item, c, d, cpu));
      }
    }

    /** Free what the entries of a list still defer. */
    method DeleteListEntries(l: List)
      requires l != []
      modifies this`free
      ensures free == old(free) + PendList(l)
    {
      var i, j := 0, 0;
      ghost var done: multiset<Resource> := multiset{};
      while !(i == |l| - 1 && j == |l[i].entries|)
        invariant i < |l| && j <= |l[i].entries|
        invariant done == Sum(l[..i], PendPage) + Sum(l[i].entries[..j], PendEntry)
        invariant free == old(free) + done
        decreases |l| - i, |l[i].entries| - j
      {
        if j == |l[i].entries| {
          PageDone(l, i);
          i, j := i + 1, 0;
        } else {
          var e := l[i].entries[j];
          EntryDone(l, i, j);
          MsAssoc(old(free), done, PendEntry(e));
          if !e.deleted {
            free := free + multiset(Resources(e.item));
          }
          done := done + PendEntry(e);
          j := j + 1;
        }
      }
      PageDone(l, i);
      assert l[..i + 1] == l;
    }

    static lemma PageDone(l: List, i: nat)
      requires i < |l|
      ensures Sum(l[..i], PendPage) + Sum(l[i].entries[..|l[i].entries|], PendEntry) == Sum(l[..i + 1], PendPage)
      ensures i + 1 < |l| ==> Sum(l[i + 1].entries[..0], PendEntry) == multiset{}
    {
      assert l[i].entries[..|l[i].entries|] == l[i].entries && l[..i + 1] == l[..i] + [l[i]];
      SumSnoc(l[..i], l[i], PendPage);
    }

    static lemma EntryDone(l: List, i: nat, j: nat)
      requires i < |l| && j < |l[i].entries|
      ensures var s := Sum(l[..i], PendPage);
              s + Sum(l[i].entries[..j], PendEntry) + PendEntry(l[i].entries[j]) == s + Sum(l[i].entries[..j + 1], PendEntry)
    {
      var es := l[i].entries;
      assert es[..j + 1] == es[..j] + [es[j]];
      SumSnoc(es[..j], es[j], PendEntry);
      MsAssoc(Sum(l[..i], PendPage), Sum(es[..j], PendEntry), PendEntry(es[j]));
    }

    /** Link the lists of snapshot `k` in front of those of snapshot `k + 1`. */
    method LinkToNext(k: nat)
      requires k + 1 < |infos| && |infos[k].lists| == |infos[k + 1].lists|
      modifies this`infos, this`target
      ensures infos == old(infos)[k + 1 := LinkInfo(old(infos)[k], old(infos)[k + 1])]
      ensures target == Some(infos[k + 1].epoch)
    {
      var prev, next := infos[k], infos[k + 1];
      var lists := next.lists;
      var i := 0;
      while i < |lists|
        invariant i <= |lists| == |next.lists|
        invariant forall x :: 0 <= x < i ==> lists[x] == prev.lists[x] + next.lists[x]
        invariant forall x :: i <= x < |lists| ==> lists[x] == next.lists[x]
      {
        lists := lists[i := prev.lists[i] + lists[i]];
        i := i + 1;
      }
      assert lists == LinkInfo(prev, next).lists;
      infos := infos[k + 1 := next.(lists := lists)];
      target := Some(next.epoch);
    }

    method DeleteSnapshot(id: nat)
      requires Valid()
      modifies this`infos, this`target, this`free, this`past
      ensures Valid()
      ensures (forall i | i in old(infos) :: |i.lists| == cpus) && Abs() == DoDelete(old(Abs()), id, cpus)
    {
      hide Inv, FirstAtLeast, PendInfo, LivesOf;
      ghost var st := Abs();
      Shape();
      DeleteKeeps(st, all, cpus, id);
      var k := FindTarget(id);
      if k == |infos| || infos[k].epoch != id {
        assert Abs() == DoDelete(st, id, cpus);
        return;
      }
      if k + 1 < |infos| {
        DeleteOlder(k);
        assert Abs() == DoDelete(st, id, cpus);
      } else {
        DeleteNewest();
        assert Abs() == DoDelete(st, id, cpus);
      }
    }

    method DeleteOlder(k: nat)
      requires k + 1 < |infos| && forall i | i in infos :: |i.lists| == cpus
      modifies this`infos, this`target
      ensures |old(infos)[k].lists| == |old(infos)[k + 1].lists|
      ensures infos == old(infos)[..k] + [LinkInfo(old(infos)[k], old(infos)[k + 1])] + old(infos)[k + 2..]
      ensures target == Some(old(infos)[k + 1].epoch)
    {
      assert infos[k] in infos && infos[k + 1] in infos;
      LinkToNext(k);
      infos := infos[..k] + infos[k + 1..];
    }

    method DeleteNewest()
      requires infos != [] && forall i, l | i in infos && l in i.lists :: l != []
      modifies this`infos, this`free, this`past
      ensures var k := |old(infos)| - 1; var rs := PendInfo(old(infos)[k]);
              infos == old(infos)[..k] && free == old(free) + rs && past == old(past) + LivesOf(old(Abs()), rs)
    {
      var info := infos[|infos| - 1];
      assert info in infos;
      infos := infos[..|infos| - 1];
      DeleteInfo(info);
      past := past + LivesOf(old(Abs()), PendInfo(info));
    }

    /** Free everything a snapshot without a successor still defers. */
    method DeleteInfo(info: Info)
      requires forall l | l in info.lists :: l != []
      modifies this`free
      ensures free == old(free) + PendInfo(info)
    {
      var i := 0;
      while i < |info.lists|
        invariant i <= |info.lists|
        invariant free == old(free) + Sum(info.lists[..i], PendList)
      {
        assert info.lists[..i + 1] == info.lists[..i] + [info.lists[i]];
        SumSnoc(info.lists[..i], info.lists[i], PendList);
        MsAssoc(old(free), Sum(info.lists[..i], PendList), PendList(info.lists[i]));
        assert info.lists[i] in info.lists;
        DeleteListEntries(info.lists[i]);
        i := i + 1;
      }
      assert info.lists[..i] == info.lists;
    }

    /** Free the entries of one list that no snapshot before `ep` needs, page by page. */
    method BackgroundCleanList(l: List, ep: nat) returns (pages: List)
      requires l != []
      modifies this`free
      ensures pages == CleanList(l, ep)
      ensures free + PendList(pages) == old(free) + PendList(l)
    {
      hide Sum, CleanList, Stop;
      pages := l;
      var i, j := 0, 0;
      while pages[i].tag < ep && !(i == |pages| - 1 && j == |pages[i].entries|)
        invariant i < |pages| == |l| && j <= |l[i].entries| == |pages[i].entries|
        invariant pages[i].tag == l[i].tag && (j > 0 ==> l[i].tag < ep)
        invariant forall x :: 0 <= x < i ==> l[x].tag < ep && pages[x] == CleanPage(l[x], ep)
        invariant forall x :: i < x < |l| ==> pages[x] == l[x]
        invariant forall y :: 0 <= y < j ==> pages[i].entries[y] == CleanEntry(l[i].entries[y], ep)
        invariant forall y :: j <= y < |l[i].entries| ==> pages[i].entries[y] == l[i].entries[y]
        invariant free + PendList(pages) == old(free) + PendList(l)
        decreases |l| - i, |l[i].entries| - j
      {
        if j == |pages[i].entries| {
          assert pages[i] == CleanPage(l[i], ep);
          i, j := i + 1, 0;
        } else {
          var e := pages[i].entries[j];
          if !e.deleted && e.deleteEpoch <= ep {
            ghost var was := pages;
            pages := pages[i := pages[i].(entries := pages[i].entries[j := e.(deleted := true)])];
            MarkPends(was, i, j);
            MsMove(free, PendList(pages), PendEntry(e));
            free := free + multiset(Resources(e.item));
          }
          j := j + 1;
        }
      }
      if l[i].tag >= ep {
        assert pages[i] == l[i];
        CleanListIs(l, pages, ep, i);
      } else {
        assert pages[i] == CleanPage(l[i], ep);
        CleanListIs(l, pages, ep, |l|);
      }
    }

    static lemma CleanListIs(l: List, pages: List, ep: nat, k: nat)
      requires |pages| == |l| && k <= |l| && (k < |l| ==> l[k].tag >= ep)
      requires forall x :: 0 <= x < k ==> l[x].tag < ep && pages[x] == CleanPage(l[x], ep)
      requires forall x :: k <= x < |l| ==> pages[x] == l[x]
      ensures pages == CleanList(l, ep)
    {
      assert Stop(l, ep) == k;
    }

    /** Marking an entry deleted takes its resources out of the deferred ones. */
    static lemma MarkPends(l: List, i: nat, j: nat)
      requires i < |l| && j < |l[i].entries| && !l[i].entries[j].deleted
      ensures var e := l[i].entries[j];
              var m := l[i := l[i].(entries := l[i].entries[j := e.(deleted := true)])];
              PendList(m) + PendEntry(e) == PendList(l)
    {
      var e := l[i].entries[j];
      var p := l[i].(entries := l[i].entries[j := e.(deleted := true)]);
      SumUpdate(l[i].entries, j, e.(deleted := true), PendEntry);
      SumUpdate(l, i, p, PendPage);
      MsChain(PendList(l), PendList(l[i := p]), PendPage(l[i]), PendPage(p), PendEntry(e), multiset{});
    }

    /** One run of the cleaner over the snapshot it was pointed at. */
    method CleanSnapshot()
      requires Valid() && TargetLive(Abs())
      modifies this`infos, this`target, this`free, this`past
      ensures Valid() && Abs() == DoClean(old(Abs()))
    {
      hide Inv, FirstAtLeast, CleanInfo, Pend, PendInfo, LivesOf;
      ghost var st := Abs();
      Shape();
      CleanKeeps(st, all, cpus);
      if target.None? {
        return;
      }
      var k := FindTarget(target.value);
      if k == |infos| {
        return;
      }
      var info := infos[k];
      assert info in infos;
      var lists := CleanInfoLists(info);
      infos := infos[k := info.(lists := lists)];
      target := None;
      past := past + LivesOf(st, Pend(st.infos) - Pend(infos));
      assert free == st.free + (Pend(st.infos) - Pend(infos)) by {
        PendClean(st.infos, k);
        CleanInfoPends(info);
        MsSub(st.free, free, PendInfo(info), PendInfo(CleanInfo(info)));
      }
    }

    /** The cleaner's loop over the per-CPU lists. */
    method CleanInfoLists(info: Info) returns (lists: seq<List>)
      requires forall l | l in info.lists :: l != []
      modifies this`free
      ensures info.(lists := lists) == CleanInfo(info)
      ensures free + PendInfo(CleanInfo(info)) == old(free) + PendInfo(info)
    {
      hide CleanList, Sum;
      lists := info.lists;
      var i := 0;
      while i < |lists|
        invariant i <= |lists| == |info.lists|
        invariant forall x :: 0 <= x < i ==> lists[x] == CleanList(info.lists[x], info.epoch)
        invariant forall x :: i <= x < |lists| ==> lists[x] == info.lists[x]
        invariant free + Sum(lists, PendList) == old(free) + Sum(info.lists, PendList)
      {
        ghost var before := free;
        assert info.lists[i] in info.lists;
        var l := BackgroundCleanList(lists[i], info.epoch);
        SumUpdate(lists, i, l, PendList);
        MsSwap(before, free, PendList(lists[i]), PendList(l), Sum(lists, PendList), Sum(lists[i := l], PendList));
        lists := lists[i := l];
        i := i + 1;
      }
      assert lists == CleanInfo(info).lists;
    }
  }

  lemma MsSub<R>(f: multiset<R>, g: multiset<R>, x: multiset<R>, y: multiset<R>)
    requires g + y == f + x && y <= x
    ensures g == f + (x - y)
  {
    forall r ensures g[r] == (f + (x - y))[r] {
      assert (g + y)[r] == (f + x)[r];
    }
  }

  lemma MsMove<R>(a: multiset<R>, b: multiset<R>, c: multiset<R>)
    ensures (a + c) + b == a + (b + c)
  {
  }

  lemma MsSwap<R>(f: multiset<R>, g: multiset<R>, x: multiset<R>, y: multiset<R>, s: multiset<R>, t: multiset<R>)
    requires g + y == f + x && t + x == s + y
    ensures g + t == f + s
  {
    forall r ensures (g + t)[r] == (f + s)[r] {
      assert (g + y)[r] == (f + x)[r] && (t + x)[r] == (s + y)[r];
    }
  }
}
