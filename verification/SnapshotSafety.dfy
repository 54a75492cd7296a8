/** Every step of the snapshot machinery keeps the invariant, and what that means for every run. */
module SnapshotSafety {
  import opened Common
  import opened Snapshot

  // ---------------------------------------------------------------- the tree

  lemma FirstIs(infos: seq<Info>, e: nat, k: nat)
    requires Sorted(infos) && k < |infos| && infos[k].epoch == e
    ensures FirstAtLeast(infos, e) == k
  {
    assert forall f :: 0 <= f < k ==> infos[f].epoch < infos[k].epoch;
  }

  lemma KeysAt(infos: seq<Info>, k: nat)
    requires k < |infos|
    ensures infos[k].epoch in Keys(infos)
  {
    assert infos[k] in infos;
  }

  /** Replacing one snapshot's lists leaves the set of epochs alone. */
  lemma KeysUpdate(infos: seq<Info>, k: nat, info: Info)
    requires k < |infos| && info.epoch == infos[k].epoch
    ensures Keys(infos[k := info]) == Keys(infos)
  {
    var t := infos[k := info];
    forall s ensures s in Keys(t) <==> s in Keys(infos) {
      if s in Keys(t) {
        var i :| 0 <= i < |t| && t[i].epoch == s;
        assert infos[i].epoch == s && infos[i] in infos;
      }
      if s in Keys(infos) {
        var i :| 0 <= i < |infos| && infos[i].epoch == s;
        assert t[i].epoch == s && t[i] in t;
      }
    }
  }

  /** No snapshot lies between `c` and the first one at or after `c`. */
  lemma NoneBefore(infos: seq<Info>, c: nat)
    requires Sorted(infos)
    ensures var k := FirstAtLeast(infos, c);
            forall s | s in Keys(infos) :: s < c || (k < |infos| && s >= infos[k].epoch)
  {
    var k := FirstAtLeast(infos, c);
    forall s | s in Keys(infos) ensures s < c || (k < |infos| && s >= infos[k].epoch) {
      var i :| 0 <= i < |infos| && infos[i].epoch == s;
      if i > k { assert infos[k].epoch < infos[i].epoch; }
    }
  }

  // ---------------------------------------------------------------- deferred entries

  /** A deferred resource belongs to an entry that is well placed on its snapshot. */
  lemma PendPlaced(v: View, info: Info, cpus: nat, r: Resource)
    requires InfoOk(v, info, cpus) && r in PendInfo(info)
    ensures exists gone: nat, tag: nat :: Placed(v, r, gone, info.epoch, tag)
  {
    var c := SumMember(info.lists, PendList, r);
    var l := info.lists[c];
    assert ListOk(v, l, info.epoch);
    var p := SumMember(l, PendPage, r);
    assert PageOk(v, l[p], info.epoch);
    var e := SumMember(l[p].entries, PendEntry, r);
    var en := l[p].entries[e];
    assert EntryOk(v, en, info.epoch, l[p].tag);
    assert Placed(v, r, en.deleteEpoch, info.epoch, l[p].tag);
  }

  lemma OnePlace(st: State, all: set<Resource>, r: Resource)
    requires Balanced(st, all)
    ensures st.free[r] + (if r in st.live then 1 else 0) + Pend(st.infos)[r] == if r in all then 1 else 0
  {
    assert multiset(all)[r] == if r in all then 1 else 0;
    assert multiset(st.live)[r] == if r in st.live then 1 else 0;
  }

  // ---------------------------------------------------------------- frames

  /** `w` is a later view of what `v` shows: the resources of `keep` have the same lives. */
  ghost predicate Later(v: View, w: View, keep: multiset<Resource>, host: nat) {
    && v.epoch <= w.epoch
    && (forall s | s in w.keys :: s in v.keys || s >= host)
    && (forall r | r in keep && r in v.born && r in v.gone ::
          r in w.born && r in w.gone && w.born[r] == v.born[r] && w.gone[r] == v.gone[r])
  }

  lemma ListLater(v: View, w: View, l: List, host: nat, keep: multiset<Resource>)
    requires ListOk(v, l, host) && Later(v, w, keep, host) && PendList(l) <= keep
    ensures ListOk(w, l, host)
  {
    forall p, e, r | p in l && e in p.entries && !e.deleted && r in Resources(e.item)
      ensures Placed(w, r, e.deleteEpoch, host, p.tag)
    {
      assert PageOk(v, p, host) && EntryOk(v, e, host, p.tag);
      assert Placed(v, r, e.deleteEpoch, host, p.tag);
      SumContains(p.entries, e, PendEntry);
      SumContains(l, p, PendPage);
      assert r in PendEntry(e);
    }
    forall p | p in l ensures PageOk(w, p, host) { assert PageOk(v, p, host); }
  }

  lemma InfoLater(v: View, w: View, info: Info, cpus: nat, keep: multiset<Resource>)
    requires InfoOk(v, info, cpus) && Later(v, w, keep, info.epoch) && PendInfo(info) <= keep
    ensures InfoOk(w, info, cpus)
  {
    forall l | l in info.lists ensures ListOk(w, l, info.epoch) {
      SumContains(info.lists, l, PendList);
      ListLater(v, w, l, info.epoch, keep);
    }
  }

  lemma InfosLater(st: State, w: View, infos: seq<Info>, cpus: nat, keep: multiset<Resource>)
    requires forall i | i in infos :: InfoOk(ViewOf(st), i, cpus) && Later(ViewOf(st), w, keep, i.epoch)
    requires Pend(infos) <= keep
    ensures forall i | i in infos :: InfoOk(w, i, cpus)
  {
    forall i | i in infos ensures InfoOk(w, i, cpus) {
      SumContains(infos, i, PendInfo);
      InfoLater(ViewOf(st), w, i, cpus, keep);
    }
  }

  /** Releasing resources whose lives no snapshot can see keeps the history sound. */
  lemma ReleasePast(st: State, rs: multiset<Resource>, keys: set<nat>)
    requires PastOk(st) && keys <= Keys(st.infos)
    requires forall r | r in rs :: r in st.born && r in st.gone && st.gone[r] <= st.epoch &&
                                   NoneIn(keys, st.born[r], st.gone[r])
    ensures var t := Release(st, rs);
            && (forall l | l in t.past :: l.gone <= t.epoch && NoneIn(keys, l.born, l.gone))
            && (forall r | r in t.free && r in t.gone :: r in t.born && Life(r, t.born[r], t.gone[r]) in t.past)
  {
    var t := Release(st, rs);
    forall r | r in t.free && r in t.gone ensures r in t.born && Life(r, t.born[r], t.gone[r]) in t.past {
      assert r in st.free || r in rs;
    }
  }

  // ---------------------------------------------------------------- create

  lemma EmptyInfoPends(epoch: nat, cpus: nat)
    ensures PendInfo(NewInfo(epoch, cpus)) == multiset{}
  {
    var info := NewInfo(epoch, cpus);
    forall l | l in info.lists ensures PendList(l) == multiset{} {
      assert l == [Page(epoch, [])];
      assert PendPage(l[0]) == multiset{};
      SumEmpty(l, PendPage);
    }
    SumEmpty(info.lists, PendList);
  }

  lemma KeysSnoc(infos: seq<Info>, info: Info)
    ensures Keys(infos + [info]) == Keys(infos) + {info.epoch}
  {
    var t := infos + [info];
    forall s ensures s in Keys(t) <==> s in Keys(infos) + {info.epoch} {
      if s in Keys(infos) {
        var i :| i in infos && i.epoch == s;
        assert i in t;
      }
      assert info in t;
    }
  }

  lemma NewInfoOk(v: View, epoch: nat, cpus: nat)
    requires epoch < v.epoch
    ensures InfoOk(v, NewInfo(epoch, cpus), cpus)
  {
    var info := NewInfo(epoch, cpus);
    forall l | l in info.lists ensures ListOk(v, l, info.epoch) {
      assert l == [Page(epoch, [])];
    }
  }

  lemma CreateKeepsTree(st: State, all: set<Resource>, cpus: nat)
    requires Inv(st, all, cpus)
    ensures Sorted(DoCreate(st, cpus).infos)
    ensures Keys(DoCreate(st, cpus).infos) == Keys(st.infos) + {st.epoch}
    ensures Pend(DoCreate(st, cpus).infos) == Pend(st.infos)
  {
    EmptyInfoPends(st.epoch, cpus);
    SumSnoc(st.infos, NewInfo(st.epoch, cpus), PendInfo);
    KeysSnoc(st.infos, NewInfo(st.epoch, cpus));
    forall i | i in st.infos ensures i.epoch < st.epoch { assert InfoOk(ViewOf(st), i, cpus); }
  }

  lemma CreateKeepsInfos(st: State, all: set<Resource>, cpus: nat)
    requires Inv(st, all, cpus)
    ensures forall i | i in DoCreate(st, cpus).infos :: InfoOk(ViewOf(DoCreate(st, cpus)), i, cpus)
  {
    var w := ViewOf(DoCreate(st, cpus));
    CreateKeepsTree(st, all, cpus);
    forall i | i in st.infos ensures InfoOk(ViewOf(st), i, cpus) && Later(ViewOf(st), w, Pend(st.infos), i.epoch) {}
    InfosLater(st, w, st.infos, cpus, Pend(st.infos));
    NewInfoOk(w, st.epoch, cpus);
  }

  lemma CreateKeeps(st: State, all: set<Resource>, cpus: nat)
    requires Inv(st, all, cpus)
    ensures Inv(DoCreate(st, cpus), all, cpus)
  {
    CreateKeepsTree(st, all, cpus);
    CreateKeepsInfos(st, all, cpus);
  }

  // ---------------------------------------------------------------- allocation

  lemma AllocMoves(st: State, all: set<Resource>, cpus: nat, rs: set<Resource>)
    requires Balanced(st, all) && Enabled(st, Alloc(rs), cpus)
    ensures var t := DoAlloc(st, rs);
            t.free + multiset(t.live) == st.free + multiset(st.live)
            && (forall r | r in rs :: r !in Pend(st.infos) && r !in t.free)
  {
    var t := DoAlloc(st, rs);
    forall r ensures t.free[r] + multiset(t.live)[r] == st.free[r] + multiset(st.live)[r]
                  && (r in rs ==> r !in Pend(st.infos) && t.free[r] == 0) {
      OnePlace(st, all, r);
      if r in rs { assert st.free[r] == 1 && r !in st.live; }
    }
  }

  lemma AllocKeeps(st: State, all: set<Resource>, cpus: nat, rs: set<Resource>)
    requires Inv(st, all, cpus) && Enabled(st, Alloc(rs), cpus)
    ensures Inv(DoAlloc(st, rs), all, cpus)
  {
    var t := DoAlloc(st, rs);
    AllocMoves(st, all, cpus, rs);
    assert forall i | i in t.infos :: InfoOk(ViewOf(t), i, cpus) by {
      forall i | i in st.infos ensures InfoOk(ViewOf(st), i, cpus) && Later(ViewOf(st), ViewOf(t), Pend(st.infos), i.epoch) {}
      InfosLater(st, ViewOf(t), st.infos, cpus, Pend(st.infos));
    }
    assert PastOk(t) by {
      forall r | r in t.free && r in t.gone ensures r in t.born && Life(r, t.born[r], t.gone[r]) in t.past {
        assert r in st.free && r !in rs;
      }
    }
  }

  // ---------------------------------------------------------------- drop

  /** A block that may be freed at once is out of every snapshot's sight. */
  lemma DeleteableUnseen(infos: seq<Info>, c: nat, d: nat)
    requires Sorted(infos)
    ensures Deleteable(infos, c, d) <==> c == d || NoneIn(Keys(infos), c, d)
  {
    NoneBefore(infos, c);
    var k := FirstAtLeast(infos, c);
    if k < |infos| { KeysAt(infos, k); }
  }

  lemma PendAppendInPage(l: List, e: Entry)
    requires l != []
    ensures var last := l[|l| - 1];
            PendList(l[|l| - 1 := last.(entries := last.entries + [e])]) == PendList(l) + PendEntry(e)
  {
    var last := l[|l| - 1];
    var last' := last.(entries := last.entries + [e]);
    var a, b := PendPage(last), PendEntry(e);
    SumSnoc(last.entries, e, PendEntry);
    SumUpdate(l, |l| - 1, last', PendPage);
    assert PendList(l) + (a + b) == (PendList(l) + b) + a;
    MsCancel(PendList(l[|l| - 1 := last']), PendList(l) + b, a);
  }

  lemma PendAppend(l: List, e: Entry, host: nat)
    requires l != []
    ensures PendList(Append(l, e, host)) == PendList(l) + PendEntry(e)
  {
    var last := l[|l| - 1];
    if |last.entries| < ENTRIES_PER_PAGE {
      PendAppendInPage(l, e);
    } else {
      SumSnoc([], e, PendEntry);
      assert [] + [e] == [e];
      SumSnoc(l, Page(host, [e]), PendPage);
    }
  }

  lemma AppendOk(v: View, l: List, e: Entry, host: nat)
    requires ListOk(v, l, host) && EntryOk(v, e, host, host)
    ensures ListOk(v, Append(l, e, host), host)
  {
    var m := Append(l, e, host);
    forall p | p in m ensures PageOk(v, p, host) {
      var i :| 0 <= i < |m| && m[i] == p;
      if i < |l| { assert PageOk(v, l[i], host); }
    }
  }

  /** Changing one CPU's list of one snapshot changes the deferred resources by that list alone. */
  lemma PendSetList(infos: seq<Info>, k: nat, cpu: nat, l: List)
    requires k < |infos| && cpu < |infos[k].lists|
    ensures var t := infos[k := infos[k].(lists := infos[k].lists[cpu := l])];
            Pend(t) + PendList(infos[k].lists[cpu]) == Pend(infos) + PendList(l)
  {
    var info := infos[k].(lists := infos[k].lists[cpu := l]);
    SumUpdate(infos[k].lists, cpu, l, PendList);
    SumUpdate(infos, k, info, PendInfo);
    MsChain(Pend(infos), Pend(infos[k := info]), PendInfo(infos[k]), PendInfo(info),
            PendList(infos[k].lists[cpu]), PendList(l));
  }

  /** The file system forgets `item`: from here on it is neither live nor free. */
  function Forget(st: State, item: Item, d: nat): State {
    st.(live := st.live - Resources(item), gone := st.gone + map r | r in Resources(item) :: d)
  }

  lemma ForgetKeeps(st: State, all: set<Resource>, cpus: nat, item: Item, c: nat, d: nat, cpu: nat)
    requires Inv(st, all, cpus) && Enabled(st, Drop(item, c, d, cpu), cpus)
    ensures var t := Forget(st, item, d); var rs := Resources(item);
            && (forall i | i in t.infos :: InfoOk(ViewOf(t), i, cpus))
            && PastOk(t) && LiveOk(t)
            && t.free + multiset(t.live) + Pend(t.infos) + multiset(rs) == multiset(all)
  {
    var t := Forget(st, item, d);
    var rs := Resources(item);
    forall r | r in rs ensures r !in Pend(st.infos) && r !in st.free { OnePlace(st, all, r); }
    assert multiset(t.live) + multiset(rs) == multiset(st.live);
    assert t.free + multiset(t.live) + Pend(t.infos) + multiset(rs)
        == st.free + multiset(st.live) + Pend(st.infos);
    forall i | i in st.infos ensures InfoOk(ViewOf(st), i, cpus) && Later(ViewOf(st), ViewOf(t), Pend(st.infos), i.epoch) {}
    InfosLater(st, ViewOf(t), st.infos, cpus, Pend(st.infos));
  }

  lemma DropFreesKeeps(st: State, all: set<Resource>, cpus: nat, item: Item, c: nat, d: nat, cpu: nat)
    requires Inv(st, all, cpus) && Enabled(st, Drop(item, c, d, cpu), cpus) && Deleteable(st.infos, c, d)
    ensures Inv(Release(Forget(st, item, d), multiset(Resources(item))), all, cpus)
  {
    var t := Forget(st, item, d);
    var rs := multiset(Resources(item));
    ForgetKeeps(st, all, cpus, item, c, d, cpu);
    DeleteableUnseen(st.infos, c, d);
    ReleasePast(t, rs, Keys(t.infos));
    assert t.free + rs + multiset(t.live) + Pend(t.infos) == t.free + multiset(t.live) + Pend(t.infos) + rs;
  }

  /** Where a dropped item goes when some snapshot can still read it. */
  function Defer(infos: seq<Info>, item: Item, c: nat, d: nat, cpu: nat): seq<Info>
    requires !Deleteable(infos, c, d)
    requires var i := infos[FirstAtLeast(infos, c)]; cpu < |i.lists| && i.lists[cpu] != []
  {
    var k := FirstAtLeast(infos, c);
    var info := infos[k];
    infos[k := info.(lists := info.lists[cpu := Append(info.lists[cpu], Entry(item, d, false), info.epoch)])]
  }

  lemma DeferredInfoOk(st: State, all: set<Resource>, cpus: nat, item: Item, c: nat, d: nat, cpu: nat)
    requires Inv(st, all, cpus) && Enabled(st, Drop(item, c, d, cpu), cpus) && !Deleteable(st.infos, c, d)
    ensures var i := st.infos[FirstAtLeast(st.infos, c)];
            && cpu < |i.lists| && i.lists[cpu] != []
            && InfoOk(ViewOf(Forget(st, item, d)), Defer(st.infos, item, c, d, cpu)[FirstAtLeast(st.infos, c)], cpus)
  {
    var v := ViewOf(Forget(st, item, d));
    var k := FirstAtLeast(st.infos, c);
    var info := st.infos[k];
    ForgetKeeps(st, all, cpus, item, c, d, cpu);
    assert InfoOk(v, info, cpus);
    var l := info.lists[cpu];
    var e := Entry(item, d, false);
    assert ListOk(v, l, info.epoch);
    NoneBefore(st.infos, c);
    forall r | r in Resources(item) ensures Placed(v, r, d, info.epoch, info.epoch) {}
    AppendOk(v, l, e, info.epoch);
    var m := Append(l, e, info.epoch);
    forall x | x in info.lists[cpu := m] ensures ListOk(v, x, info.epoch) {
      assert x == m || x in info.lists;
    }
  }

  lemma PendDefer(infos: seq<Info>, item: Item, c: nat, d: nat, cpu: nat)
    requires !Deleteable(infos, c, d)
    requires var i := infos[FirstAtLeast(infos, c)]; cpu < |i.lists| && i.lists[cpu] != []
    ensures Pend(Defer(infos, item, c, d, cpu)) == Pend(infos) + multiset(Resources(item))
  {
    var k := FirstAtLeast(infos, c);
    var l := infos[k].lists[cpu];
    var e := Entry(item, d, false);
    PendAppend(l, e, infos[k].epoch);
    PendSetList(infos, k, cpu, Append(l, e, infos[k].epoch));
    var a, b := PendList(l), PendEntry(e);
    assert Pend(Defer(infos, item, c, d, cpu)) + a == (Pend(infos) + b) + a;
    MsCancel(Pend(Defer(infos, item, c, d, cpu)), Pend(infos) + b, a);
  }

  lemma DropDefersKeeps(st: State, all: set<Resource>, cpus: nat, item: Item, c: nat, d: nat, cpu: nat)
    requires Inv(st, all, cpus) && Enabled(st, Drop(item, c, d, cpu), cpus) && !Deleteable(st.infos, c, d)
    requires var i := st.infos[FirstAtLeast(st.infos, c)]; cpu < |i.lists| && i.lists[cpu] != []
    ensures Inv(Forget(st, item, d).(infos := Defer(st.infos, item, c, d, cpu)), all, cpus)
  {
    var k := FirstAtLeast(st.infos, c);
    var t := Forget(st, item, d);
    var infos := Defer(st.infos, item, c, d, cpu);
    ForgetKeeps(st, all, cpus, item, c, d, cpu);
    DeferredInfoOk(st, all, cpus, item, c, d, cpu);
    KeysUpdate(st.infos, k, infos[k]);
    PendDefer(st.infos, item, c, d, cpu);
    MsAssoc(t.free + multiset(t.live), Pend(st.infos), multiset(Resources(item)));
    forall i | i in infos ensures InfoOk(ViewOf(t), i, cpus) {
      var j :| 0 <= j < |infos| && infos[j] == i;
      if j != k { assert i in st.infos; }
    }
  }

  lemma DropKeeps(st: State, all: set<Resource>, cpus: nat, item: Item, c: nat, d: nat, cpu: nat)
    requires Inv(st, all, cpus) && Enabled(st, Drop(item, c, d, cpu), cpus) && Shaped(st.infos, cpu + 1)
    ensures Inv(DoDrop(st, item, c, d, cpu), all, cpus)
    ensures Deleteable(st.infos, c, d) <==> c == d || NoneIn(Keys(st.infos), c, d)
    ensures Deleteable(st.infos, c, d) ==>
              DoDrop(st, item, c, d, cpu) == Release(Forget(st, item, d), multiset(Resources(item)))
    ensures !Deleteable(st.infos, c, d) ==>
              var i := st.infos[FirstAtLeast(st.infos, c)];
              cpu < |i.lists| && i.lists[cpu] != [] &&
              DoDrop(st, item, c, d, cpu) == Forget(st, item, d).(infos := Defer(st.infos, item, c, d, cpu))
  {
    DeleteableUnseen(st.infos, c, d);
    hide Inv, NoneIn, Keys, Append, InfoOk;
    if Deleteable(st.infos, c, d) {
      DropFreesKeeps(st, all, cpus, item, c, d, cpu);
    } else {
      DeferredInfoOk(st, all, cpus, item, c, d, cpu);
      DropDefersKeeps(st, all, cpus, item, c, d, cpu);
    }
  }

  // ---------------------------------------------------------------- delete

  lemma LinkPends(prev: Info, next: Info)
    requires |prev.lists| == |next.lists|
    ensures PendInfo(LinkInfo(prev, next)) == PendInfo(prev) + PendInfo(next)
  {
    var u := LinkInfo(prev, next).lists;
    forall i | 0 <= i < |u| ensures PendList(u[i]) == PendList(prev.lists[i]) + PendList(next.lists[i]) {
      SumConcat(prev.lists[i], next.lists[i], PendPage);
    }
    SumZip(prev.lists, next.lists, u, PendList);
  }

  /** `w` is `v` without the snapshot `gone`, whose successor is `host`. */
  ghost predicate Without(v: View, w: View, gone: nat, host: nat) {
    && w == v.(keys := w.keys) && w.keys <= v.keys && gone in v.keys && gone !in w.keys
    && gone < host && NoneIn(v.keys, gone + 1, host)
  }

  lemma LinkedPageOk(v: View, w: View, p: Page, gone: nat, host: nat)
    requires Without(v, w, gone, host) && PageOk(v, p, gone)
    ensures PageOk(w, p, host)
  {
    forall e, r | e in p.entries && !e.deleted && r in Resources(e.item)
      ensures Placed(w, r, e.deleteEpoch, host, p.tag)
    {
      assert EntryOk(v, e, gone, p.tag);
      assert Placed(v, r, e.deleteEpoch, gone, p.tag);
    }
  }

  lemma LinkedListOk(v: View, w: View, a: List, b: List, gone: nat, host: nat)
    requires Without(v, w, gone, host) && ListOk(v, a, gone) && ListOk(v, b, host)
    ensures ListOk(w, a + b, host)
  {
    forall p | p in a + b ensures PageOk(w, p, host) {
      if p in a {
        assert PageOk(v, p, gone);
        LinkedPageOk(v, w, p, gone, host);
      } else {
        ListLater(v, w, b, host, PendList(b));
      }
    }
    forall p | p in b ensures gone < p.tag { assert PageOk(v, p, host); }
    assert TagsRise(a + b) by {
      forall i, j | 0 <= i < j < |a + b| ensures (a + b)[i].tag <= (a + b)[j].tag {
        if i < |a| <= j {
          assert PageOk(v, a[i], gone) && (a + b)[j] in b;
        }
      }
    }
  }

  lemma LinkedInfoOk(v: View, w: View, prev: Info, next: Info, cpus: nat)
    requires InfoOk(v, prev, cpus) && InfoOk(v, next, cpus) && Without(v, w, prev.epoch, next.epoch)
    ensures InfoOk(w, LinkInfo(prev, next), cpus)
  {
    var u := LinkInfo(prev, next);
    forall l | l in u.lists ensures ListOk(w, l, next.epoch) {
      var i :| 0 <= i < |u.lists| && u.lists[i] == l;
      assert prev.lists[i] in prev.lists && next.lists[i] in next.lists;
      LinkedListOk(v, w, prev.lists[i], next.lists[i], prev.epoch, next.epoch);
    }
  }

  lemma SortedLink(infos: seq<Info>, k: nat, next: Info)
    requires Sorted(infos) && k + 1 < |infos| && next.epoch == infos[k + 1].epoch
    ensures var t := infos[..k] + [next] + infos[k + 2..];
            |t| == |infos| - 1 && Sorted(t)
            && forall i :: 0 <= i < |t| ==> t[i].epoch == infos[if i < k then i else i + 1].epoch
  {
  }

  /** Deleting snapshot `k` takes exactly its epoch out of the tree. */
  lemma KeysLink(infos: seq<Info>, t: seq<Info>, k: nat)
    requires Sorted(infos) && k + 1 < |infos| && |t| == |infos| - 1
    requires forall i :: 0 <= i < |t| ==> t[i].epoch == infos[if i < k then i else i + 1].epoch
    ensures Keys(t) == Keys(infos) - {infos[k].epoch}
  {
    forall s | s in Keys(t) ensures s in Keys(infos) && s != infos[k].epoch {
      var i :| 0 <= i < |t| && t[i].epoch == s;
      KeysAt(infos, if i < k then i else i + 1);
    }
    forall s | s in Keys(infos) && s != infos[k].epoch ensures s in Keys(t) {
      var j :| 0 <= j < |infos| && infos[j].epoch == s;
      KeysAt(t, if j < k then j else j - 1);
    }
  }

  lemma PendLink(infos: seq<Info>, k: nat)
    requires k + 1 < |infos| && |infos[k].lists| == |infos[k + 1].lists|
    ensures Pend(infos[..k] + [LinkInfo(infos[k], infos[k + 1])] + infos[k + 2..]) == Pend(infos)
  {
    var next := LinkInfo(infos[k], infos[k + 1]);
    var a, b := infos[..k], infos[k + 2..];
    LinkPends(infos[k], infos[k + 1]);
    assert infos == a + [infos[k]] + [infos[k + 1]] + b;
    SumConcat(a + [infos[k]] + [infos[k + 1]], b, PendInfo);
    SumSnoc(a + [infos[k]], infos[k + 1], PendInfo);
    SumSnoc(a, infos[k], PendInfo);
    SumConcat(a + [next], b, PendInfo);
    SumSnoc(a, next, PendInfo);
    MsAssoc(Pend(a), PendInfo(infos[k]), PendInfo(infos[k + 1]));
  }

  lemma LinkKeeps(st: State, all: set<Resource>, cpus: nat, k: nat)
    requires Inv(st, all, cpus) && k + 1 < |st.infos| && |st.infos[k].lists| == |st.infos[k + 1].lists|
    ensures var next := LinkInfo(st.infos[k], st.infos[k + 1]);
            Inv(st.(infos := st.infos[..k] + [next] + st.infos[k + 2..], target := Some(next.epoch)), all, cpus)
  {
    var next := LinkInfo(st.infos[k], st.infos[k + 1]);
    var infos := st.infos[..k] + [next] + st.infos[k + 2..];
    var t := st.(infos := infos, target := Some(next.epoch));
    SortedLink(st.infos, k, next);
    KeysLink(st.infos, infos, k);
    PendLink(st.infos, k);
    LinkedInfosOk(st, ViewOf(t), all, cpus, k);
  }

  lemma LinkWithout(infos: seq<Info>, v: View, w: View, k: nat)
    requires Sorted(infos) && k + 1 < |infos| && v.keys == Keys(infos)
    requires w == v.(keys := Keys(infos) - {infos[k].epoch})
    ensures Without(v, w, infos[k].epoch, infos[k + 1].epoch)
  {
    KeysAt(infos, k);
    NoneBefore(infos, infos[k].epoch + 1);
    FirstIs(infos, infos[k + 1].epoch, k + 1);
  }

  lemma LinkedInfosOk(st: State, w: View, all: set<Resource>, cpus: nat, k: nat)
    requires Inv(st, all, cpus) && k + 1 < |st.infos| && |st.infos[k].lists| == |st.infos[k + 1].lists|
    requires w == ViewOf(st).(keys := Keys(st.infos) - {st.infos[k].epoch})
    ensures var next := LinkInfo(st.infos[k], st.infos[k + 1]);
            forall i | i in st.infos[..k] + [next] + st.infos[k + 2..] :: InfoOk(w, i, cpus)
  {
    var next := LinkInfo(st.infos[k], st.infos[k + 1]);
    var infos := st.infos[..k] + [next] + st.infos[k + 2..];
    LinkWithout(st.infos, ViewOf(st), w, k);
    forall i | i in infos ensures InfoOk(w, i, cpus) {
      if i == next {
        LinkedInfoOk(ViewOf(st), w, st.infos[k], st.infos[k + 1], cpus);
      } else {
        assert i in st.infos;
        InfoLater(ViewOf(st), w, i, cpus, PendInfo(i));
      }
    }
  }

  lemma KeysPrefix(infos: seq<Info>, k: nat)
    requires Sorted(infos) && k < |infos|
    ensures Keys(infos[..k]) <= Keys(infos) && forall s | s in Keys(infos[..k]) :: s < infos[k].epoch
  {
    forall s | s in Keys(infos[..k]) ensures s in Keys(infos) && s < infos[k].epoch {
      var i :| 0 <= i < k && infos[i].epoch == s;
      KeysAt(infos, i);
    }
  }

  /** Deleting the newest snapshot frees all it deferred: nothing else can see it. */
  lemma DeleteLastKeeps(st: State, all: set<Resource>, cpus: nat)
    requires Inv(st, all, cpus) && st.infos != []
    ensures var k := |st.infos| - 1;
            Inv(Release(st, PendInfo(st.infos[k])).(infos := st.infos[..k]), all, cpus)
  {
    var k := |st.infos| - 1;
    var info := st.infos[k];
    var rs := PendInfo(info);
    var infos := st.infos[..k];
    var keys := Keys(infos);
    assert st.infos == infos + [info];
    SumSnoc(infos, info, PendInfo);
    KeysPrefix(st.infos, k);
    forall r | r in rs ensures r in st.born && r in st.gone && st.gone[r] <= st.epoch && NoneIn(keys, st.born[r], st.gone[r]) {
      PendPlaced(ViewOf(st), info, cpus, r);
      var gone: nat, tag: nat :| Placed(ViewOf(st), r, gone, info.epoch, tag);
    }
    ReleasePast(st, rs, keys);
    var t := Release(st, rs).(infos := infos);
    forall i | i in infos ensures InfoOk(ViewOf(t), i, cpus) {
      assert i in st.infos;
      InfoLater(ViewOf(st), ViewOf(t), i, cpus, PendInfo(i));
    }
    assert t.free + multiset(t.live) + Pend(infos) == st.free + multiset(st.live) + (Pend(infos) + rs);
  }

  lemma DeleteKeeps(st: State, all: set<Resource>, cpus: nat, epoch: nat)
    requires Inv(st, all, cpus) && forall i | i in st.infos :: |i.lists| == cpus
    ensures Inv(DoDelete(st, epoch, cpus), all, cpus)
  {
    hide Inv;
    var k := FirstAtLeast(st.infos, epoch);
    if k == |st.infos| || st.infos[k].epoch != epoch {
    } else if k + 1 < |st.infos| {
      LinkKeeps(st, all, cpus, k);
    } else {
      DeleteLastKeeps(st, all, cpus);
    }
  }

  // ---------------------------------------------------------------- clean

  lemma CleanPagePends(p: Page, epoch: nat)
    ensures PendPage(CleanPage(p, epoch)) <= PendPage(p)
  {
    SumMonotone(CleanPage(p, epoch).entries, p.entries, PendEntry);
  }

  lemma CleanListPends(l: List, epoch: nat)
    ensures PendList(CleanList(l, epoch)) <= PendList(l)
  {
    forall i | 0 <= i < |l| ensures PendPage(CleanList(l, epoch)[i]) <= PendPage(l[i]) {
      CleanPagePends(l[i], epoch);
    }
    SumMonotone(CleanList(l, epoch), l, PendPage);
  }

  lemma CleanInfoPends(info: Info)
    ensures PendInfo(CleanInfo(info)) <= PendInfo(info)
  {
    forall i | 0 <= i < |info.lists| ensures PendList(CleanInfo(info).lists[i]) <= PendList(info.lists[i]) {
      CleanListPends(info.lists[i], info.epoch);
    }
    SumMonotone(CleanInfo(info).lists, info.lists, PendList);
  }

  /** The cleaner frees a resource only if it was dropped no later than the snapshot was taken. */
  lemma CleanedPlaced(v: View, info: Info, cpus: nat, r: Resource)
    requires InfoOk(v, info, cpus) && PendInfo(info)[r] > PendInfo(CleanInfo(info))[r]
    ensures exists gone: nat, tag: nat :: Placed(v, r, gone, info.epoch, tag) && gone <= info.epoch
  {
    var c := SumWitness(info.lists, CleanInfo(info).lists, PendList, r);
    var l := info.lists[c];
    assert ListOk(v, l, info.epoch);
    var p := SumWitness(l, CleanList(l, info.epoch), PendPage, r);
    assert PageOk(v, l[p], info.epoch);
    var e := SumWitness(l[p].entries, CleanPage(l[p], info.epoch).entries, PendEntry, r);
    var en := l[p].entries[e];
    assert EntryOk(v, en, info.epoch, l[p].tag);
    assert Placed(v, r, en.deleteEpoch, info.epoch, l[p].tag);
  }

  lemma CleanedListOk(v: View, o: List, host: nat)
    requires ListOk(v, o, host)
    ensures ListOk(v, CleanList(o, host), host)
  {
    var l := CleanList(o, host);
    forall p | p in l ensures PageOk(v, p, host) {
      var i :| 0 <= i < |l| && l[i] == p;
      assert PageOk(v, o[i], host);
      forall e | e in p.entries ensures EntryOk(v, e, host, p.tag) {
        var j :| 0 <= j < |p.entries| && p.entries[j] == e;
        assert EntryOk(v, o[i].entries[j], host, p.tag);
      }
    }
  }

  lemma CleanedInfoOk(v: View, info: Info, cpus: nat)
    requires InfoOk(v, info, cpus)
    ensures InfoOk(v, CleanInfo(info), cpus)
  {
    hide ListOk, CleanList;
    var u := CleanInfo(info);
    forall l | l in u.lists ensures ListOk(v, l, info.epoch) {
      var c :| 0 <= c < |u.lists| && u.lists[c] == l;
      CleanedListOk(v, info.lists[c], info.epoch);
    }
  }

  lemma CleanKeeps(st: State, all: set<Resource>, cpus: nat)
    requires Inv(st, all, cpus) && TargetLive(st)
    ensures Inv(DoClean(st), all, cpus)
  {
    if st.target.Some? {
      var k := FirstAtLeast(st.infos, st.target.value);
      if k < |st.infos| {
        CleanAtKeeps(st, all, cpus, k);
      }
    }
  }

  lemma PendClean(infos: seq<Info>, k: nat)
    requires k < |infos|
    ensures var t := infos[k := CleanInfo(infos[k])];
            Pend(t) <= Pend(infos) && Pend(infos) - Pend(t) == PendInfo(infos[k]) - PendInfo(CleanInfo(infos[k]))
  {
    var t := infos[k := CleanInfo(infos[k])];
    CleanInfoPends(infos[k]);
    SumUpdate(infos, k, CleanInfo(infos[k]), PendInfo);
    forall r ensures Pend(t)[r] + PendInfo(infos[k])[r] == Pend(infos)[r] + PendInfo(t[k])[r] {
      assert (Pend(t) + PendInfo(infos[k]))[r] == (Pend(infos) + PendInfo(t[k]))[r];
    }
  }

  /** What cleaning snapshot `k` releases is out of every snapshot's sight. */
  lemma CleanedUnseen(st: State, all: set<Resource>, cpus: nat, k: nat)
    requires Inv(st, all, cpus) && k < |st.infos|
    ensures forall r | r in PendInfo(st.infos[k]) - PendInfo(CleanInfo(st.infos[k])) ::
              r in st.born && r in st.gone && st.gone[r] <= st.epoch && NoneIn(Keys(st.infos), st.born[r], st.gone[r])
  {
    var info := st.infos[k];
    forall r | r in PendInfo(info) - PendInfo(CleanInfo(info))
      ensures r in st.born && r in st.gone && st.gone[r] <= st.epoch && NoneIn(Keys(st.infos), st.born[r], st.gone[r])
    {
      CleanedPlaced(ViewOf(st), info, cpus, r);
      var gone: nat, tag: nat :| Placed(ViewOf(st), r, gone, info.epoch, tag) && gone <= info.epoch;
    }
  }

  lemma CleanedInfosOk(st: State, all: set<Resource>, cpus: nat, k: nat)
    requires Inv(st, all, cpus) && k < |st.infos|
    ensures forall i | i in st.infos[k := CleanInfo(st.infos[k])] :: InfoOk(ViewOf(st), i, cpus)
  {
    var infos := st.infos[k := CleanInfo(st.infos[k])];
    CleanedInfoOk(ViewOf(st), st.infos[k], cpus);
    forall i | i in infos ensures InfoOk(ViewOf(st), i, cpus) {
      var j :| 0 <= j < |infos| && infos[j] == i;
      if j != k { assert i in st.infos; }
    }
  }

  lemma ReleaseBalanced(st: State, all: set<Resource>, infos: seq<Info>)
    requires Balanced(st, all) && Pend(infos) <= Pend(st.infos)
    ensures Balanced(Release(st, Pend(st.infos) - Pend(infos)).(infos := infos, target := None), all)
  {
    var rs := Pend(st.infos) - Pend(infos);
    assert rs + Pend(infos) == Pend(st.infos);
    assert st.free + rs + multiset(st.live) + Pend(infos) == st.free + multiset(st.live) + (rs + Pend(infos));
  }

  lemma CleanAtKeeps(st: State, all: set<Resource>, cpus: nat, k: nat)
    requires Inv(st, all, cpus) && k < |st.infos|
    ensures var infos := st.infos[k := CleanInfo(st.infos[k])];
            Inv(Release(st, Pend(st.infos) - Pend(infos)).(infos := infos, target := None), all, cpus)
  {
    var infos := st.infos[k := CleanInfo(st.infos[k])];
    var rs := Pend(st.infos) - Pend(infos);
    PendClean(st.infos, k);
    KeysUpdate(st.infos, k, infos[k]);
    var t := Release(st, rs).(infos := infos, target := None);
    assert ViewOf(t) == ViewOf(st);
    CleanedInfosOk(st, all, cpus, k);
    assert PastOk(t) by {
      CleanedUnseen(st, all, cpus, k);
      ReleasePast(st, rs, Keys(infos));
    }
    ReleaseBalanced(st, all, infos);
  }

  // ---------------------------------------------------------------- remount

  lemma RetagPends(info: Info)
    ensures PendInfo(Retag(info)) == PendInfo(info)
  {
    var u := Retag(info).lists;
    forall i | 0 <= i < |u| ensures PendList(u[i]) == PendList(info.lists[i]) {
      SumSame(u[i], info.lists[i], PendPage);
    }
    SumSame(u, info.lists, PendList);
  }

  lemma RetaggedInfoOk(v: View, info: Info, cpus: nat)
    requires InfoOk(v, info, cpus)
    ensures InfoOk(v, Retag(info), cpus)
  {
    var u := Retag(info);
    forall l | l in u.lists ensures ListOk(v, l, info.epoch) {
      var c :| 0 <= c < |u.lists| && u.lists[c] == l;
      var o := info.lists[c];
      assert ListOk(v, o, info.epoch);
      forall p | p in l ensures PageOk(v, p, info.epoch) {
        var i :| 0 <= i < |l| && l[i] == p;
        assert PageOk(v, o[i], info.epoch);
        forall e | e in p.entries ensures EntryOk(v, e, info.epoch, p.tag) {
          assert EntryOk(v, e, info.epoch, o[i].tag);
        }
      }
    }
  }

  lemma RemountKeeps(st: State, all: set<Resource>, cpus: nat)
    requires Inv(st, all, cpus)
    ensures Inv(DoRemount(st), all, cpus)
  {
    var t := DoRemount(st);
    RetaggedKeys(st.infos, t.infos);
    assert Pend(t.infos) == Pend(st.infos) by {
      forall i | 0 <= i < |st.infos| ensures PendInfo(t.infos[i]) == PendInfo(st.infos[i]) {
        RetagPends(st.infos[i]);
      }
      SumSame(t.infos, st.infos, PendInfo);
    }
    forall i | i in t.infos ensures InfoOk(ViewOf(t), i, cpus) {
      var j :| 0 <= j < |t.infos| && t.infos[j] == i;
      assert st.infos[j] in st.infos;
      RetaggedInfoOk(ViewOf(st), st.infos[j], cpus);
    }
  }

  lemma RetaggedKeys(s: seq<Info>, t: seq<Info>)
    requires |s| == |t| && forall i :: 0 <= i < |s| ==> s[i].epoch == t[i].epoch
    ensures Keys(s) == Keys(t)
  {
    forall e | e in Keys(t) ensures e in Keys(s) {
      var i :| 0 <= i < |t| && t[i].epoch == e;
      KeysAt(s, i);
    }
    forall e | e in Keys(s) ensures e in Keys(t) {
      var i :| 0 <= i < |s| && s[i].epoch == e;
      KeysAt(t, i);
    }
  }

  // ---------------------------------------------------------------- every run

  lemma InvShaped(st: State, all: set<Resource>, cpus: nat)
    requires Inv(st, all, cpus)
    ensures Shaped(st.infos, cpus) && forall i | i in st.infos :: |i.lists| == cpus
  {
    forall i, l | i in st.infos && l in i.lists ensures l != [] {
      assert InfoOk(ViewOf(st), i, cpus) && ListOk(ViewOf(st), l, i.epoch);
    }
    forall i | i in st.infos ensures |i.lists| == cpus { assert InfoOk(ViewOf(st), i, cpus); }
  }

  lemma StepKeeps(st: State, s: Step, all: set<Resource>, cpus: nat)
    requires Inv(st, all, cpus) && Enabled(st, s, cpus)
    ensures Inv(Apply(st, s, all, cpus), all, cpus)
  {
    hide Inv;
    match s
    case Create => CreateKeeps(st, all, cpus);
    case Alloc(rs) => AllocKeeps(st, all, cpus, rs);
    case Drop(item, c, d, cpu) =>
      InvShaped(st, all, cpus);
      DropKeeps(st, all, cpus, item, c, d, cpu);
    case Delete(epoch) =>
      InvShaped(st, all, cpus);
      DeleteKeeps(st, all, cpus, epoch);
    case Clean => CleanKeeps(st, all, cpus);
    case Remount => RemountKeeps(st, all, cpus);
  }

  /** `t` is reachable from `st` by enabled steps. */
  ghost predicate Run(st: State, steps: seq<Step>, t: State, all: set<Resource>, cpus: nat)
    requires Inv(st, all, cpus)
    decreases |steps|
  {
    if steps == [] then t == st
    else
      Enabled(st, steps[0], cpus) &&
      (StepKeeps(st, steps[0], all, cpus);
       Run(Apply(st, steps[0], all, cpus), steps[1..], t, all, cpus))
  }

  lemma {:induction false} RunKeeps(st: State, steps: seq<Step>, t: State, all: set<Resource>, cpus: nat)
    requires Inv(st, all, cpus) && Run(st, steps, t, all, cpus)
    ensures Inv(t, all, cpus)
    decreases |steps|
  {
    if steps != [] {
      StepKeeps(st, steps[0], all, cpus);
      RunKeeps(Apply(st, steps[0], all, cpus), steps[1..], t, all, cpus);
    }
  }

  ghost predicate Reachable(t: State, all: set<Resource>, cpus: nat) {
    exists epoch: nat, steps: seq<Step> ::
      (InitInv(all, epoch, cpus); Run(Init(all, epoch), steps, t, all, cpus))
  }

  lemma ReachableInv(t: State, all: set<Resource>, cpus: nat)
    requires Reachable(t, all, cpus)
    ensures Inv(t, all, cpus)
  {
    var epoch: nat, steps: seq<Step> :|
      (InitInv(all, epoch, cpus); Run(Init(all, epoch), steps, t, all, cpus));
    InitInv(all, epoch, cpus);
    RunKeeps(Init(all, epoch), steps, t, all, cpus);
  }

  /** Snapshot `s` can read the latest life of `r`. */
  predicate Reads(st: State, s: nat, r: Resource) {
    r in st.born && st.born[r] <= s &&
    (r in st.live || (r in st.gone && s < st.gone[r]))
  }

  /**
   In every run no resource is freed twice, nothing a live snapshot can read is free, and no life
   that ever ended in a free covers a snapshot that is still alive.
   */
  lemma SnapshotSafe(t: State, all: set<Resource>, cpus: nat)
    requires Reachable(t, all, cpus)
    ensures forall r :: t.free[r] + (if r in t.live then 1 else 0) + Pend(t.infos)[r] == if r in all then 1 else 0
    ensures forall i, r | i in t.infos && Reads(t, i.epoch, r) :: r !in t.free
    ensures forall i, l | i in t.infos && l in t.past :: !(l.born <= i.epoch < l.gone)
  {
    ReachableInv(t, all, cpus);
    forall r ensures t.free[r] + (if r in t.live then 1 else 0) + Pend(t.infos)[r] == if r in all then 1 else 0 {
      OnePlace(t, all, r);
    }
    forall i, r | i in t.infos && Reads(t, i.epoch, r) ensures r !in t.free {
      OnePlace(t, all, r);
      assert i.epoch in Keys(t.infos);
    }
    forall i, l | i in t.infos && l in t.past ensures !(l.born <= i.epoch < l.gone) {
      assert i.epoch in Keys(t.infos);
    }
  }

  /** A deferred resource sits on the smallest live snapshot that is not older than it. */
  lemma DeferredPlacement(t: State, all: set<Resource>, cpus: nat, k: nat, r: Resource)
    requires Reachable(t, all, cpus) && k < |t.infos| && r in PendInfo(t.infos[k])
    ensures r in t.born && FirstAtLeast(t.infos, t.born[r]) == k
  {
    ReachableInv(t, all, cpus);
    var host := t.infos[k].epoch;
    PendPlaced(ViewOf(t), t.infos[k], cpus, r);
    var gone: nat, tag: nat :| Placed(ViewOf(t), r, gone, host, tag);
    var f := FirstAtLeast(t.infos, t.born[r]);
    if f < k {
      KeysAt(t.infos, f);
    }
  }

  /** Page tags never decrease along a list and end with the snapshot's own epoch. */
  lemma TagsNeverDecrease(t: State, all: set<Resource>, cpus: nat, info: Info, l: List)
    requires Reachable(t, all, cpus) && info in t.infos && l in info.lists
    ensures l != [] && l[|l| - 1].tag == info.epoch && TagsRise(l)
  {
    ReachableInv(t, all, cpus);
    assert InfoOk(ViewOf(t), info, cpus);
    assert ListOk(ViewOf(t), l, info.epoch);
  }

  /** Once every snapshot is gone, all that is not live is free exactly once, whatever the cleaner missed. */
  lemma Drained(t: State, all: set<Resource>, cpus: nat)
    requires Reachable(t, all, cpus) && t.infos == []
    ensures t.live <= all && t.free == multiset(all - t.live)
  {
    ReachableInv(t, all, cpus);
    forall r ensures r in t.live ==> r in all {
      OnePlace(t, all, r);
    }
    forall r ensures t.free[r] == multiset(all - t.live)[r] {
      OnePlace(t, all, r);
    }
  }

  // ---------------------------------------------------------------- the cleaner's target

  /**
   Deleting a snapshot leaves the cleaner pointed at a live one exactly when a newer snapshot
   exists, or the one deleted was not its target.
   */
  lemma DeleteKeepsTarget(st: State, all: set<Resource>, cpus: nat, k: nat)
    requires Inv(st, all, cpus) && TargetLive(st) && k < |st.infos|
    requires forall i | i in st.infos :: |i.lists| == cpus
    ensures TargetLive(DoDelete(st, st.infos[k].epoch, cpus))
       <==> k + 1 < |st.infos| || st.target != Some(st.infos[k].epoch)
  {
    FirstIs(st.infos, st.infos[k].epoch, k);
    var t := DoDelete(st, st.infos[k].epoch, cpus);
    if k + 1 < |st.infos| {
      assert t.infos[k].epoch == t.target.value;
    } else if st.target.Some? && st.target.value != st.infos[k].epoch {
      var i :| 0 <= i < |st.infos| && st.infos[i].epoch == st.target.value;
      assert t.infos[i].epoch == t.target.value;
    }
  }

  lemma {:induction false} RunOneMore(st: State, steps: seq<Step>, m: State, s: Step, all: set<Resource>, cpus: nat)
    requires Inv(st, all, cpus) && Run(st, steps, m, all, cpus)
    requires Inv(m, all, cpus) && Enabled(m, s, cpus)
    ensures Run(st, steps + [s], Apply(m, s, all, cpus), all, cpus)
    decreases |steps|
  {
    hide Inv, Enabled, Apply;
    if steps == [] {
      StepKeeps(st, s, all, cpus);
      assert [s][1..] == [];
    } else {
      StepKeeps(st, steps[0], all, cpus);
      RunOneMore(Apply(st, steps[0], all, cpus), steps[1..], m, s, all, cpus);
      assert (steps + [s])[1..] == steps[1..] + [s];
    }
  }

  lemma ReachOneMore(st: State, s: Step, all: set<Resource>, cpus: nat)
    requires Reachable(st, all, cpus) && Inv(st, all, cpus) && Enabled(st, s, cpus)
    ensures Reachable(Apply(st, s, all, cpus), all, cpus) && Inv(Apply(st, s, all, cpus), all, cpus)
  {
    hide Inv, Enabled, Apply, Run;
    var epoch: nat, steps: seq<Step> :|
      (InitInv(all, epoch, cpus); Run(Init(all, epoch), steps, st, all, cpus));
    InitInv(all, epoch, cpus);
    RunOneMore(Init(all, epoch), steps, st, s, all, cpus);
    ReachableInv(Apply(st, s, all, cpus), all, cpus);
  }

  lemma ReachCreate(st: State, all: set<Resource>, cpus: nat)
    requires Reachable(st, all, cpus)
    ensures Reachable(DoCreate(st, cpus), all, cpus)
  {
    hide Reachable, Inv;
    ReachableInv(st, all, cpus);
    ReachOneMore(st, Create, all, cpus);
  }

  lemma ReachDelete(st: State, epoch: nat, all: set<Resource>, cpus: nat)
    requires Reachable(st, all, cpus)
    ensures (forall i | i in st.infos :: |i.lists| == cpus) && Reachable(DoDelete(st, epoch, cpus), all, cpus)
  {
    hide Reachable;
    ReachableInv(st, all, cpus);
    assert forall i | i in st.infos :: InfoOk(ViewOf(st), i, cpus);
    ReachOneMore(st, Delete(epoch), all, cpus);
  }

  /**
   The newest snapshot is the cleaner's target when it is deleted: two snapshots, the older deleted and
   then the newer, before the cleaner has run.
   */
  lemma TargetLost(all: set<Resource>, epoch: nat, cpus: nat) returns (t: State)
    ensures Reachable(t, all, cpus) && t.infos == [] && t.target == Some(epoch + 1) && !TargetLive(t)
  {
    hide Reachable, FirstAtLeast;
    var st := Init(all, epoch);
    InitReachable(all, epoch, cpus);
    var one := DoCreate(st, cpus);
    ReachCreate(st, all, cpus);
    var two := DoCreate(one, cpus);
    ReachCreate(one, all, cpus);
    assert two.infos == [NewInfo(epoch, cpus), NewInfo(epoch + 1, cpus)];
    ReachDelete(two, epoch, all, cpus);
    var left := DoDelete(two, epoch, cpus);
    ReachDelete(left, epoch + 1, all, cpus);
    FirstIs(two.infos, epoch, 0);
    assert left.infos == [LinkInfo(two.infos[0], two.infos[1])];
    FirstIs(left.infos, epoch + 1, 0);
    t := DoDelete(left, epoch + 1, cpus);
  }

  lemma InitReachable(all: set<Resource>, epoch: nat, cpus: nat)
    ensures Reachable(Init(all, epoch), all, cpus)
  {
    InitInv(all, epoch, cpus);
    assert Run(Init(all, epoch), [], Init(all, epoch), all, cpus);
  }

  // ---------------------------------------------------------------- what the cleaner leaves

  ghost predicate FreshList(l: List) {
    forall p, e | p in l && e in p.entries && !e.deleted :: p.tag < e.deleteEpoch
  }

  /** A deferred entry in a page is dropped after the page's epoch: true until lists are restored. */
  ghost predicate Fresh(infos: seq<Info>) {
    forall i, l | i in infos && l in i.lists :: FreshList(l)
  }

  /** Nothing the cleaner could free for this epoch is left. */
  ghost predicate CleanedList(l: List, epoch: nat) {
    forall p, e | p in l && e in p.entries && !e.deleted :: e.deleteEpoch > epoch
  }

  lemma CleanListMissesNothing(l: List, epoch: nat)
    requires TagsRise(l) && FreshList(l)
    ensures CleanedList(CleanList(l, epoch), epoch) && FreshList(CleanList(l, epoch))
  {
    var u := CleanList(l, epoch);
    var s := Stop(l, epoch);
    forall p, e | p in u && e in p.entries && !e.deleted ensures e.deleteEpoch > epoch && e.deleteEpoch > p.tag {
      var i :| 0 <= i < |u| && u[i] == p;
      var j :| 0 <= j < |p.entries| && p.entries[j] == e;
      assert l[i] in l && l[i].entries[j] in l[i].entries;
      if i >= s {
        assert l[s].tag <= l[i].tag;
      }
    }
  }

  /** On lists whose pages still carry their own tags, stopping at the tag misses nothing. */
  lemma CleanerMissesNothing(st: State, all: set<Resource>, cpus: nat, k: nat)
    requires Inv(st, all, cpus) && Fresh(st.infos) && k < |st.infos|
    ensures forall l | l in CleanInfo(st.infos[k]).lists :: CleanedList(l, st.infos[k].epoch) && FreshList(l)
  {
    var info := st.infos[k];
    var u := CleanInfo(info);
    forall l | l in u.lists ensures CleanedList(l, info.epoch) && FreshList(l) {
      var c :| 0 <= c < |u.lists| && u.lists[c] == l;
      assert info in st.infos && info.lists[c] in info.lists;
      assert InfoOk(ViewOf(st), info, cpus) && ListOk(ViewOf(st), info.lists[c], info.epoch);
      CleanListMissesNothing(info.lists[c], info.epoch);
    }
  }

  lemma AppendFresh(l: List, e: Entry, host: nat)
    requires l != [] && l[|l| - 1].tag == host < e.deleteEpoch && FreshList(l)
    ensures FreshList(Append(l, e, host))
  {
    var m := Append(l, e, host);
    forall p, x | p in m && x in p.entries && !x.deleted ensures p.tag < x.deleteEpoch {
      var i :| 0 <= i < |m| && m[i] == p;
      if i < |l| {
        assert l[i] in l;
        assert x in l[i].entries || x == e;
      }
    }
  }

  lemma LinkFresh(a: List, b: List)
    requires FreshList(a) && FreshList(b)
    ensures FreshList(a + b)
  {
    forall p, e | p in a + b && e in p.entries && !e.deleted ensures p.tag < e.deleteEpoch {
      assert p in a || p in b;
    }
  }

  lemma CreateFresh(infos: seq<Info>, epoch: nat, cpus: nat)
    requires Fresh(infos)
    ensures Fresh(infos + [NewInfo(epoch, cpus)])
  {
    forall l | l in NewInfo(epoch, cpus).lists ensures FreshList(l) {
      assert l == [Page(epoch, [])];
    }
  }

  lemma DeferFresh(st: State, all: set<Resource>, cpus: nat, k: nat, cpu: nat, e: Entry)
    requires Inv(st, all, cpus) && Fresh(st.infos) && k < |st.infos| && cpu < |st.infos[k].lists|
    requires st.infos[k].lists[cpu] != [] && st.infos[k].epoch < e.deleteEpoch
    ensures var i := st.infos[k];
            Fresh(st.infos[k := i.(lists := i.lists[cpu := Append(i.lists[cpu], e, i.epoch)])])
  {
    var info := st.infos[k];
    assert info in st.infos && info.lists[cpu] in info.lists;
    assert InfoOk(ViewOf(st), info, cpus) && ListOk(ViewOf(st), info.lists[cpu], info.epoch);
    AppendFresh(info.lists[cpu], e, info.epoch);
    hide FreshList, Append, Inv;
    var m := Append(info.lists[cpu], e, info.epoch);
    forall l | l in info.lists[cpu := m] ensures FreshList(l) {
      assert l == m || l in info.lists;
    }
  }

  lemma LinkInfoFresh(infos: seq<Info>, k: nat)
    requires Fresh(infos) && k + 1 < |infos| && |infos[k].lists| == |infos[k + 1].lists|
    ensures Fresh(infos[..k] + [LinkInfo(infos[k], infos[k + 1])] + infos[k + 2..])
  {
    hide FreshList;
    var u := LinkInfo(infos[k], infos[k + 1]);
    forall l | l in u.lists ensures FreshList(l) {
      var c :| 0 <= c < |u.lists| && u.lists[c] == l;
      assert infos[k] in infos && infos[k + 1] in infos;
      LinkFresh(infos[k].lists[c], infos[k + 1].lists[c]);
    }
  }

  lemma CleanFresh(st: State, all: set<Resource>, cpus: nat, k: nat)
    requires Inv(st, all, cpus) && Fresh(st.infos) && k < |st.infos|
    ensures Fresh(st.infos[k := CleanInfo(st.infos[k])])
  {
    hide Inv, FreshList, CleanInfo;
    CleanerMissesNothing(st, all, cpus, k);
  }

  lemma DropFresh(st: State, all: set<Resource>, cpus: nat, item: Item, c: nat, d: nat, cpu: nat)
    requires Inv(st, all, cpus) && Enabled(st, Drop(item, c, d, cpu), cpus) && Fresh(st.infos)
    requires Shaped(st.infos, cpu + 1)
    ensures Fresh(DoDrop(st, item, c, d, cpu).infos)
  {
    hide Inv, Fresh, FreshList, Append, LivesOf;
    DropKeeps(st, all, cpus, item, c, d, cpu);
    if !Deleteable(st.infos, c, d) {
      DeferFresh(st, all, cpus, FirstAtLeast(st.infos, c), cpu, Entry(item, d, false));
    }
  }

  lemma DeleteFresh(st: State, epoch: nat, cpus: nat)
    requires Fresh(st.infos) && forall i | i in st.infos :: |i.lists| == cpus
    ensures Fresh(DoDelete(st, epoch, cpus).infos)
  {
    hide FreshList, LinkInfo, LivesOf;
    var k := FirstAtLeast(st.infos, epoch);
    if k + 1 < |st.infos| {
      LinkInfoFresh(st.infos, k);
    }
  }

  lemma CleanStepFresh(st: State, all: set<Resource>, cpus: nat)
    requires Inv(st, all, cpus) && Fresh(st.infos)
    ensures Fresh(DoClean(st).infos)
  {
    hide Inv, Fresh, FreshList, CleanInfo, LivesOf;
    if st.target.Some? {
      var k := FirstAtLeast(st.infos, st.target.value);
      if k < |st.infos| { CleanFresh(st, all, cpus, k); }
    }
  }

  /** Every step but a remount keeps page tags below the drop epochs of their entries. */
  lemma FreshKept(st: State, s: Step, all: set<Resource>, cpus: nat)
    requires Inv(st, all, cpus) && Enabled(st, s, cpus) && Fresh(st.infos) && s != Remount
    ensures Fresh(Apply(st, s, all, cpus).infos)
  {
    InvShaped(st, all, cpus);
    hide Inv, Fresh, NewInfo, DoDelete, DoDrop, DoClean;
    match s
    case Create => CreateFresh(st.infos, st.epoch, cpus);
    case Drop(item, c, d, cpu) => DropFresh(st, all, cpus, item, c, d, cpu);
    case Delete(epoch) => DeleteFresh(st, epoch, cpus);
    case Clean => CleanStepFresh(st, all, cpus);
    case _ =>
  }
}
