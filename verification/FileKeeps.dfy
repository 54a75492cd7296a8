/** What single file operations keep: the accounts, the index and the recorded sizes. */
module FileKeeps {
  import opened Common
  import opened FileLog

  // ---------------------------------------------------------------- dropping pages keeps accounts

  lemma DropUsers(st: File, p: nat, b: nat)
    requires IndexOk(st.acct.log, st.index) && p in st.index
    ensures var t := Drop(st, p);
            |Users(t.acct.log, t.index, b)| == |Users(st.acct.log, st.index, b)| - if Nvmm(st.acct.log[st.index[p]], p) == b then 1 else 0
  {
    var t := Drop(st, p);
    var u, v := Users(st.acct.log, st.index, b), Users(t.acct.log, t.index, b);
    forall q | q in t.index ensures t.index[q] == st.index[q] && Nvmm(t.acct.log[t.index[q]], q) == Nvmm(st.acct.log[st.index[q]], q) {
      assert Shape(st.acct.log[st.index[q]]) == Shape(t.acct.log[st.index[q]]);
    }
    if p in u {
      assert v == u - {p};
    } else {
      assert v == u;
    }
  }

  lemma DropEntryOk(st: File, p: nat, k: nat, young: nat)
    requires IndexOk(st.acct.log, st.index) && p in st.index && EntriesOk(st, young) && k < |st.acct.log|
    ensures EntryOk(Drop(st, p), k, young)
  {
    var t := Drop(st, p);
    var j := st.index[p];
    var m, n := Mapped(st.index, k), Mapped(t.index, k);
    assert EntryOk(st, k, young);
    if k == j {
      assert p in m && n == m - {p};
    } else {
      assert n == m;
    }
  }

  lemma FreeRunCounts(a: Acct, k: nat, p: nat, n: nat)
    requires CountsOk(a) && k < |a.log| && a.log[k].Covers(p) && !a.log[k].Dead()
    ensures CountsOk(FreeRun(a, k, p, n))
  {
    var e := Invalidated(a.log[k], n);
    SumUpdate(a.log, k, e, DeadPage);
  }

  lemma DropCore(st: File, p: nat, all: multiset<nat>, young: nat)
    requires Core(st, all, young)
    ensures Core(Drop(st, p), all, young)
  {
    if p !in st.index { return; }
    var t := Drop(st, p);
    var k := st.index[p];
    assert !st.acct.log[k].Dead() by {
      assert EntryOk(st, k, young) && p in Mapped(st.index, k);
    }
    FreeRunCounts(st.acct, k, p, 1);
    hide CountsOk;
    forall j: nat | j < |t.acct.log| ensures EntryOk(t, j, young) {
      DropEntryOk(st, p, j, young);
    }
    forall b: nat ensures t.acct.free[b] + |Users(t.acct.log, t.index, b)| == all[b] {
      DropUsers(st, p, b);
    }
  }

  lemma {:induction false} DropRangeCore(st: File, lo: nat, hi: nat, all: multiset<nat>, young: nat)
    requires Core(st, all, young)
    ensures Core(DropRange(st, lo, hi), all, young)
    decreases hi
  {
    hide EntriesOk, BlocksOk, CountsOk, Drop;
    if lo < hi {
      DropRangeCore(st, lo, hi - 1, all, young);
      DropCore(DropRange(st, lo, hi - 1), hi - 1, all, young);
    }
  }

  // ---------------------------------------------------------------- appending to the log

  lemma {:induction false} SumAppend(log: seq<LogEntry>, es: seq<LogEntry>)
    requires forall e | e in es :: !e.Dead()
    ensures Sum(log + es, DeadPage) == Sum(log, DeadPage)
  {
    SumConcat(log, es, DeadPage);
    SumEmpty(es, DeadPage);
  }

  lemma UsersAppend(log: seq<LogEntry>, index: map<nat, nat>, es: seq<LogEntry>, b: nat)
    requires IndexOk(log, index)
    ensures IndexOk(log + es, index) && Users(log + es, index, b) == Users(log, index, b)
  {
  }

  /** New entries that map nothing yet keep the accounts. */
  lemma AppendCore(st: File, es: seq<LogEntry>, all: multiset<nat>)
    requires Core(st, all, |st.acct.log|) && forall e | e in es :: !e.Dead() && (e.Write? ==> e.invalid == 0)
    ensures Core(Append(st, es), all, |st.acct.log|)
  {
    var t := Append(st, es);
    SumAppend(st.acct.log, es);
    forall k: nat | k < |t.acct.log| ensures EntryOk(t, k, |st.acct.log|) {
      if k < |st.acct.log| { assert EntryOk(st, k, |st.acct.log|); } else { assert t.acct.log[k] in es; }
    }
    forall b: nat ensures t.acct.free[b] + |Users(t.acct.log, t.index, b)| == all[b] {
      UsersAppend(st.acct.log, st.index, es, b);
    }
  }

  /** An entry that maps nothing needs no assigning. */
  lemma PassEntry(st: File, k: nat, all: multiset<nat>)
    requires Core(st, all, k) && k < |st.acct.log| && !st.acct.log[k].Write?
    ensures Core(st, all, k + 1)
  {
    hide BlocksOk, CountsOk, IndexOk;
    var next := k + 1;
    forall j: nat | j < |st.acct.log| ensures EntryOk(st, j, next) { assert EntryOk(st, j, k); }
  }

  // ---------------------------------------------------------------- mapping the pages of a new entry

  lemma AssignAt(index: map<nat, nat>, e: LogEntry, k: nat, p: nat)
    requires e.Write?
    ensures var u := Repoint(index, e.pgoff, e.num, k);
            (p in u <==> p in index || e.Covers(p)) && (p in u ==> u[p] == if e.Covers(p) then k else index[p])
  {
    assert e.Covers(p) <==> Between(e.pgoff, e.num, p);
  }

  lemma UsersGrow(log: seq<LogEntry>, index: map<nat, nat>, u: map<nat, nat>, k: nat, b: nat)
    requires IndexOk(log, index) && IndexOk(log, u) && k < |log| && log[k].Write?
    requires forall p: nat | log[k].Covers(p) :: p !in index
    requires forall p: nat :: p in u <==> p in index || log[k].Covers(p)
    requires forall p | p in u :: u[p] == if log[k].Covers(p) then k else index[p]
    ensures |Users(log, u, b)| == |Users(log, index, b)| + if log[k].block <= b < log[k].block + log[k].num then 1 else 0
  {
    var e := log[k];
    var before, after := Users(log, index, b), Users(log, u, b);
    forall p: nat ensures Holds(log, u, p, b) <==> Holds(log, index, p, b) || (e.Covers(p) && e.block + (p - e.pgoff) == b) {}
    hide Holds, IndexOk;
    if e.block <= b < e.block + e.num {
      var p := e.pgoff + (b - e.block);
      assert e.Covers(p) && p !in before;
      assert after == before + {p};
    } else {
      assert after == before;
    }
  }

  lemma AssignUsers(log: seq<LogEntry>, index: map<nat, nat>, k: nat, b: nat)
    requires IndexOk(log, index) && k < |log| && log[k].Write?
    requires forall p: nat | log[k].Covers(p) :: p !in index
    ensures var u := Repoint(index, log[k].pgoff, log[k].num, k);
            IndexOk(log, u) &&
            |Users(log, u, b)| == |Users(log, index, b)| + if log[k].block <= b < log[k].block + log[k].num then 1 else 0
  {
    var e := log[k];
    var u := Repoint(index, e.pgoff, e.num, k);
    forall p: nat ensures (p in u <==> p in index || e.Covers(p)) && (p in u ==> u[p] == if e.Covers(p) then k else index[p]) {
      AssignAt(index, e, k, p);
    }
    hide Repoint, Users;
    UsersGrow(log, index, u, k, b);
  }

  lemma AssignEntry(st: File, k: nat, j: nat)
    requires IndexOk(st.acct.log, st.index) && EntriesOk(st, k) && k < |st.acct.log| && st.acct.log[k].Write? && j < |st.acct.log|
    requires forall p: nat | st.acct.log[k].Covers(p) :: p !in st.index
    ensures EntryOk(st.(index := Repoint(st.index, st.acct.log[k].pgoff, st.acct.log[k].num, k)), j, k + 1)
  {
    var e := st.acct.log[k];
    var u := Repoint(st.index, e.pgoff, e.num, k);
    assert EntryOk(st, j, k);
    assert forall p: nat :: e.Covers(p) <==> Between(e.pgoff, e.num, p);
    if j == k {
      assert forall p: nat :: p in Mapped(u, k) <==> e.pgoff <= p < e.pgoff + e.num by {
        assert forall p | p in st.index :: st.index[p] != k by {
          forall p | p in st.index ensures st.index[p] != k {
            assert p in Mapped(st.index, st.index[p]);
          }
        }
      }
      RangeCard(e.pgoff, e.num, Mapped(u, k));
    } else {
      assert Mapped(u, j) == Mapped(st.index, j);
    }
  }

  lemma AssignFresh(t: File, k: nat, all: multiset<nat>)
    requires Core(t, all, k) && k < |t.acct.log| && t.acct.log[k].Write?
    requires forall p: nat | t.acct.log[k].Covers(p) :: p !in t.index
    ensures Core(Point(t, k), all + BlockRange(t.acct.log[k].block, t.acct.log[k].num), k + 1)
  {
    var u := Point(t, k);
    hide IndexOk, BlocksOk, CountsOk, EntryOk, Repoint;
    AssignBlocks(t, k, all);
    var next := k + 1;
    forall j: nat | j < |u.acct.log| ensures EntryOk(u, j, next) {
      AssignEntry(t, k, j);
    }
  }

  lemma AssignCore(st: File, k: nat, all: multiset<nat>)
    requires Core(st, all, k) && k < |st.acct.log| && st.acct.log[k].Write?
    ensures Core(DoAssign(st, k), all + BlocksOf(st.acct.log[k]), k + 1)
  {
    hide DropRange, EntriesOk, BlocksOk, CountsOk, Point;
    var lo, hi := st.acct.log[k].pgoff, st.acct.log[k].pgoff + st.acct.log[k].num;
    DropRangeEntry(st, lo, hi, k);
    DropRangeCore(st, lo, hi, all, k);
    forall p: nat | lo <= p < hi ensures p !in DropRange(st, lo, hi).index { DropRangeAt(st, lo, hi, p); }
    AssignFresh(DropRange(st, lo, hi), k, all);
  }

  lemma AssignBlocks(t: File, k: nat, all: multiset<nat>)
    requires IndexOk(t.acct.log, t.index) && BlocksOk(t, all) && k < |t.acct.log| && t.acct.log[k].Write?
    requires forall p: nat | t.acct.log[k].Covers(p) :: p !in t.index
    ensures var e := t.acct.log[k];
            var u := t.(index := Repoint(t.index, e.pgoff, e.num, k));
            IndexOk(u.acct.log, u.index) && BlocksOk(u, all + BlockRange(e.block, e.num))
  {
    var e := t.acct.log[k];
    var u := t.(index := Repoint(t.index, e.pgoff, e.num, k));
    AssignUsers(t.acct.log, t.index, k, 0);
    forall b: nat ensures u.acct.free[b] + |Users(u.acct.log, u.index, b)| == (all + BlockRange(e.block, e.num))[b] {
      AssignUsers(t.acct.log, t.index, k, b);
    }
  }

  // ---------------------------------------------------------------- what the last entry says

  lemma {:induction false} LastSameShape(s: seq<LogEntry>, t: seq<LogEntry>, p: nat)
    requires SameShape(s, t)
    ensures Last(s, p) == Last(t, p)
  {
    if s != [] {
      var n := |s| - 1;
      assert Shape(s[n]) == Shape(t[n]);
      LastSameShape(s[..n], t[..n], p);
    }
  }

  lemma {:induction false} LastSizeShape(s: seq<LogEntry>, t: seq<LogEntry>)
    requires SameShape(s, t)
    ensures LastSize(s) == LastSize(t)
  {
    if s != [] {
      var n := |s| - 1;
      assert Shape(s[n]) == Shape(t[n]);
      LastSizeShape(s[..n], t[..n]);
    }
  }

  lemma LastNext(log: seq<LogEntry>, k: nat, p: nat)
    requires k < |log|
    ensures Last(log[..k + 1], p) ==
              if log[k].Covers(p) then Some(k)
              else if log[k].SetAttr? && Pages(log[k].size) <= p then None else Last(log[..k], p)
  {
    assert log[..k + 1][..k] == log[..k];
  }

  // ---------------------------------------------------------------- the steps keep the invariant

  /** The index after assigning an entry, page by page. */
  lemma AssignIndex(st: File, k: nat, p: nat)
    requires IndexOk(st.acct.log, st.index) && k < |st.acct.log| && st.acct.log[k].Write?
    ensures var u := DoAssign(st, k);
            var e := st.acct.log[k];
            && (p in u.index <==> p in st.index || e.Covers(p))
            && (p in u.index ==> u.index[p] == if e.Covers(p) then k else st.index[p])
            && SameShape(st.acct.log, u.acct.log)
  {
    hide DropRange, Repoint;
    var e := st.acct.log[k];
    var t := DropRange(st, e.pgoff, e.pgoff + e.num);
    DropRangeEntry(st, e.pgoff, e.pgoff + e.num, k);
    DropRangeAt(st, e.pgoff, e.pgoff + e.num, p);
    AssignAt(t.index, t.acct.log[k], k, p);
  }

  lemma TakeBlocks(st: File, all: multiset<nat>, r: multiset<nat>, young: nat, size: nat)
    requires Core(st, all, young) && r <= st.acct.free
    ensures r <= all
    ensures Core(File(st.acct.(free := st.acct.free - r), st.index, size), all - r, young)
  {
    var t := File(st.acct.(free := st.acct.free - r), st.index, size);
    TakeEntries(st, t, young);
    forall b: nat ensures r[b] <= all[b] && t.acct.free[b] + |Users(t.acct.log, t.index, b)| == (all - r)[b] {
      assert st.acct.free[b] + |Users(st.acct.log, st.index, b)| == all[b];
    }
  }

  lemma TakeEntries(st: File, t: File, young: nat)
    requires EntriesOk(st, young) && t.acct.log == st.acct.log && t.index == st.index
    ensures EntriesOk(t, young)
  {
    forall k: nat | k < |t.acct.log| ensures EntryOk(t, k, young) { assert EntryOk(st, k, young); }
  }

  lemma NothingFrom(st: File, all: multiset<nat>, young: nat, size: nat)
    requires Core(st, all, young)
    ensures Core(st.(size := size), all, young)
  {
    hide EntriesOk, CountsOk;
    TakeBlocks(st, all, multiset{}, young, size);
    assert all - multiset{} == all && st.acct.free - multiset{} == st.acct.free;
  }

  lemma {:induction false} BlocksFromShape(s: seq<LogEntry>, t: seq<LogEntry>, k: nat)
    requires SameShape(s, t)
    ensures BlocksFrom(s, k) == BlocksFrom(t, k)
    decreases |s| - k
  {
    if k < |s| {
      assert Shape(s[k]) == Shape(t[k]);
      BlocksFromShape(s, t, k + 1);
    }
  }

  lemma {:induction false} BlocksFromShift(log: seq<LogEntry>, es: seq<LogEntry>, k: nat)
    ensures BlocksFrom(log + es, |log| + k) == BlocksFrom(es, k)
    decreases |es| - k
  {
    if k < |es| {
      BlocksFromShift(log, es, k + 1);
    }
  }

  /** Assigning the entries of a write puts all their blocks to use. */
  lemma {:induction false} AssignAllCore(st: File, k: nat, all: multiset<nat>)
    requires Core(st, all, k) && k <= |st.acct.log|
    ensures Core(AssignAll(st, k), all + BlocksFrom(st.acct.log, k), |AssignAll(st, k).acct.log|)
    decreases |st.acct.log| - k
  {
    hide EntriesOk, BlocksOk, CountsOk, DoAssign, SameShape;
    if k == |st.acct.log| {
      assert all + BlocksFrom(st.acct.log, k) == all;
    } else if !st.acct.log[k].Write? {
      PassEntry(st, k, all);
      AssignAllCore(st, k + 1, all);
      assert BlocksFrom(st.acct.log, k) == BlocksFrom(st.acct.log, k + 1);
    } else {
      var u := DoAssign(st, k);
      AssignCore(st, k, all);
      AssignKeepsIndexOk(st, k);
      SameLength(st.acct.log, u.acct.log);
      AssignAllCore(u, k + 1, all + BlocksOf(st.acct.log[k]));
      BlocksFromShape(st.acct.log, u.acct.log, k + 1);
      MsAssoc(all, BlocksOf(st.acct.log[k]), BlocksFrom(st.acct.log, k + 1));
    }
  }

  lemma SameLength(s: seq<LogEntry>, t: seq<LogEntry>)
    requires SameShape(s, t)
    ensures |s| == |t|
  {
  }

  lemma WriteCore(st: File, es: seq<LogEntry>, all: multiset<nat>)
    requires Core(st, all, |st.acct.log|) && Enabled(st, WriteFile(es))
    ensures var u := Apply(st, WriteFile(es)); Core(u, all, |u.acct.log|)
  {
    hide EntriesOk, BlocksOk, CountsOk, AssignAll;
    var r := BlocksFrom(es, 0);
    WriteFits(st, es);
    AppendCore(st, es, all);
    TakeBlocks(Append(st, es), all, r, |st.acct.log|, NewSize(st, es));
    BlocksFromShift(st.acct.log, es, 0);
    AssignAllCore(Logged(st, es), |st.acct.log|, all - r);
    assert all - r + r == all;
  }

  lemma AssignIndexInv(st: File, k: nat)
    requires IndexOk(st.acct.log, st.index) && k < |st.acct.log| && st.acct.log[k].Write?
    requires IndexInv(st, k) && st.acct.log[k].pgoff + st.acct.log[k].num <= Pages(st.size)
    requires Unmapped(st.index, k)
    ensures IndexInv(DoAssign(st, k), k + 1)
  {
    hide DoAssign, Last, Pages;
    var u := DoAssign(st, k);
    AssignKeepsIndexOk(st, k);
    forall p: nat
      ensures (p in u.index <==> p in st.index || st.acct.log[k].Covers(p))
      ensures p in u.index ==> u.index[p] == if st.acct.log[k].Covers(p) then k else st.index[p]
    {
      AssignIndex(st, k, p);
    }
    AssignLast(st, u, k);
  }

  /** No page maps to `k` yet. */
  ghost predicate Unmapped(index: map<nat, nat>, k: nat) {
    forall p | p in index :: index[p] != k
  }

  lemma AssignLast(st: File, u: File, k: nat)
    requires k < |st.acct.log| && st.acct.log[k].Write? && SameShape(st.acct.log, u.acct.log) && IndexIsLast(st, k)
    requires forall p: nat :: p in u.index <==> p in st.index || st.acct.log[k].Covers(p)
    requires forall p | p in u.index :: u.index[p] == if st.acct.log[k].Covers(p) then k else st.index[p]
    ensures IndexIsLast(u, k + 1)
  {
    hide Last;
    forall p: nat ensures Lookup(u.index, p) == Last(u.acct.log[..k + 1], p) {
      assert SameShape(st.acct.log[..k + 1], u.acct.log[..k + 1]);
      LastSameShape(st.acct.log[..k + 1], u.acct.log[..k + 1], p);
      LastNext(st.acct.log, k, p);
      assert Lookup(st.index, p) == Last(st.acct.log[..k], p);
    }
  }

  /** What is still to be assigned fits the file and maps no page yet. */
  ghost predicate Waiting(st: File, k: nat) {
    && (forall p | p in st.index :: st.index[p] < k)
    && forall j :: k <= j < |st.acct.log| ==> st.acct.log[j].Write? && st.acct.log[j].pgoff + st.acct.log[j].num <= Pages(st.size)
  }

  lemma WaitingNext(st: File, k: nat)
    requires IndexOk(st.acct.log, st.index) && k < |st.acct.log| && Waiting(st, k)
    ensures Waiting(DoAssign(st, k), k + 1)
  {
    hide DoAssign, Pages;
    var u := DoAssign(st, k);
    AssignKeepsIndexOk(st, k);
    forall p | p in u.index ensures u.index[p] < k + 1 { AssignIndex(st, k, p); }
    forall j | k + 1 <= j < |u.acct.log| ensures u.acct.log[j].Write? && u.acct.log[j].pgoff + u.acct.log[j].num <= Pages(u.size) {
      assert Shape(st.acct.log[j]) == Shape(u.acct.log[j]);
    }
  }

  lemma {:induction false} AssignAllIndex(st: File, k: nat)
    requires IndexOk(st.acct.log, st.index) && k <= |st.acct.log| && IndexInv(st, k) && Waiting(st, k)
    ensures IndexInv(AssignAll(st, k), |AssignAll(st, k).acct.log|)
    decreases |st.acct.log| - k
  {
    hide DoAssign, Pages, IndexInv, SameShape;
    if k < |st.acct.log| {
      AssignKeepsIndexOk(st, k);
      SameLength(st.acct.log, DoAssign(st, k).acct.log);
      AssignIndexInv(st, k);
      WaitingNext(st, k);
      AssignAllIndex(DoAssign(st, k), k + 1);
    }
  }

  lemma WriteIndex(st: File, es: seq<LogEntry>)
    requires IndexOk(st.acct.log, st.index) && IndexInv(st, |st.acct.log|) && Enabled(st, WriteFile(es))
    ensures var u := Apply(st, WriteFile(es)); IndexInv(u, |u.acct.log|)
  {
    hide Last, AssignAll, Pages, NoHoles, Enabled;
    WriteFits(st, es);
    var k := |st.acct.log|;
    var t := Logged(st, es);
    PagesMono(st.size, t.size);
    assert t.acct.log[..k] == st.acct.log[..k];
    assert IndexInv(t, k);
    forall j | k <= j < |t.acct.log| ensures t.acct.log[j].Write? && t.acct.log[j].pgoff + t.acct.log[j].num <= Pages(t.size) {
      assert t.acct.log[j] in es;
    }
    AssignAllIndex(t, k);
  }

  lemma SetSizeCore(st: File, page: nat, size: nat, all: multiset<nat>)
    requires Core(st, all, |st.acct.log|)
    ensures Core(Apply(st, SetSize(page, size)), all, |Apply(st, SetSize(page, size)).acct.log|)
  {
    hide EntriesOk, BlocksOk, CountsOk, DropRange, Pages;
    var t := Append(st, [SetAttr(page, size, true, false)]);
    AppendCore(st, [SetAttr(page, size, true, false)], all);
    PassEntry(t, |st.acct.log|, all);
    DropRangeCore(t, Pages(size), Pages(st.size), all, |t.acct.log|);
    NothingFrom(DropRange(t, Pages(size), Pages(st.size)), all, |t.acct.log|, size);
  }

  lemma SetSizeIndex(st: File, page: nat, size: nat)
    requires IndexOk(st.acct.log, st.index) && IndexInv(st, |st.acct.log|)
    ensures var u := Apply(st, SetSize(page, size)); IndexInv(u, |u.acct.log|)
  {
    hide DropRange, Pages, Last, SameShape, NoHoles;
    var n := |st.acct.log|;
    var t := Append(st, [SetAttr(page, size, true, false)]);
    var u := Apply(st, SetSize(page, size));
    SameLength(t.acct.log, u.acct.log);
    forall p: nat ensures Lookup(u.index, p) == if p < Pages(size) then Lookup(st.index, p) else None {
      DropRangeAt(t, Pages(size), Pages(st.size), p);
    }
    forall p: nat ensures Lookup(u.index, p) == Last(u.acct.log[..n + 1], p) {
      assert t.acct.log[..n + 1] == t.acct.log && u.acct.log[..n + 1] == u.acct.log;
      LastSameShape(t.acct.log, u.acct.log, p);
      LastNext(t.acct.log, n, p);
      assert t.acct.log[..n] == st.acct.log[..n];
      assert Lookup(st.index, p) == Last(st.acct.log[..n], p);
    }
    LookupShrinks(st.index, u.index, Pages(size));
  }

  lemma LookupShrinks(index: map<nat, nat>, u: map<nat, nat>, n: nat)
    requires NoHoles(index) && forall p: nat :: Lookup(u, p) == if p < n then Lookup(index, p) else None
    ensures NoHoles(u) && forall p | p in u :: p < n
  {
    forall p | p in u ensures p < n && p in index && u[p] == index[p] { assert Lookup(u, p) == Some(u[p]); }
    forall p, q, r | p in u && r in u && u[p] == u[r] && p <= q <= r ensures q in u {
      assert q in index;
      assert Lookup(u, q) == Some(index[q]);
    }
  }

  lemma {:induction false} AssignAllShape(st: File, k: nat)
    requires IndexOk(st.acct.log, st.index)
    ensures SameShape(st.acct.log, AssignAll(st, k).acct.log) && AssignAll(st, k).size == st.size
    decreases |st.acct.log| - k
  {
    hide DoAssign, IndexOk, Shape;
    if k < |st.acct.log| {
      if st.acct.log[k].Write? {
        AssignKeepsIndexOk(st, k);
        AssignAllShape(DoAssign(st, k), k + 1);
      } else {
        AssignAllShape(st, k + 1);
      }
    }
  }

  // ---------------------------------------------------------------- sizes

  lemma {:induction false} LastSizeNext(log: seq<LogEntry>, k: nat)
    requires k < |log|
    ensures LastSize(log[..k + 1]) == if log[k].Other? then LastSize(log[..k]) else log[k].size
  {
    assert log[..k + 1][..k] == log[..k];
  }

  lemma SizesShape(s: seq<LogEntry>, t: seq<LogEntry>)
    requires SameShape(s, t) && SizesOk(s) && LastAttrStands(s)
    ensures SizesOk(t) && LastAttrStands(t) && LastSize(t) == LastSize(s)
  {
    hide Pages, LastSize;
    LastSizeShape(s, t);
    forall k: nat | k < |t| ensures SizeOk(t, k) {
      assert Shape(s[k]) == Shape(t[k]) && SizeOk(s, k);
      assert SameShape(s[..k], t[..k]);
      LastSizeShape(s[..k], t[..k]);
    }
    forall k: nat | k < |t| && t[k].SetAttr? && t[k].dropped ensures exists j :: k < j < |t| && t[j].SetAttr? {
      assert Shape(s[k]) == Shape(t[k]);
      var j :| k < j < |s| && s[j].SetAttr?;
      assert Shape(s[j]) == Shape(t[j]);
    }
  }

  lemma {:induction false} LastSizeOfWrites(log: seq<LogEntry>, es: seq<LogEntry>)
    requires es != [] && !es[|es| - 1].Other?
    ensures LastSize(log + es) == es[|es| - 1].size
  {
    assert (log + es)[|log + es| - 1] == es[|es| - 1];
  }

  lemma SizesAppendWrites(log: seq<LogEntry>, es: seq<LogEntry>)
    requires SizesOk(log) && LastAttrStands(log) && forall i :: 0 <= i < |es| ==> ExtentOk(es, i, LastSize(log))
    ensures SizesOk(log + es) && LastAttrStands(log + es)
  {
    hide Pages;
    var t := log + es;
    forall k: nat | k < |t| ensures SizeOk(t, k) {
      if k < |log| {
        assert SizeOk(log, k) && t[..k] == log[..k];
      } else {
        assert ExtentOk(es, k - |log|, LastSize(log));
        assert t[k] == es[k - |log|];
        if k == |log| {
          assert t[..k] == log;
        } else {
          LastSizeNext(t, k - 1);
          assert t[k - 1] == es[k - |log| - 1];
        }
      }
    }
    NoAttrs(es, LastSize(log));
    AttrAppend(log, es);
  }

  lemma SizesAppendOther(log: seq<LogEntry>, e: LogEntry)
    requires SizesOk(log) && LastAttrStands(log)
    requires !e.Write? && !e.dropped && (e.SetAttr? && !e.setsSize ==> e.size == LastSize(log))
    ensures SizesOk(log + [e]) && LastAttrStands(log + [e])
  {
    hide Pages;
    var t := log + [e];
    forall k: nat | k < |t| ensures SizeOk(t, k) {
      if k < |log| {
        assert SizeOk(log, k) && t[..k] == log[..k];
      } else {
        assert t[..k] == log;
      }
    }
    AttrAppend(log, [e]);
  }

  lemma AttrAppend(log: seq<LogEntry>, es: seq<LogEntry>)
    requires LastAttrStands(log) && forall i :: 0 <= i < |es| && es[i].SetAttr? ==> !es[i].dropped
    ensures LastAttrStands(log + es)
  {
    var t := log + es;
    forall k: nat | k < |t| && t[k].SetAttr? && t[k].dropped ensures exists j :: k < j < |t| && t[j].SetAttr? {
      if k < |log| {
        var j :| k < j < |log| && log[j].SetAttr?;
        assert t[j].SetAttr?;
      }
    }
  }

  lemma NoAttrs(es: seq<LogEntry>, size: nat)
    requires forall i :: 0 <= i < |es| ==> ExtentOk(es, i, size)
    ensures forall i :: 0 <= i < |es| ==> es[i].Write?
  {
    forall i: nat | i < |es| ensures es[i].Write? {
      assert ExtentOk(es, i, size);
    }
  }

  lemma WriteSizes(st: File, es: seq<LogEntry>)
    requires IndexOk(st.acct.log, st.index) && SizeInv(st) && Enabled(st, WriteFile(es))
    ensures SizeInv(Apply(st, WriteFile(es)))
  {
    hide AssignAll, Pages, BlocksFrom, ExtentOk, SizesOk, LastAttrStands, LastSize, SameShape;
    WriteFits(st, es);
    AssignAllShape(Logged(st, es), |st.acct.log|);
    SizesAppendWrites(st.acct.log, es);
    SizesShape(st.acct.log + es, Apply(st, WriteFile(es)).acct.log);
    if es == [] {
      assert st.acct.log + es == st.acct.log;
    } else {
      assert es[|es| - 1] in es;
      LastSizeOfWrites(st.acct.log, es);
    }
  }

  lemma SetSizeSizes(st: File, page: nat, size: nat)
    requires IndexOk(st.acct.log, st.index) && SizeInv(st)
    ensures SizeInv(Apply(st, SetSize(page, size)))
  {
    hide DropRange, Pages, SizesOk, LastAttrStands, LastSize, SameShape;
    var e := SetAttr(page, size, true, false);
    SizesAppendOther(st.acct.log, e);
    SizesShape(st.acct.log + [e], Apply(st, SetSize(page, size)).acct.log);
    LastSizeOfWrites(st.acct.log, [e]);
  }

  lemma OtherSizes(st: File, e: LogEntry)
    requires SizeInv(st) && Enabled(st, OtherEntry(e))
    ensures SizeInv(Append(st, [e]))
  {
    hide SizesOk, LastAttrStands;
    SizesAppendOther(st.acct.log, e);
    assert (st.acct.log + [e])[..|st.acct.log|] == st.acct.log;
  }

  // ---------------------------------------------------------------- superseded entries

  lemma {:induction false} LastDrop(log: seq<LogEntry>, k: nat, p: nat)
    requires k < |log| && !log[k].Write?
    ensures var t := log[k := log[k].(dropped := true)];
            Last(t, p) == Last(log, p) && LastSize(t) == LastSize(log)
  {
    var n := |log| - 1;
    var t := log[k := log[k].(dropped := true)];
    if k < n {
      LastDrop(log[..n], k, p);
      assert t[..n] == log[..n][k := log[k].(dropped := true)];
    } else {
      assert t[..n] == log[..n];
    }
  }

  lemma DropUsersSame(log: seq<LogEntry>, index: map<nat, nat>, k: nat, b: nat)
    requires IndexOk(log, index) && k < |log| && !log[k].Write?
    ensures var t := log[k := log[k].(dropped := true)]; IndexOk(t, index) && Users(t, index, b) == Users(log, index, b)
  {
    var t := log[k := log[k].(dropped := true)];
    assert forall p | p in index :: t[index[p]] == log[index[p]];
  }

  lemma InvalidateCore(st: File, k: nat, all: multiset<nat>)
    requires Core(st, all, |st.acct.log|) && Enabled(st, Invalidate(k))
    ensures Core(DropEntry(st, k), all, |st.acct.log|)
  {
    var u := DropEntry(st, k);
    SumUpdate(st.acct.log, k, u.acct.log[k], DeadPage);
    forall j: nat | j < |u.acct.log| ensures EntryOk(u, j, |st.acct.log|) { assert EntryOk(st, j, |st.acct.log|); }
    forall b: nat ensures u.acct.free[b] + |Users(u.acct.log, u.index, b)| == all[b] { DropUsersSame(st.acct.log, st.index, k, b); }
  }

  lemma InvalidateIndex(st: File, k: nat)
    requires IndexOk(st.acct.log, st.index) && IndexInv(st, |st.acct.log|) && k < |st.acct.log| && !st.acct.log[k].Write?
    ensures IndexInv(DropEntry(st, k), |st.acct.log|)
  {
    hide Last, Pages, NoHoles;
    var u := DropEntry(st, k);
    var n := |st.acct.log|;
    forall p: nat ensures Lookup(u.index, p) == Last(u.acct.log[..n], p) {
      assert u.acct.log[..n] == u.acct.log && st.acct.log[..n] == st.acct.log;
      LastDrop(st.acct.log, k, p);
      assert Lookup(st.index, p) == Last(st.acct.log[..n], p);
    }
  }

  lemma InvalidateSizes(st: File, k: nat)
    requires SizeInv(st) && Enabled(st, Invalidate(k))
    ensures SizeInv(DropEntry(st, k))
  {
    hide Pages, LastSize, Last;
    var log := st.acct.log;
    var u := DropEntry(st, k).acct.log;
    LastDrop(log, k, 0);
    forall j: nat | j < |u| ensures SizeOk(u, j) {
      assert SizeOk(log, j);
      if k < j {
        LastDrop(log[..j], k, 0);
        assert u[..j] == log[..j][k := log[k].(dropped := true)];
      } else {
        assert u[..j] == log[..j];
      }
    }
    forall i: nat | i < |u| && u[i].SetAttr? && u[i].dropped ensures exists j :: i < j < |u| && u[j].SetAttr? {
      if i == k {
        var j :| k < j < |log| && log[j].SetAttr?;
        assert u[j].SetAttr?;
      } else {
        var j :| i < j < |log| && log[j].SetAttr?;
        assert u[j].SetAttr?;
      }
    }
  }

  lemma OtherKeeps(st: File, e: LogEntry, all: multiset<nat>)
    requires Core(st, all, |st.acct.log|) && IndexInv(st, |st.acct.log|) && Enabled(st, OtherEntry(e))
    ensures var u := Apply(st, OtherEntry(e)); Core(u, all, |u.acct.log|) && IndexInv(u, |u.acct.log|)
  {
    hide EntriesOk, BlocksOk, CountsOk, Last, Pages, NoHoles;
    var n := |st.acct.log|;
    var u := Append(st, [e]);
    AppendCore(st, [e], all);
    PassEntry(u, n, all);
    forall p: nat ensures Lookup(u.index, p) == Last(u.acct.log[..n + 1], p) {
      LastNext(u.acct.log, n, p);
      assert u.acct.log[..n] == st.acct.log[..n];
      assert Lookup(st.index, p) == Last(st.acct.log[..n], p);
    }
  }
}
