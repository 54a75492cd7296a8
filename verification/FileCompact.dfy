/** Leaving dead entries out of a file log changes nothing that a replay or the index can see. */
module FileCompact {
  import opened Common
  import opened FileLog
  import opened FileKeeps

  lemma {:induction false} LastBounded(s: seq<LogEntry>, p: nat)
    requires SizesOk(s) && Last(s, p).Some?
    ensures p < Pages(LastSize(s))
  {
    hide Pages;
    var n := |s| - 1;
    assert SizeOk(s, n);
    if !s[n].Covers(p) {
      PrefixSizes(s, n);
      LastBounded(s[..n], p);
      if !(s[n].SetAttr? && s[n].setsSize) {
        PagesMono(LastSize(s[..n]), LastSize(s));
      }
    }
  }

  lemma PrefixSizes(s: seq<LogEntry>, k: nat)
    requires SizesOk(s) && k <= |s|
    ensures SizesOk(s[..k])
  {
    hide Pages, LastSize;
    forall j: nat | j < k ensures SizeOk(s[..k], j) {
      assert SizeOk(s, j) && s[..k][..j] == s[..j];
    }
  }

  // ---------------------------------------------------------------- one entry less

  /** The embedding without the newest entry of `s`. */
  lemma EmbedPrefix(s: seq<LogEntry>, t: seq<LogEntry>, at: seq<nat>)
    requires Embeds(s, t, at) && s != []
    ensures var n := |s| - 1; var m := |at| - 1;
            if at != [] && at[m] == n then Embeds(s[..n], t[..m], at[..m]) && Moved(s[n], t[m]) else Embeds(s[..n], t, at)
  {
    var n := |s| - 1;
    if at != [] {
      var m := |at| - 1;
      assert forall i :: 0 <= i < m ==> at[i] < at[m];
    }
  }

  lemma KeptPrefix(at: seq<nat>, k: nat)
    requires at != [] && k != at[|at| - 1]
    ensures Kept(at[..|at| - 1], k) == Kept(at, k)
  {
    if Kept(at, k) {
      var i :| 0 <= i < |at| && at[i] == k;
      assert at[..|at| - 1][i] == k;
    }
  }

  lemma DropsDeadPrefix(s: seq<LogEntry>, t: seq<LogEntry>, at: seq<nat>)
    requires Embeds(s, t, at) && DropsDead(s, at) && s != []
    ensures var n := |s| - 1; var m := |at| - 1;
            if at != [] && at[m] == n then DropsDead(s[..n], at[..m]) else DropsDead(s[..n], at) && s[n].Dead()
  {
    var n := |s| - 1;
    if at != [] && at[|at| - 1] == n {
      forall k: nat | k < n && !Kept(at[..|at| - 1], k) ensures s[..n][k].Dead() { KeptPrefix(at, k); }
    } else {
      NotKeptLast(s, t, at);
    }
  }

  // ---------------------------------------------------------------- what the last entry says

  /** The kept copy of what was last for `p`. */
  ghost predicate Image(o: Option<nat>, r: Option<nat>, at: seq<nat>) {
    if o.None? then r.None? else r.Some? && r.value < |at| && at[r.value] == o.value
  }

  lemma {:induction false} EmbedLast(s: seq<LogEntry>, t: seq<LogEntry>, at: seq<nat>, p: nat)
    requires Embeds(s, t, at) && DropsDead(s, at) && SizesOk(s)
    requires Last(s, p).Some? ==> Kept(at, Last(s, p).value)
    ensures Image(Last(s, p), Last(t, p), at)
    decreases |s|
  {
    hide Pages, Embeds, DropsDead, LastSize, SizesOk;
    if s == [] {
      EmbedNothing(t, at);
    } else {
      var n := |s| - 1;
      EmbedPrefix(s, t, at);
      DropsDeadPrefix(s, t, at);
      PrefixSizes(s, n);
      var e := s[n];
      if at != [] && at[|at| - 1] == n {
        EmbedLength(s, t, at);
        if !e.Covers(p) && !(e.SetAttr? && Pages(e.size) <= p) {
          if Last(s, p).Some? { KeptPrefix(at, Last(s, p).value); }
          EmbedLast(s[..n], t[..|at| - 1], at[..|at| - 1], p);
        }
      } else {
        NotKeptLast(s, t, at);
        if e.SetAttr? && Pages(e.size) <= p {
          DroppedHarmless(s, p);
        }
        EmbedLast(s[..n], t, at, p);
      }
    }
  }

  lemma EmbedNothing(t: seq<LogEntry>, at: seq<nat>)
    requires Embeds([], t, at)
    ensures t == [] && at == []
  {
    AllBelow(at, 0);
  }

  lemma AllBelow(at: seq<nat>, n: nat)
    requires forall i :: 0 <= i < |at| ==> at[i] < n
    ensures at != [] ==> 0 < n
  {
    if at != [] { assert at[0] < n; }
  }

  lemma EmbedLength(s: seq<LogEntry>, t: seq<LogEntry>, at: seq<nat>)
    requires Embeds(s, t, at)
    ensures |t| == |at|
  {
  }

  lemma NotKeptLast(s: seq<LogEntry>, t: seq<LogEntry>, at: seq<nat>)
    requires Embeds(s, t, at) && s != [] && (at == [] || at[|at| - 1] != |s| - 1)
    ensures !Kept(at, |s| - 1)
  {
    forall i: nat | i < |at| ensures at[i] <= at[|at| - 1] < |s| - 1 {
      assert i < |at| - 1 ==> at[i] < at[|at| - 1];
    }
  }

  /** A dropped attribute entry repeats a size past which nothing is mapped. */
  lemma DroppedHarmless(s: seq<LogEntry>, p: nat)
    requires SizesOk(s) && s != [] && s[|s| - 1].SetAttr? && s[|s| - 1].dropped && Pages(s[|s| - 1].size) <= p
    ensures Last(s[..|s| - 1], p) == None
  {
    hide Pages, Last, LastSize;
    var n := |s| - 1;
    assert SizeOk(s, n);
    PrefixSizes(s, n);
    if Last(s[..n], p).Some? {
      LastBounded(s[..n], p);
      PagesMono(LastSize(s[..n]), s[n].size);
    }
  }

  // ---------------------------------------------------------------- sizes

  lemma {:induction false} EmbedSize(s: seq<LogEntry>, t: seq<LogEntry>, at: seq<nat>)
    requires Embeds(s, t, at) && DropsDead(s, at) && SizesOk(s)
    ensures LastSize(t) <= LastSize(s)
    decreases |s|
  {
    hide Pages, Embeds, DropsDead, SizesOk;
    if s == [] {
      EmbedNothing(t, at);
    } else {
      var n := |s| - 1;
      EmbedPrefix(s, t, at);
      DropsDeadPrefix(s, t, at);
      PrefixSizes(s, n);
      EmbedLength(s, t, at);
      SizeAt(s, n);
      if at != [] && at[|at| - 1] == n {
        EmbedSize(s[..n], t[..|at| - 1], at[..|at| - 1]);
      } else {
        EmbedSize(s[..n], t, at);
      }
    }
  }

  lemma SizeAt(s: seq<LogEntry>, k: nat)
    requires SizesOk(s) && k < |s|
    ensures SizeOk(s, k)
  {
  }

  /** `m` is the last entry that records a size. */
  ghost predicate LastSized(s: seq<LogEntry>, m: nat) {
    m < |s| && !s[m].Other? && forall j :: m < j < |s| ==> s[j].Other?
  }

  /** The last entry that records a size is kept, so the recorded size is the same. */
  lemma {:induction false} EmbedSameSize(s: seq<LogEntry>, t: seq<LogEntry>, at: seq<nat>)
    requires Embeds(s, t, at)
    requires forall m: nat | LastSized(s, m) :: Kept(at, m)
    ensures LastSize(t) == LastSize(s)
    decreases |s|
  {
    hide Embeds, LastSized, Kept;
    if s == [] {
      EmbedNothing(t, at);
    } else {
      var n := |s| - 1;
      EmbedPrefix(s, t, at);
      EmbedLength(s, t, at);
      if s[n].Other? {
        if at != [] && at[|at| - 1] == n {
          forall m: nat | LastSized(s[..n], m) ensures Kept(at[..|at| - 1], m) {
            LastSizedNext(s, m);
            KeptPrefix(at, m);
          }
          EmbedSameSize(s[..n], t[..|at| - 1], at[..|at| - 1]);
        } else {
          forall m: nat | LastSized(s[..n], m) ensures Kept(at, m) { LastSizedNext(s, m); }
          EmbedSameSize(s[..n], t, at);
        }
      } else {
        LastSizedHere(s);
        assert Kept(at, n);
        if at == [] || at[|at| - 1] != n { NotKeptLast(s, t, at); }
      }
    }
  }

  lemma LastSizedNext(s: seq<LogEntry>, m: nat)
    requires s != [] && s[|s| - 1].Other? && LastSized(s[..|s| - 1], m)
    ensures LastSized(s, m) && m < |s| - 1
  {
  }

  lemma LastSizedHere(s: seq<LogEntry>)
    requires s != [] && !s[|s| - 1].Other?
    ensures LastSized(s, |s| - 1)
  {
  }

  lemma {:induction false} LastOverOthers(s: seq<LogEntry>, m: nat, p: nat)
    requires LastSized(s, m) && s[m].Covers(p)
    ensures Last(s, p) == Some(m)
    decreases |s|
  {
    if m < |s| - 1 {
      LastOverOthers(s[..|s| - 1], m, p);
    }
  }

  lemma {:induction false} StandingAttr(s: seq<LogEntry>, k: nat) returns (j: nat)
    requires LastAttrStands(s) && k < |s| && s[k].SetAttr?
    ensures k <= j < |s| && s[j].SetAttr? && !s[j].dropped
    decreases |s| - k
  {
    if !s[k].dropped {
      j := k;
    } else {
      var i :| k < i < |s| && s[i].SetAttr?;
      j := StandingAttr(s, i);
    }
  }

  /** The entry a page maps to is alive, so it is kept. */
  lemma MappedAlive(st: File, all: multiset<nat>, k: nat, p: nat)
    requires Inv(st, all) && k < |st.acct.log| && Last(st.acct.log, p) == Some(k)
    ensures !st.acct.log[k].Dead() && p in st.index && st.index[p] == k
  {
    hide Last, BlocksOk, CountsOk, NoHoles, NothingPastEof, SizeInv;
    assert st.acct.log[..|st.acct.log|] == st.acct.log;
    assert Lookup(st.index, p) == Last(st.acct.log, p);
    assert EntryOk(st, k, |st.acct.log|) && p in Mapped(st.index, k);
  }

  lemma CollectSize(st: File, u: File, at: seq<nat>, all: multiset<nat>)
    requires Inv(st, all) && Compaction(st, u, at)
    ensures LastSize(u.acct.log) == LastSize(st.acct.log)
  {
    hide Core, IndexInv, LastSize, Last, Pages;
    var s := st.acct.log;
    forall m: nat | LastSized(s, m) ensures Kept(at, m) {
      if !Kept(at, m) {
        assert s[m].Dead() && SizeOk(s, m);
        if s[m].Write? {
          LastOverOthers(s, m, s[m].pgoff);
          MappedAlive(st, all, m, s[m].pgoff);
        }
      }
    }
    EmbedSameSize(s, u.acct.log, at);
  }

  lemma EmbedUpTo(s: seq<LogEntry>, t: seq<LogEntry>, at: seq<nat>, i: nat)
    requires Embeds(s, t, at) && DropsDead(s, at) && i < |at|
    ensures at[i] < |s| && Embeds(s[..at[i]], t[..i], at[..i]) && DropsDead(s[..at[i]], at[..i])
  {
    forall k: nat | k < at[i] && Kept(at, k) ensures Kept(at[..i], k) {
      var j :| 0 <= j < |at| && at[j] == k;
      assert j < i;
      assert at[..i][j] == k;
    }
  }

  lemma CollectSizes(st: File, u: File, at: seq<nat>, all: multiset<nat>)
    requires Inv(st, all) && Compaction(st, u, at)
    ensures SizeInv(u)
  {
    hide Core, IndexInv, LastSize, Last, Pages;
    var s, t := st.acct.log, u.acct.log;
    CollectSize(st, u, at, all);
    forall i: nat | i < |t| ensures SizeOk(t, i) {
      assert SizeOk(s, at[i]);
      EmbedUpTo(s, t, at, i);
      PrefixSizes(s, at[i]);
      EmbedSize(s[..at[i]], t[..i], at[..i]);
    }
    forall i: nat | i < |t| && t[i].SetAttr? && t[i].dropped ensures exists j :: i < j < |t| && t[j].SetAttr? {
      var k := StandingAttr(s, at[i]);
      assert Kept(at, k);
      var j :| 0 <= j < |at| && at[j] == k;
      assert t[j].SetAttr?;
    }
  }

  // ---------------------------------------------------------------- accounts

  lemma CollectHolds(st: File, u: File, at: seq<nat>, p: nat, b: nat)
    requires IndexOk(st.acct.log, st.index) && Compaction(st, u, at)
    ensures IndexOk(u.acct.log, u.index) && Holds(u.acct.log, u.index, p, b) == Holds(st.acct.log, st.index, p, b)
  {
    forall q | q in u.index ensures u.index[q] < |u.acct.log| && u.acct.log[u.index[q]].Covers(q) {
      assert Moved(st.acct.log[at[u.index[q]]], u.acct.log[u.index[q]]);
    }
  }

  lemma CollectEntry(st: File, u: File, at: seq<nat>, i: nat)
    requires EntriesOk(st, |st.acct.log|) && Compaction(st, u, at) && i < |u.acct.log|
    ensures EntryOk(u, i, |u.acct.log|)
  {
    var k := at[i];
    assert EntryOk(st, k, |st.acct.log|) && Moved(st.acct.log[k], u.acct.log[i]);
    forall p ensures p in Mapped(u.index, i) <==> p in Mapped(st.index, k) {
      if p in Mapped(st.index, k) {
        var j := u.index[p];
        assert at[j] == k;
        assert j == i;
      }
    }
    assert Mapped(u.index, i) == Mapped(st.index, k);
  }

  lemma CollectCore(st: File, u: File, at: seq<nat>, all: multiset<nat>)
    requires Core(st, all, |st.acct.log|) && Compaction(st, u, at)
    ensures Core(u, all, |u.acct.log|)
  {
    hide Embeds, Kept, Holds;
    CollectHolds(st, u, at, 0, 0);
    forall i: nat | i < |u.acct.log| ensures EntryOk(u, i, |u.acct.log|) { CollectEntry(st, u, at, i); }
    forall b: nat ensures u.acct.free[b] + |Users(u.acct.log, u.index, b)| == all[b] {
      CollectUsers(st, u, at, b);
    }
  }

  lemma CollectUsers(st: File, u: File, at: seq<nat>, b: nat)
    requires IndexOk(st.acct.log, st.index) && IndexOk(u.acct.log, u.index) && Compaction(st, u, at)
    ensures Users(u.acct.log, u.index, b) == Users(st.acct.log, st.index, b)
  {
    hide Embeds, Kept, Holds, IndexOk;
    forall p ensures p in Users(u.acct.log, u.index, b) <==> p in Users(st.acct.log, st.index, b) {
      if p in st.index || p in u.index {
        assert p in u.index.Keys <==> p in st.index.Keys;
        CollectHolds(st, u, at, p, b);
      }
    }
  }

  lemma CollectIndex(st: File, u: File, at: seq<nat>, all: multiset<nat>)
    requires Inv(st, all) && Compaction(st, u, at)
    ensures IndexInv(u, |u.acct.log|)
  {
    hide Core, Last, LastSize, Pages, Embeds;
    var s, t := st.acct.log, u.acct.log;
    assert s[..|s|] == s && t[..|t|] == t;
    assert forall p :: p in u.index.Keys <==> p in st.index.Keys;
    forall p: nat ensures Lookup(u.index, p) == Last(t, p) {
      assert Lookup(st.index, p) == Last(s, p);
      if Last(s, p).Some? {
        MappedAlive(st, all, Last(s, p).value, p);
      }
      EmbedLast(s, t, at, p);
      if p in u.index {
        SameImage(s, t, at, u.index[p], Last(t, p).value);
      }
    }
    forall p, q, r | p in u.index && r in u.index && u.index[p] == u.index[r] && p <= q <= r ensures q in u.index {
      assert st.index[p] == st.index[r] && q in st.index;
    }
  }

  lemma SameImage(s: seq<LogEntry>, t: seq<LogEntry>, at: seq<nat>, i: nat, j: nat)
    requires Embeds(s, t, at) && i < |at| && j < |at| && at[i] == at[j]
    ensures i == j
  {
  }

  /** Garbage collection keeps the whole invariant. */
  lemma CollectKeeps(st: File, u: File, at: seq<nat>, all: multiset<nat>)
    requires Inv(st, all) && Compaction(st, u, at)
    ensures Inv(u, all)
  {
    hide Core, IndexInv, SizeInv, Compaction;
    CollectCore(st, u, at, all);
    CollectIndex(st, u, at, all);
    CollectSizes(st, u, at, all);
  }
}
