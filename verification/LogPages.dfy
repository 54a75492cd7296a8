/** A NOVA inode log as a chain of pages: the entries a reader meets between the head and the tail page. */
module LogPages {
  import opened Common
  import opened FileLog

  /** Bytes of a log page that hold entries. */
  const LOG_BLOCK_TAIL: nat := 4064

  /** The page tail counts all entries of the page and the invalid ones; 0 stands for no next page. */
  datatype LogPage = LogPage(next: nat, entries: seq<LogEntry>, num: nat, invalid: nat)

  type Pages = map<nat, LogPage>

  datatype Addr = Addr(page: nat, slot: nat)

  function EntrySize(e: LogEntry): nat {
    match e
    case Write(_, _, _, _, _, _, _) => 64
    case SetAttr(_, _, _, _) => 56
    case Other(_, _) => 32
  }

  function Bytes(entries: seq<LogEntry>): nat {
    if entries == [] then 0 else Bytes(entries[..|entries| - 1]) + EntrySize(entries[|entries| - 1])
  }

  function DeadCount(entries: seq<LogEntry>): (n: nat)
    ensures n <= |entries|
  {
    if entries == [] then 0
    else DeadCount(entries[..|entries| - 1]) + if entries[|entries| - 1].Dead() then 1 else 0
  }

  /** The counters of a page are exact. */
  predicate Counted(p: LogPage) {
    p.num == |p.entries| && p.invalid == DeadCount(p.entries)
  }

  lemma {:induction false} AllDead(entries: seq<LogEntry>)
    ensures DeadCount(entries) == |entries| <==> forall e | e in entries :: e.Dead()
  {
    if entries != [] {
      var n := |entries| - 1;
      AllDead(entries[..n]);
      assert entries == entries[..n] + [entries[n]];
    }
  }

  /** The counters say that nothing on the page is alive exactly when nothing is. */
  lemma PageInvalid(p: LogPage)
    requires Counted(p)
    ensures p.invalid == p.num <==> forall e | e in p.entries :: e.Dead()
  {
    AllDead(p.entries);
  }

  // ---------------------------------------------------------------- chains

  ghost predicate Chain(pages: Pages, ch: seq<nat>) {
    && ch != []
    && (forall i :: 0 <= i < |ch| ==> ch[i] in pages && ch[i] != 0)
    && (forall i, j :: 0 <= i < j < |ch| ==> ch[i] != ch[j])
    && (forall i :: 0 <= i < |ch| - 1 ==> pages[ch[i]].next == ch[i + 1])
  }

  ghost predicate In(pages: Pages, ch: seq<nat>) {
    forall i :: 0 <= i < |ch| ==> ch[i] in pages
  }

  /** The entries of the pages `ch`, in order. */
  ghost function Flat(pages: Pages, ch: seq<nat>): seq<LogEntry>
    requires In(pages, ch)
  {
    if ch == [] then [] else Flat(pages, ch[..|ch| - 1]) + pages[ch[|ch| - 1]].entries
  }

  ghost function PageAddrs(page: nat, n: nat): seq<Addr> {
    seq(n, i requires 0 <= i < n => Addr(page, i))
  }

  /** Where those entries are. */
  ghost function Addrs(pages: Pages, ch: seq<nat>): (r: seq<Addr>)
    requires In(pages, ch)
    ensures |r| == |Flat(pages, ch)|
  {
    if ch == [] then [] else Addrs(pages, ch[..|ch| - 1]) + PageAddrs(ch[|ch| - 1], |pages[ch[|ch| - 1]].entries|)
  }

  lemma {:induction false} FlatConcat(pages: Pages, a: seq<nat>, b: seq<nat>)
    requires In(pages, a) && In(pages, b)
    ensures In(pages, a + b) && Flat(pages, a + b) == Flat(pages, a) + Flat(pages, b)
  {
    if b == [] {
      assert a + b == a;
    } else {
      var c := b[..|b| - 1];
      FlatConcat(pages, a, c);
      assert (a + b)[..|a + b| - 1] == a + c;
    }
  }

  lemma {:induction false} AddrsConcat(pages: Pages, a: seq<nat>, b: seq<nat>)
    requires In(pages, a) && In(pages, b)
    ensures In(pages, a + b) && Addrs(pages, a + b) == Addrs(pages, a) + Addrs(pages, b)
  {
    hide Flat;
    if b == [] {
      assert a + b == a;
    } else {
      var c := b[..|b| - 1];
      AddrsConcat(pages, a, c);
      assert (a + b)[..|a + b| - 1] == a + c;
    }
  }

  lemma {:induction false} FlatSame(s: Pages, t: Pages, ch: seq<nat>)
    requires In(s, ch) && In(t, ch) && forall i :: 0 <= i < |ch| ==> s[ch[i]].entries == t[ch[i]].entries
    ensures Flat(s, ch) == Flat(t, ch) && Addrs(s, ch) == Addrs(t, ch)
  {
    if ch != [] {
      FlatSame(s, t, ch[..|ch| - 1]);
    }
  }

  /** Every address is met once. */
  lemma {:induction false} AddrsOf(pages: Pages, ch: seq<nat>, k: nat) returns (i: nat)
    requires In(pages, ch) && k < |Addrs(pages, ch)|
    ensures i < |ch| && Addrs(pages, ch)[k].page == ch[i] && Addrs(pages, ch)[k].slot < |pages[ch[i]].entries|
    ensures Flat(pages, ch)[k] == pages[ch[i]].entries[Addrs(pages, ch)[k].slot]
    ensures |Flat(pages, ch[..i])| + Addrs(pages, ch)[k].slot == k
  {
    var n := |ch| - 1;
    if k < |Addrs(pages, ch[..n])| {
      i := AddrsOf(pages, ch[..n], k);
      assert ch[..n][..i] == ch[..i];
    } else {
      i := n;
    }
  }

  // ---------------------------------------------------------------- which page an entry is on

  /** Every entry names the page it is on. */
  ghost predicate Placed(pages: Pages, ch: seq<nat>)
    requires In(pages, ch)
  {
    forall i: nat, e | i < |ch| && e in pages[ch[i]].entries :: e.page == ch[i]
  }

  predicate PlacedAt(log: seq<LogEntry>, addrs: seq<Addr>) {
    |log| == |addrs| && forall k: nat | k < |log| :: log[k].page == addrs[k].page
  }

  lemma {:induction false} FlatPlaced(pages: Pages, ch: seq<nat>)
    requires In(pages, ch) && PlacedAt(Flat(pages, ch), Addrs(pages, ch))
    ensures Placed(pages, ch)
  {
    if ch != [] {
      var n := |ch| - 1;
      var s, a, m := Flat(pages, ch), Addrs(pages, ch), |Flat(pages, ch[..n])|;
      forall k: nat | k < m ensures Flat(pages, ch[..n])[k].page == Addrs(pages, ch[..n])[k].page {
        assert s[k] == Flat(pages, ch[..n])[k] && a[k] == Addrs(pages, ch[..n])[k];
      }
      FlatPlaced(pages, ch[..n]);
      forall j: nat | j < |pages[ch[n]].entries| ensures pages[ch[n]].entries[j].page == ch[n] {
        assert s[m + j] == pages[ch[n]].entries[j] && a[m + j] == Addr(ch[n], j);
      }
      forall i: nat, e | i < |ch| && e in pages[ch[i]].entries ensures e.page == ch[i] {
        if i < n { assert ch[..n][i] == ch[i]; }
      }
    }
  }

  lemma {:induction false} DeadOnPage(entries: seq<LogEntry>, id: nat, x: nat)
    requires forall e | e in entries :: e.page == id
    ensures Sum(entries, DeadPage)[x] == if x == id then DeadCount(entries) else 0
  {
    if entries != [] { DeadOnPage(entries[..|entries| - 1], id, x); }
  }

  /** The dead entries that the log counts for a page are those on it. */
  lemma {:induction false} DeadCounted(pages: Pages, ch: seq<nat>, x: nat)
    requires In(pages, ch) && Placed(pages, ch) && forall i, j :: 0 <= i < j < |ch| ==> ch[i] != ch[j]
    ensures Sum(Flat(pages, ch), DeadPage)[x] == if x in ch then DeadCount(pages[x].entries) else 0
  {
    if ch != [] {
      var n := |ch| - 1;
      assert ch == ch[..n] + [ch[n]];
      forall i: nat, e | i < n && e in pages[ch[..n][i]].entries ensures e.page == ch[..n][i] { assert ch[..n][i] == ch[i]; }
      DeadCounted(pages, ch[..n], x);
      SumConcat(Flat(pages, ch[..n]), pages[ch[n]].entries, DeadPage);
      DeadOnPage(pages[ch[n]].entries, ch[n], x);
      if x in ch[..n] { assert x != ch[n]; }
    }
  }

  // ---------------------------------------------------------------- an index by address

  /** `pos` says which entry of the log each page is mapped to, `index` where that entry is. */
  ghost predicate IndexedBy(index: map<nat, Addr>, addrs: seq<Addr>, pos: map<nat, nat>) {
    pos.Keys == index.Keys && forall p | p in index :: pos[p] < |addrs| && addrs[pos[p]] == index[p]
  }

  /** Nothing dead is mapped. */
  ghost predicate MappedLive(log: seq<LogEntry>, pos: map<nat, nat>) {
    forall p | p in pos :: pos[p] < |log| && !log[pos[p]].Dead()
  }

  /** Entry `x` of the new log is the copy, at `a`, of entry `k` of the old one. */
  predicate Copy(x: nat, k: nat, a: Addr, addrs: seq<Addr>, at: seq<nat>) {
    x < |at| == |addrs| && at[x] == k && addrs[x] == a
  }

  /** Every index slot points at the copy of its entry. */
  ghost predicate Moves(pos: map<nat, nat>, index: map<nat, Addr>, addrs: seq<Addr>, at: seq<nat>) {
    index.Keys == pos.Keys && forall p | p in pos :: exists x: nat :: Copy(x, pos[p], index[p], addrs, at)
  }

  ghost function Where(k: nat, a: Addr, addrs: seq<Addr>, at: seq<nat>): (x: nat)
    requires exists x: nat :: Copy(x, k, a, addrs, at)
    ensures Copy(x, k, a, addrs, at)
  {
    var x: nat :| Copy(x, k, a, addrs, at); x
  }

  ghost function Compacted(st: File, log: seq<LogEntry>, index: map<nat, Addr>, addrs: seq<Addr>, at: seq<nat>): (u: File)
    requires Moves(st.index, index, addrs, at)
    ensures u.index.Keys == st.index.Keys && forall p | p in st.index :: Copy(u.index[p], st.index[p], index[p], addrs, at)
  {
    File(Acct(log, st.acct.free, Sum(log, DeadPage)),
         map p | p in st.index :: Where(st.index[p], index[p], addrs, at),
         st.size)
  }

  /** What garbage collection did to the pages is a collection step of the file. */
  lemma MovesCompacts(st: File, log: seq<LogEntry>, index: map<nat, Addr>, addrs: seq<Addr>, at: seq<nat>)
    requires Embeds(st.acct.log, log, at) && DropsDead(st.acct.log, at) && Moves(st.index, index, addrs, at)
    ensures var u := Compacted(st, log, index, addrs, at);
            u.acct.log == log && Compaction(st, u, at) && IndexedBy(index, addrs, u.index)
  {
    hide Moves, Embeds;
    var u := Compacted(st, log, index, addrs, at);
    assert forall p :: p in u.index.Keys <==> p in st.index.Keys;
    MovesKeys(st.index, index, addrs, at);
  }

  lemma MovesKeys(pos: map<nat, nat>, index: map<nat, Addr>, addrs: seq<Addr>, at: seq<nat>)
    requires Moves(pos, index, addrs, at)
    ensures index.Keys == pos.Keys
  {
  }
}
