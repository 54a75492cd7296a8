/** Thorough garbage collection, and what both collections mean for the file the log describes. */
module GcThorough {
  import opened Common
  import opened FileLog
  import opened FileKeeps
  import opened FileCompact
  import opened FileSafety
  import opened LogPages
  import opened Gc

  // ---------------------------------------------------------------- addresses

  lemma AddrsDistinct(pages: Pages, ch: seq<nat>, k: nat, l: nat)
    requires In(pages, ch) && (forall i, j :: 0 <= i < j < |ch| ==> ch[i] != ch[j])
    requires k < |Addrs(pages, ch)| && l < |Addrs(pages, ch)| && Addrs(pages, ch)[k] == Addrs(pages, ch)[l]
    ensures k == l
  {
    hide Addrs, Flat;
    var i := AddrsOf(pages, ch, k);
    var j := AddrsOf(pages, ch, l);
  }

  lemma AddrIn(pages: Pages, ch: seq<nat>, k: nat)
    requires In(pages, ch) && k < |Addrs(pages, ch)|
    ensures Addrs(pages, ch)[k].page in ch
  {
    var i := AddrsOf(pages, ch, k);
  }

  /** The entry in slot `j` of the `i`-th page is where the log has it. */
  lemma {:induction false} AddrAt(pages: Pages, ch: seq<nat>, i: nat, j: nat)
    requires In(pages, ch) && i < |ch| && j < |pages[ch[i]].entries|
    ensures var q := |Flat(pages, ch[..i])| + j;
            q < |Flat(pages, ch)| && Addrs(pages, ch)[q] == Addr(ch[i], j) && Flat(pages, ch)[q] == pages[ch[i]].entries[j]
    decreases |ch|
  {
    var n := |ch| - 1;
    if i < n {
      AddrAt(pages, ch[..n], i, j);
      assert ch[..n][..i] == ch[..i];
    }
  }

  // ---------------------------------------------------------------- repointing

  /**
   The first `q` entries of the log are dealt with: the slots of those that are mapped point at their
   copies, all others still at the old entries.
   */
  ghost predicate Copied(pos: map<nat, nat>, index: map<nat, Addr>, q: nat, from: seq<Addr>, to: seq<Addr>, at: seq<nat>) {
    index.Keys == pos.Keys && forall p | p in pos :: CopiedSlot(pos[p], index[p], q, from, to, at)
  }

  ghost predicate CopiedSlot(k: nat, a: Addr, q: nat, from: seq<Addr>, to: seq<Addr>, at: seq<nat>) {
    if k < q then exists x: nat :: Copy(x, k, a, to, at) else k < |from| && a == from[k]
  }

  /** Slots that pointed at `a` now point at `b`. */
  ghost predicate Repointed(index: map<nat, Addr>, index': map<nat, Addr>, a: Addr, b: Addr) {
    index'.Keys == index.Keys && forall p | p in index :: index'[p] == if index[p] == a then b else index[p]
  }

  lemma CopyNext(pos: map<nat, nat>, index: map<nat, Addr>, index': map<nat, Addr>, q: nat, from: seq<Addr>, to: seq<Addr>, at: seq<nat>, b: Addr)
    requires Copied(pos, index, q, from, to, at) && q < |from| && |to| == |at|
    requires Repointed(index, index', from[q], b)
    requires forall k, l :: 0 <= k < |from| && 0 <= l < |from| && from[k] == from[l] ==> k == l
    requires forall x :: 0 <= x < |to| ==> to[x] != from[q]
    ensures Copied(pos, index', q + 1, from, to + [b], at + [q])
  {
    assert forall p :: p in pos.Keys <==> p in index.Keys;
    forall p | p in pos ensures CopiedSlot(pos[p], index'[p], q + 1, from, to + [b], at + [q]) {
      assert CopiedSlot(pos[p], index[p], q, from, to, at);
      if pos[p] < q {
        var x: nat :| Copy(x, pos[p], index[p], to, at);
        assert Copy(x, pos[p], index'[p], to + [b], at + [q]);
      } else if pos[p] == q {
        assert Copy(|at|, q, index'[p], to + [b], at + [q]);
      }
    }
  }

  lemma CopySkip(pos: map<nat, nat>, index: map<nat, Addr>, q: nat, from: seq<Addr>, to: seq<Addr>, at: seq<nat>)
    requires Copied(pos, index, q, from, to, at) && forall p | p in pos :: pos[p] != q
    ensures Copied(pos, index, q + 1, from, to, at)
  {
    forall p | p in pos ensures CopiedSlot(pos[p], index[p], q + 1, from, to, at) {
      assert CopiedSlot(pos[p], index[p], q, from, to, at);
    }
  }

  lemma CopyStarts(pos: map<nat, nat>, index: map<nat, Addr>, from: seq<Addr>)
    requires IndexedBy(index, from, pos)
    ensures Copied(pos, index, 0, from, [], [])
  {
    assert forall p :: p in pos.Keys <==> p in index.Keys;
  }

  /** What the tail page holds stays where it is. */
  lemma CopyEnds(pos: map<nat, nat>, index: map<nat, Addr>, q: nat, from: seq<Addr>, to: seq<Addr>, at: seq<nat>, more: seq<Addr>)
    requires Copied(pos, index, q, from, to, at) && q + |more| == |from| && from[q..] == more && |to| == |at|
    ensures Moves(pos, index, to + more, at + Shifted(q, |more|))
  {
    forall p | p in pos ensures exists x: nat :: Copy(x, pos[p], index[p], to + more, at + Shifted(q, |more|)) {
      assert CopiedSlot(pos[p], index[p], q, from, to, at);
      if pos[p] < q {
        var x: nat :| Copy(x, pos[p], index[p], to, at);
        assert Copy(x, pos[p], index[p], to + more, at + Shifted(q, |more|));
      } else {
        assert from[q..][pos[p] - q] == from[pos[p]];
        assert Copy(|at| + (pos[p] - q), pos[p], index[p], to + more, at + Shifted(q, |more|));
      }
    }
  }

  // ---------------------------------------------------------------- what is kept

  /** The live entries of `s`, and only they, are copied to `t`. */
  ghost predicate KeepsLive(s: seq<LogEntry>, t: seq<LogEntry>, at: seq<nat>) {
    Embeds(s, t, at) && DropsDead(s, at) && forall i :: 0 <= i < |at| ==> !s[at[i]].Dead()
  }

  lemma KeepNext(s: seq<LogEntry>, t: seq<LogEntry>, at: seq<nat>, e: LogEntry, f: LogEntry)
    requires KeepsLive(s, t, at) && !e.Dead() && Moved(e, f)
    ensures KeepsLive(s + [e], t + [f], at + [|s|])
  {
    var u := at + [|s|];
    forall k: nat | Kept(at, k) ensures Kept(u, k) {
      var i :| 0 <= i < |at| && at[i] == k;
      assert u[i] == k;
    }
    assert u[|at|] == |s|;
  }

  lemma KeepSkip(s: seq<LogEntry>, t: seq<LogEntry>, at: seq<nat>, e: LogEntry)
    requires KeepsLive(s, t, at) && e.Dead()
    ensures KeepsLive(s + [e], t, at)
  {
  }

  // ---------------------------------------------------------------- new pages

  /** `nl` are the new pages, linked one to the next; those after position `u` are still empty. */
  ghost predicate NewPages(pages: Pages, nl: seq<nat>, u: nat) {
    && u < |nl| && Chain(pages, nl) && pages[nl[|nl| - 1]].next == 0
    && (forall i :: u < i < |nl| ==> pages[nl[i]].entries == [])
    && (forall i :: 0 <= i < |nl| ==> Counted(pages[nl[i]]) && Bytes(pages[nl[i]].entries) <= LOG_BLOCK_TAIL)
  }

  /** Memory outside the pages `nl` is as it was. */
  ghost predicate Outside(s: Pages, t: Pages, nl: seq<nat>) {
    forall id | id in s && id !in nl :: id in t && t[id] == s[id]
  }

  function Filled(p: LogPage, e: LogEntry): LogPage {
    p.(entries := p.entries + [e], num := p.num + 1)
  }

  lemma FillCounts(p: LogPage, e: LogEntry)
    requires Counted(p) && !e.Dead() && Bytes(p.entries) + EntrySize(e) <= LOG_BLOCK_TAIL
    ensures Counted(Filled(p, e)) && Bytes(Filled(p, e).entries) <= LOG_BLOCK_TAIL
  {
    assert (p.entries + [e])[..|p.entries|] == p.entries;
  }

  lemma FillNew(pages: Pages, nl: seq<nat>, u: nat, e: LogEntry)
    requires NewPages(pages, nl, u) && !e.Dead() && Bytes(pages[nl[u]].entries) + EntrySize(e) <= LOG_BLOCK_TAIL
    ensures var t := pages[nl[u] := Filled(pages[nl[u]], e)]; NewPages(t, nl, u) && Outside(pages, t, nl)
  {
    FillCounts(pages[nl[u]], e);
  }

  lemma FlatFill(pages: Pages, nl: seq<nat>, u: nat, e: LogEntry)
    requires NewPages(pages, nl, u)
    ensures var p := pages[nl[u]];
            var t := pages[nl[u] := Filled(p, e)];
            && In(pages, nl[..u + 1]) && In(t, nl[..u + 1])
            && Flat(t, nl[..u + 1]) == Flat(pages, nl[..u + 1]) + [e]
            && Addrs(t, nl[..u + 1]) == Addrs(pages, nl[..u + 1]) + [Addr(nl[u], |p.entries|)]
  {
    hide Counted, Bytes;
    var p := pages[nl[u]];
    var t := pages[nl[u] := Filled(p, e)];
    assert nl[..u + 1][..u] == nl[..u];
    FlatSame(pages, t, nl[..u]);
    assert PageAddrs(nl[u], |p.entries| + 1) == PageAddrs(nl[u], |p.entries|) + [Addr(nl[u], |p.entries|)];
  }

  /** Moving on to the next, empty page. */
  lemma FlatTurn(pages: Pages, nl: seq<nat>, u: nat)
    requires NewPages(pages, nl, u) && u + 1 < |nl|
    ensures NewPages(pages, nl, u + 1) && In(pages, nl[..u + 1]) && In(pages, nl[..u + 2])
    ensures Flat(pages, nl[..u + 2]) == Flat(pages, nl[..u + 1]) && Addrs(pages, nl[..u + 2]) == Addrs(pages, nl[..u + 1])
    ensures pages[nl[u]].next == nl[u + 1] && pages[nl[u + 1]].entries == []
  {
    assert nl[..u + 2][..u + 1] == nl[..u + 1];
  }

  /** Appending one more page to the new log. */
  function Extended(pages: Pages, last: nat, x: nat): Pages
    requires last in pages
  {
    pages[x := LogPage(0, [], 0, 0)][last := pages[last].(next := x)]
  }

  lemma ExtendNew(pages: Pages, nl: seq<nat>, u: nat, x: nat)
    requires NewPages(pages, nl, u) && u + 1 == |nl| && x !in pages && x != 0
    ensures var t := Extended(pages, nl[u], x); NewPages(t, nl + [x], u) && Outside(pages, t, nl)
  {
    hide Counted, Bytes;
    BlankCounts();
    CountedNext(pages[nl[u]], x);
  }

  lemma CountedNext(p: LogPage, next: nat)
    ensures Counted(p.(next := next)) == Counted(p)
  {
  }

  lemma BlankCounts()
    ensures Counted(LogPage(0, [], 0, 0)) && Bytes(LogPage(0, [], 0, 0).entries) <= LOG_BLOCK_TAIL
  {
  }

  lemma FlatExtend(pages: Pages, nl: seq<nat>, u: nat, x: nat)
    requires NewPages(pages, nl, u) && u + 1 == |nl| && x !in pages && x != 0
    ensures var t := Extended(pages, nl[u], x);
            && In(pages, nl[..u + 1]) && In(t, (nl + [x])[..u + 1])
            && Flat(t, (nl + [x])[..u + 1]) == Flat(pages, nl[..u + 1]) && Addrs(t, (nl + [x])[..u + 1]) == Addrs(pages, nl[..u + 1])
  {
    hide Counted, Bytes;
    var t := Extended(pages, nl[u], x);
    assert (nl + [x])[..u + 1] == nl[..u + 1];
    FlatSame(pages, t, nl[..u + 1]);
  }

  // ---------------------------------------------------------------- thorough collection

  /** Blank pages, each linked to the next. */
  method AllocateLogPages(log: InodeLog, ids: seq<nat>)
    requires ids != [] && forall i :: 0 <= i < |ids| ==> ids[i] !in log.pages && ids[i] != 0
    requires forall i, j :: 0 <= i < j < |ids| ==> ids[i] != ids[j]
    modifies log`pages
    ensures NewPages(log.pages, ids, 0) && Outside(old(log.pages), log.pages, ids) && Flat(log.pages, ids[..1]) == []
    ensures forall id | id in log.pages :: id in old(log.pages) || id in ids
  {
    var i := 0;
    while i < |ids|
      invariant i <= |ids| && forall id | id in log.pages :: id in old(log.pages) || id in ids[..i]
      invariant forall id | id in old(log.pages) :: id in log.pages && log.pages[id] == old(log.pages)[id]
      invariant forall j :: 0 <= j < i ==> Blank(log.pages, ids, j)
    {
      BlankNext(log.pages, ids, i);
      log.pages := log.pages[ids[i] := LogPage(if i + 1 < |ids| then ids[i + 1] else 0, [], 0, 0)];
      assert ids[..i + 1] == ids[..i] + [ids[i]];
      i := i + 1;
    }
    BlankNew(log.pages, ids);
  }

  lemma BlankNext(pages: Pages, ids: seq<nat>, i: nat)
    requires i < |ids| && forall j :: 0 <= j < i ==> Blank(pages, ids, j)
    requires forall i, j :: 0 <= i < j < |ids| ==> ids[i] != ids[j]
    ensures var t := pages[ids[i] := LogPage(if i + 1 < |ids| then ids[i + 1] else 0, [], 0, 0)];
            forall j :: 0 <= j <= i ==> Blank(t, ids, j)
  {
    var t := pages[ids[i] := LogPage(if i + 1 < |ids| then ids[i + 1] else 0, [], 0, 0)];
    forall j | 0 <= j <= i ensures Blank(t, ids, j) {
      if j < i { assert Blank(pages, ids, j) && ids[j] != ids[i]; }
    }
  }

  lemma BlankNew(pages: Pages, ids: seq<nat>)
    requires ids != [] && (forall i, j :: 0 <= i < j < |ids| ==> ids[i] != ids[j]) && forall i :: 0 <= i < |ids| ==> ids[i] != 0
    requires forall j :: 0 <= j < |ids| ==> Blank(pages, ids, j)
    ensures NewPages(pages, ids, 0) && Flat(pages, ids[..1]) == []
  {
    BlankCounts();
    forall j | 0 <= j < |ids| ensures ids[j] in pages && Counted(pages[ids[j]]) && pages[ids[j]].entries == [] {
      assert Blank(pages, ids, j);
      CountedNext(LogPage(0, [], 0, 0), pages[ids[j]].next);
    }
    forall j | 0 <= j < |ids| - 1 ensures pages[ids[j]].next == ids[j + 1] { assert Blank(pages, ids, j); }
    assert Blank(pages, ids, |ids| - 1);
    assert ids[..1][..0] == [];
  }

  predicate Blank(pages: Pages, ids: seq<nat>, j: nat)
    requires j < |ids|
  {
    ids[j] in pages && pages[ids[j]] == LogPage(if j + 1 < |ids| then ids[j + 1] else 0, [], 0, 0)
  }

  /** Every slot that points at `a`, the old place of entry `e`, is made to point at `b`. */
  method GcAssignFileEntry(log: InodeLog, e: LogEntry, a: Addr, b: Addr)
    requires forall p | p in log.index && log.index[p] == a :: e.Covers(p)
    modifies log`index
    ensures Repointed(old(log.index), log.index, a, b)
  {
    if e.Write? {
      var i := 0;
      while i < e.num
        invariant i <= e.num && log.index.Keys == old(log.index).Keys
        invariant forall p | p in log.index ::
                    log.index[p] == if old(log.index)[p] == a && p < e.pgoff + i then b else old(log.index)[p]
      {
        var p := e.pgoff + i;
        if p in log.index && log.index[p] == a {
          log.index := log.index[p := b];
        }
        i := i + 1;
      }
    }
  }

  /** The new log under construction: its pages, the one being filled, and pages to extend it with. */
  datatype NewLog = NewLog(pages: seq<nat>, at: nat, spare: seq<nat>)
  {
    function Filled(): seq<nat>
      requires at < |pages|
    {
      pages[..at + 1]
    }
  }

  /** The pages to extend with are distinct and not in use. */
  ghost predicate SpareOk(pages: Pages, spare: seq<nat>) {
    (forall i :: 0 <= i < |spare| ==> spare[i] !in pages && spare[i] != 0) && forall i, j :: 0 <= i < j < |spare| ==> spare[i] != spare[j]
  }

  /** Nothing but new pages changed, and what the new log holds is the same. */
  ghost predicate Grown(s: Pages, t: Pages, nl: NewLog, r: NewLog) {
    && NewPages(t, r.pages, r.at) && SpareOk(t, r.spare) && |nl.spare| <= |r.spare| + 1
    && nl.pages <= r.pages && Outside(s, t, nl.pages) && forall id | id in r.pages :: id in nl.pages || id !in s
  }

  /** Go to a page with room for `size` bytes: this one, the next, or one more page. */
  method GetAppendHead(log: InodeLog, nl: NewLog, size: nat) returns (r: NewLog)
    requires NewPages(log.pages, nl.pages, nl.at) && SpareOk(log.pages, nl.spare) && nl.spare != [] && size <= LOG_BLOCK_TAIL
    modifies log`pages
    ensures Grown(old(log.pages), log.pages, nl, r) && r.at < |r.pages| && r.pages[r.at] in log.pages
    ensures nl.at < |nl.pages| && nl.pages[nl.at] in old(log.pages)
    ensures if Bytes(old(log.pages)[nl.pages[nl.at]].entries) + size <= LOG_BLOCK_TAIL then r == nl && log.pages == old(log.pages)
            else r.at == nl.at + 1 && r.pages == nl.pages + if r.at < |nl.pages| then [] else [nl.spare[0]]
    ensures Bytes(log.pages[r.pages[r.at]].entries) + size <= LOG_BLOCK_TAIL
    ensures nl.at < |nl.pages| && In(old(log.pages), nl.Filled()) && In(log.pages, r.Filled())
    ensures Flat(log.pages, r.Filled()) == Flat(old(log.pages), nl.Filled())
    ensures Addrs(log.pages, r.Filled()) == Addrs(old(log.pages), nl.Filled())
  {
    hide NewPages, Flat, Addrs, Grown, SpareOk, Bytes, Counted;
    NewIn(log.pages, nl.pages, nl.at);
    var cur := nl.pages[nl.at];
    r := nl;
    if Bytes(log.pages[cur].entries) + size <= LOG_BLOCK_TAIL {
      GrownNothing(log.pages, nl);
    } else if log.pages[cur].next != 0 {
      NotLastNew(log.pages, nl.pages, nl.at);
      GrownTurn(log.pages, nl);
      r := nl.(at := nl.at + 1);
    } else {
      LastNew(log.pages, nl.pages, nl.at);
      GrownExtend(log.pages, nl);
      log.pages := Extended(log.pages, cur, nl.spare[0]);
      r := NewLog(nl.pages + [nl.spare[0]], nl.at + 1, nl.spare[1..]);
    }
  }

  lemma GrownNothing(pages: Pages, nl: NewLog)
    requires NewPages(pages, nl.pages, nl.at) && SpareOk(pages, nl.spare)
    ensures Grown(pages, pages, nl, nl)
  {
  }

  lemma GrownTurn(pages: Pages, nl: NewLog)
    requires NewPages(pages, nl.pages, nl.at) && SpareOk(pages, nl.spare) && nl.at + 1 < |nl.pages|
    ensures var r := nl.(at := nl.at + 1);
            && Grown(pages, pages, nl, r) && In(pages, nl.Filled()) && In(pages, r.Filled())
            && Flat(pages, r.Filled()) == Flat(pages, nl.Filled()) && Addrs(pages, r.Filled()) == Addrs(pages, nl.Filled())
            && r.pages[r.at] in pages && Bytes(pages[r.pages[r.at]].entries) == 0
  {
    hide Flat, Addrs, Counted, NewPages;
    FlatTurn(pages, nl.pages, nl.at);
    NewIn(pages, nl.pages, nl.at + 1);
    EmptyBytes(pages[nl.pages[nl.at + 1]]);
  }

  lemma SpareNext(pages: Pages, last: nat, spare: seq<nat>)
    requires SpareOk(pages, spare) && spare != [] && last in pages
    ensures spare[0] !in pages && spare[0] != 0
    ensures SpareOk(Extended(pages, last, spare[0]), spare[1..])
  {
  }

  lemma GrownExtend(pages: Pages, nl: NewLog)
    requires NewPages(pages, nl.pages, nl.at) && SpareOk(pages, nl.spare) && nl.at + 1 == |nl.pages| && nl.spare != []
    ensures nl.pages[nl.at] in pages
    ensures var t := Extended(pages, nl.pages[nl.at], nl.spare[0]);
            var r := NewLog(nl.pages + [nl.spare[0]], nl.at + 1, nl.spare[1..]);
            && Grown(pages, t, nl, r) && In(pages, nl.Filled()) && In(t, r.Filled())
            && Flat(t, r.Filled()) == Flat(pages, nl.Filled()) && Addrs(t, r.Filled()) == Addrs(pages, nl.Filled())
            && r.pages[r.at] in t && Bytes(t[r.pages[r.at]].entries) == 0
  {
    hide Flat, Addrs, Counted, NewPages, SpareOk, Outside, Extended;
    NewIn(pages, nl.pages, nl.at);
    SpareNext(pages, nl.pages[nl.at], nl.spare);
    var x := nl.spare[0];
    var t := Extended(pages, nl.pages[nl.at], x);
    ExtendNew(pages, nl.pages, nl.at, x);
    FlatExtend(pages, nl.pages, nl.at, x);
    FlatTurn(t, nl.pages + [x], nl.at);
    NewIn(t, nl.pages + [x], nl.at + 1);
    EmptyBytes(t[x]);
  }

  /** Copy a live entry to the end of the new log. */
  method AppendCopy(log: InodeLog, nl: NewLog, e: LogEntry) returns (r: NewLog, b: Addr)
    requires NewPages(log.pages, nl.pages, nl.at) && !e.Dead() && SpareOk(log.pages, nl.spare) && nl.spare != []
    modifies log`pages
    ensures Grown(old(log.pages), log.pages, nl, r) && r.at < |r.pages| && b.page in r.pages
    ensures nl.at < |nl.pages| && In(old(log.pages), nl.Filled()) && In(log.pages, r.Filled())
    ensures Flat(log.pages, r.Filled()) == Flat(old(log.pages), nl.Filled()) + [e.(page := b.page)]
    ensures Addrs(log.pages, r.Filled()) == Addrs(old(log.pages), nl.Filled()) + [b]
  {
    hide NewPages, Flat, Addrs, Outside, Bytes, Counted;
    r := GetAppendHead(log, nl, EntrySize(e));
    ghost var p1 := log.pages;
    var cur := r.pages[r.at];
    b := Addr(cur, |log.pages[cur].entries|);
    FillNew(log.pages, r.pages, r.at, e.(page := cur));
    FlatFill(log.pages, r.pages, r.at, e.(page := cur));
    NewIn(log.pages, r.pages, r.at);
    log.pages := log.pages[cur := Filled(log.pages[cur], e.(page := cur))];
    OutsideTwice(old(log.pages), p1, log.pages, nl.pages, r.pages);
  }

  lemma NewIn(pages: Pages, nl: seq<nat>, u: nat)
    requires NewPages(pages, nl, u)
    ensures u < |nl| && In(pages, nl) && In(pages, nl[..u + 1])
  {
  }

  lemma LastNew(pages: Pages, nl: seq<nat>, u: nat)
    requires NewPages(pages, nl, u) && pages[nl[u]].next == 0
    ensures u + 1 == |nl|
  {
    hide Counted, Bytes;
    NextNew(pages, nl, u);
  }

  lemma NextNew(pages: Pages, nl: seq<nat>, u: nat)
    requires Chain(pages, nl) && u < |nl|
    ensures u + 1 < |nl| ==> pages[nl[u]].next == nl[u + 1] != 0
  {
  }

  lemma NotLastNew(pages: Pages, nl: seq<nat>, u: nat)
    requires NewPages(pages, nl, u) && pages[nl[u]].next != 0
    ensures u + 1 < |nl|
  {
  }

  lemma EmptyBytes(p: LogPage)
    ensures p.entries == [] ==> Bytes(p.entries) == 0
  {
  }

  lemma OutsideTwice(s: Pages, t: Pages, w: Pages, nl: seq<nat>, nl': seq<nat>)
    requires Outside(s, t, nl) && Outside(t, w, nl') && forall id | id in nl' :: id in nl || id !in s
    ensures Outside(s, w, nl)
  {
  }

  // ---------------------------------------------------------------- the copying loop

  /** The first `q` entries of the log `ch` are dealt with; the new log `nl` holds the live ones of them. */
  ghost predicate Copying(old_: Pages, ch: seq<nat>, pos: map<nat, nat>, pages: Pages, index: map<nat, Addr>, nl: NewLog, q: nat, at: seq<nat>) {
    && In(old_, ch) && q <= |Flat(old_, ch)| <= q + |nl.spare|
    && nl.at < |nl.pages| && NewPages(pages, nl.pages, nl.at) && SpareOk(pages, nl.spare)
    && Outside(old_, pages, nl.pages) && (forall id | id in nl.pages :: id !in old_)
    && In(pages, nl.Filled())
    && KeepsLive(Flat(old_, ch)[..q], Flat(pages, nl.Filled()), at)
    && Copied(pos, index, q, Addrs(old_, ch), Addrs(pages, nl.Filled()), at)
    && PlacedAt(Flat(pages, nl.Filled()), Addrs(pages, nl.Filled()))
  }

  lemma CopyingStarts(old_: Pages, ch: seq<nat>, pos: map<nat, nat>, pages: Pages, index: map<nat, Addr>, nl: NewLog)
    requires In(old_, ch) && |Flat(old_, ch)| <= |nl.spare| && nl.at == 0 && nl.pages != [] && NewPages(pages, nl.pages, 0) && SpareOk(pages, nl.spare)
    requires Outside(old_, pages, nl.pages) && (forall id | id in nl.pages :: id !in old_)
    requires In(pages, nl.pages[..1]) && Flat(pages, nl.pages[..1]) == [] && IndexedBy(index, Addrs(old_, ch), pos)
    ensures Copying(old_, ch, pos, pages, index, nl, 0, [])
  {
    hide NewPages, SpareOk, Outside;
    CopyStarts(pos, index, Addrs(old_, ch));
    assert Addrs(pages, nl.Filled()) == [];
  }

  lemma CopyingSkip(old_: Pages, ch: seq<nat>, pos: map<nat, nat>, pages: Pages, index: map<nat, Addr>, nl: NewLog, q: nat, at: seq<nat>)
    requires Copying(old_, ch, pos, pages, index, nl, q, at) && q < |Flat(old_, ch)| && Flat(old_, ch)[q].Dead()
    requires MappedLive(Flat(old_, ch), pos)
    ensures Copying(old_, ch, pos, pages, index, nl, q + 1, at)
  {
    hide NewPages, SpareOk, Outside, KeepsLive, Copied, Addrs, Flat;
    var s := Flat(old_, ch);
    assert s[..q + 1] == s[..q] + [s[q]];
    KeepSkip(s[..q], Flat(pages, nl.Filled()), at, s[q]);
    CopySkip(pos, index, q, Addrs(old_, ch), Addrs(pages, nl.Filled()), at);
  }

  lemma CopyingNext(old_: Pages, ch: seq<nat>, pos: map<nat, nat>, pages: Pages, index: map<nat, Addr>, nl: NewLog, q: nat, at: seq<nat>,
                    pages': Pages, index': map<nat, Addr>, nl': NewLog, b: Addr)
    requires Copying(old_, ch, pos, pages, index, nl, q, at) && q < |Flat(old_, ch)| && !Flat(old_, ch)[q].Dead()
    requires forall i, j :: 0 <= i < j < |ch| ==> ch[i] != ch[j]
    requires Grown(pages, pages', nl, nl') && nl'.at < |nl'.pages| && In(pages', nl'.Filled())
    requires Flat(pages', nl'.Filled()) == Flat(pages, nl.Filled()) + [Flat(old_, ch)[q].(page := b.page)]
    requires Addrs(pages', nl'.Filled()) == Addrs(pages, nl.Filled()) + [b]
    requires Repointed(index, index', Addrs(old_, ch)[q], b)
    ensures Copying(old_, ch, pos, pages', index', nl', q + 1, at + [q])
  {
    hide NewPages, SpareOk, KeepsLive, Copied, Addrs, Flat;
    var s := Flat(old_, ch);
    var from, to := Addrs(old_, ch), Addrs(pages, nl.Filled());
    assert s[..q + 1] == s[..q] + [s[q]];
    KeepNext(s[..q], Flat(pages, nl.Filled()), at, s[q], s[q].(page := b.page));
    KeepLength(s[..q], Flat(pages, nl.Filled()), at);
    forall k, l | 0 <= k < |from| && 0 <= l < |from| && from[k] == from[l] ensures k == l { AddrsDistinct(old_, ch, k, l); }
    forall x | 0 <= x < |to| ensures to[x] != from[q] { NewAddr(old_, ch, pages, nl, q, x); }
    CopyNext(pos, index, index', q, from, to, at, b);
  }

  lemma KeepLength(s: seq<LogEntry>, t: seq<LogEntry>, at: seq<nat>)
    requires KeepsLive(s, t, at)
    ensures |t| == |at|
  {
  }

  /** An address in the new pages is not one of the old log. */
  lemma NewAddr(old_: Pages, ch: seq<nat>, pages: Pages, nl: NewLog, q: nat, x: nat)
    requires In(old_, ch) && nl.at < |nl.pages| && In(pages, nl.Filled()) && (forall id | id in nl.pages :: id !in old_)
    requires q < |Addrs(old_, ch)| && x < |Addrs(pages, nl.Filled())|
    ensures Addrs(pages, nl.Filled())[x] != Addrs(old_, ch)[q]
  {
    hide Addrs, Flat;
    AddrIn(old_, ch, q);
    AddrIn(pages, nl.Filled(), x);
    assert Addrs(pages, nl.Filled())[x].page in nl.pages;
  }

  /** Only pages that the entry covers still point at its old place. */
  lemma SlotCovered(old_: Pages, ch: seq<nat>, pos: map<nat, nat>, pages: Pages, index: map<nat, Addr>, nl: NewLog, q: nat, at: seq<nat>, p: nat)
    requires Copying(old_, ch, pos, pages, index, nl, q, at) && q < |Flat(old_, ch)| && p in index && index[p] == Addrs(old_, ch)[q]
    requires IndexOk(Flat(old_, ch), pos) && forall i, j :: 0 <= i < j < |ch| ==> ch[i] != ch[j]
    ensures Flat(old_, ch)[q].Covers(p)
  {
    hide NewPages, SpareOk, KeepsLive, Addrs, Flat;
    assert p in pos.Keys;
    assert CopiedSlot(pos[p], index[p], q, Addrs(old_, ch), Addrs(pages, nl.Filled()), at);
    if pos[p] < q {
      var x: nat :| Copy(x, pos[p], index[p], Addrs(pages, nl.Filled()), at);
      NewAddr(old_, ch, pages, nl, q, x);
    } else {
      AddrsDistinct(old_, ch, pos[p], q);
    }
  }

  // ---------------------------------------------------------------- switching over

  /** A reader starting at `head` reaches `tail` and meets the entries of `s`, some dead ones left out. */
  ghost predicate ReadsLog(pages: Pages, head: nat, tail: nat, s: seq<LogEntry>) {
    exists c, at :: ReadsLogBy(pages, head, tail, s, c, at)
  }

  ghost predicate ReadsLogBy(pages: Pages, head: nat, tail: nat, s: seq<LogEntry>, c: seq<nat>, at: seq<nat>) {
    Chain(pages, c) && c[0] == head && c[|c| - 1] == tail && Embeds(s, Flat(pages, c), at) && DropsDead(s, at)
  }

  /** The state when all live entries before the tail page are copied. */
  ghost predicate Ready(old_: Pages, ch: seq<nat>, pos: map<nat, nat>, pages: Pages, index: map<nat, Addr>, nl: NewLog, at: seq<nat>)
  {
    Chain(old_, ch) && |ch| > 1 && Copying(old_, ch, pos, pages, index, nl, |Flat(old_, ch[..|ch| - 1])|, at)
  }

  /** The new log: the pages filled, then the old tail page. */
  ghost function NewChain(nl: NewLog, tail: nat): seq<nat>
    requires nl.at < |nl.pages|
  {
    nl.Filled() + [tail]
  }

  lemma LinkTail(old_: Pages, ch: seq<nat>, pos: map<nat, nat>, pages: Pages, index: map<nat, Addr>, nl: NewLog, at: seq<nat>)
    requires Ready(old_, ch, pos, pages, index, nl, at)
    ensures nl.at < |nl.pages| && nl.pages[nl.at] in pages && ch[|ch| - 1] in pages
    ensures var cur := nl.pages[nl.at];
            var t := pages[cur := pages[cur].(next := ch[|ch| - 1])];
            Chain(t, NewChain(nl, ch[|ch| - 1])) && Chain(t, ch) && forall i :: 0 <= i < |ch| ==> t[ch[i]] == old_[ch[i]]
  {
    hide KeepsLive, Copied, Flat, Addrs, SpareOk, Counted, Bytes;
    var tail := ch[|ch| - 1];
    forall i | 0 <= i < |ch| ensures ch[i] !in nl.pages && ch[i] in pages && pages[ch[i]] == old_[ch[i]] {}
  }

  /** Memory `t` has the contents of the new pages and of the old tail page, whatever the links. */
  ghost predicate SameContents(old_: Pages, ch: seq<nat>, pages: Pages, nl: NewLog, t: Pages)
    requires nl.at < |nl.pages| && In(pages, nl.Filled()) && ch != [] && In(old_, ch)
  {
    && In(t, NewChain(nl, ch[|ch| - 1])) && ch[|ch| - 1] in t && t[ch[|ch| - 1]].entries == old_[ch[|ch| - 1]].entries
    && forall i :: 0 <= i <= nl.at ==> nl.Filled()[i] in t && t[nl.Filled()[i]].entries == pages[nl.Filled()[i]].entries
  }

  lemma NewFlat(old_: Pages, ch: seq<nat>, pos: map<nat, nat>, pages: Pages, index: map<nat, Addr>, nl: NewLog, at: seq<nat>, t: Pages)
    requires Ready(old_, ch, pos, pages, index, nl, at)
    requires SameContents(old_, ch, pages, nl, t)
    ensures var out := NewChain(nl, ch[|ch| - 1]);
            var more := old_[ch[|ch| - 1]].entries;
            var q := |Flat(old_, ch[..|ch| - 1])|;
            && Flat(t, out) == Flat(pages, nl.Filled()) + more
            && Addrs(t, out) == Addrs(pages, nl.Filled()) + PageAddrs(ch[|ch| - 1], |more|)
            && Flat(old_, ch) == Flat(old_, ch)[..q] + more
            && Addrs(old_, ch)[q..] == PageAddrs(ch[|ch| - 1], |more|)
  {
    hide KeepsLive, Copied, SpareOk, Counted, Bytes, NewPages;
    var tail := ch[|ch| - 1];
    var out := NewChain(nl, tail);
    assert out[..|out| - 1] == nl.Filled();
    forall i | 0 <= i < |nl.Filled()| ensures nl.Filled()[i] in t { assert out[i] == nl.Filled()[i]; }
    FlatSame(t, pages, nl.Filled());
  }

  /** The new chain holds the live entries copied and the tail page, every slot pointing at its entry. */
  lemma NewLogIs(old_: Pages, ch: seq<nat>, pos: map<nat, nat>, pages: Pages, index: map<nat, Addr>, nl: NewLog, at: seq<nat>, t: Pages)
    requires Ready(old_, ch, pos, pages, index, nl, at)
    requires SameContents(old_, ch, pages, nl, t)
    ensures var out := NewChain(nl, ch[|ch| - 1]);
            var q := |Flat(old_, ch[..|ch| - 1])|;
            var at' := at + Shifted(q, |old_[ch[|ch| - 1]].entries|);
            Embeds(Flat(old_, ch), Flat(t, out), at') && DropsDead(Flat(old_, ch), at') && Moves(pos, index, Addrs(t, out), at')
  {
    hide Flat, Addrs, SpareOk, Counted, Bytes, NewPages, Copied, Moves;
    NewFlat(old_, ch, pos, pages, index, nl, at, t);
    var q := |Flat(old_, ch[..|ch| - 1])|;
    var s := Flat(old_, ch)[..q];
    var more := old_[ch[|ch| - 1]].entries;
    EmbedPageKept(s, Flat(pages, nl.Filled()), at, more);
    CopyEnds(pos, index, q, Addrs(old_, ch), Addrs(pages, nl.Filled()), at, PageAddrs(ch[|ch| - 1], |more|));
  }

  lemma Untouched(pages: Pages, ch: seq<nat>, pos: map<nat, nat>, index: map<nat, Addr>)
    requires In(pages, ch) && IndexedBy(index, Addrs(pages, ch), pos)
    ensures var s := Flat(pages, ch); var at := Shifted(0, |s|);
            Embeds(s, s, at) && DropsDead(s, at) && Moves(pos, index, Addrs(pages, ch), at)
  {
    hide Flat, Addrs;
    var s := Flat(pages, ch);
    var at := Shifted(0, |s|);
    forall k: nat | k < |s| ensures Kept(at, k) { assert at[k] == k; }
    forall p | p in pos ensures exists x: nat :: Copy(x, pos[p], index[p], Addrs(pages, ch), at) {
      assert p in index.Keys;
      assert Copy(pos[p], pos[p], index[p], Addrs(pages, ch), at);
    }
  }

  /** Allocate the first pages of the new log. */
  method Allocate(log: InodeLog, ids: seq<nat>, more: seq<nat>, ghost ch: seq<nat>, ghost pos: map<nat, nat>) returns (nl: NewLog)
    requires In(log.pages, ch) && IndexedBy(log.index, Addrs(log.pages, ch), pos)
    requires ids != [] && SpareOk(log.pages, ids + more) && |Flat(log.pages, ch)| <= |more|
    modifies log`pages
    ensures Copying(old(log.pages), ch, pos, log.pages, log.index, nl, 0, []) && nl.pages == ids
  {
    hide Flat, Addrs, NewPages, IndexedBy, Copying, Outside;
    SpareParts(log.pages, ids, more);
    AllocateLogPages(log, ids);
    nl := NewLog(ids, 0, more);
    SpareStill(old(log.pages), log.pages, ids, more);
    NewIn(log.pages, ids, 0);
    CopyingStarts(old(log.pages), ch, pos, log.pages, log.index, nl);
  }

  lemma SpareParts(pages: Pages, ids: seq<nat>, more: seq<nat>)
    requires SpareOk(pages, ids + more)
    ensures SpareOk(pages, ids) && SpareOk(pages, more) && forall i, j :: 0 <= i < |ids| && 0 <= j < |more| ==> ids[i] != more[j]
  {
    var a := ids + more;
    forall i | 0 <= i < |ids| ensures ids[i] == a[i] {}
    forall j | 0 <= j < |more| ensures more[j] == a[|ids| + j] {}
    forall i, j | 0 <= i < |ids| && 0 <= j < |more| ensures ids[i] != more[j] { assert a[i] != a[|ids| + j]; }
    forall i, j | 0 <= i < j < |ids| ensures ids[i] != ids[j] { assert a[i] != a[j]; }
    forall i, j | 0 <= i < j < |more| ensures more[i] != more[j] { assert a[|ids| + i] != a[|ids| + j]; }
  }

  lemma SpareStill(s: Pages, t: Pages, ids: seq<nat>, more: seq<nat>)
    requires SpareOk(s, ids) && SpareOk(s, more) && forall i, j :: 0 <= i < |ids| && 0 <= j < |more| ==> ids[i] != more[j]
    requires forall id | id in t :: id in s || id in ids
    ensures SpareOk(t, more) && forall id | id in ids :: id !in s
  {
  }

  /** A page of the old log is as it was. */
  lemma OldPage(old_: Pages, ch: seq<nat>, pos: map<nat, nat>, pages: Pages, index: map<nat, Addr>, nl: NewLog, q: nat, at: seq<nat>, i: nat)
    requires Chain(old_, ch) && i < |ch| && Copying(old_, ch, pos, pages, index, nl, q, at)
    ensures ch[i] in old_ && ch[i] in pages && pages[ch[i]] == old_[ch[i]] && (i + 1 < |ch| ==> pages[ch[i]].next == ch[i + 1])
  {
    hide NewPages, KeepsLive, Copied, Flat, Addrs, SpareOk;
  }

  lemma PrefixLength(pages: Pages, ch: seq<nat>, i: nat)
    requires In(pages, ch) && i < |ch|
    ensures In(pages, ch[..i]) && In(pages, ch[..i + 1]) && ch[i] in pages
    ensures |Flat(pages, ch[..i + 1])| == |Flat(pages, ch[..i])| + |pages[ch[i]].entries|
  {
    assert ch[..i + 1][..i] == ch[..i];
  }

  /** Copy the live entries of the page `curr`, the `i`-th of the old log. */
  method CopyPage(log: InodeLog, nl0: NewLog, curr: nat, ghost old_: Pages, ghost ch: seq<nat>, ghost pos: map<nat, nat>, ghost i: nat, ghost at0: seq<nat>)
    returns (nl: NewLog, ghost at: seq<nat>, ghost trace: seq<(Pages, nat)>)
    requires Chain(old_, ch) && In(old_, ch) && i < |ch| && log.head == ch[0] && curr == ch[i] && In(old_, ch[..i]) && In(old_, ch[..i + 1])
    requires IndexOk(Flat(old_, ch), pos) && MappedLive(Flat(old_, ch), pos)
    requires Copying(old_, ch, pos, log.pages, log.index, nl0, |Flat(old_, ch[..i])|, at0)
    modifies log`pages, log`index
    ensures Copying(old_, ch, pos, log.pages, log.index, nl, |Flat(old_, ch[..i + 1])|, at) && nl0.pages <= nl.pages
    ensures ch != [] && forall s | s in trace :: ReadsLog(s.0, s.1, ch[|ch| - 1], Flat(old_, ch))
  {
    hide Flat, Addrs, NewPages, MappedLive, IndexOk, Copying, Grown, Repointed, Chain, In, ReadsLog;
    ghost var q0 := |Flat(old_, ch[..i])|;
    nl, at, trace := nl0, at0, [];
    OldPage(old_, ch, pos, log.pages, log.index, nl, q0, at, i);
    ChainIn(old_, ch);
    PrefixLength(old_, ch, i);
    var j := 0;
    while j < |log.pages[curr].entries|
      invariant curr in log.pages && log.pages[curr] == old_[curr] && j <= |old_[curr].entries|
      invariant Copying(old_, ch, pos, log.pages, log.index, nl, q0 + j, at) && nl0.pages <= nl.pages
      invariant forall s | s in trace :: ReadsLog(s.0, s.1, ch[|ch| - 1], Flat(old_, ch))
      decreases |old_[curr].entries| - j
    {
      AddrAt(old_, ch, i, j);
      var e := log.pages[curr].entries[j];
      if !e.Dead() {
        CopyingRoom(old_, ch, pos, log.pages, log.index, nl, q0 + j, at);
        ghost var pages0, index0, nl1 := log.pages, log.index, nl;
        var b;
        nl, b := AppendCopy(log, nl, e);
        GrownPages(pages0, log.pages, nl1, nl);
        forall p | p in log.index && log.index[p] == Addr(curr, j) ensures e.Covers(p) {
          SlotCovered(old_, ch, pos, pages0, index0, nl1, q0 + j, at, p);
        }
        GcAssignFileEntry(log, e, Addr(curr, j), b);
        CopyingNext(old_, ch, pos, pages0, index0, nl1, q0 + j, at, log.pages, log.index, nl, b);
        at := at + [q0 + j];
        CopyingReads(old_, ch, pos, log.pages, log.index, nl, q0 + j + 1, at);
        trace := trace + [(log.pages, log.head)];
        OldPage(old_, ch, pos, log.pages, log.index, nl, q0 + j + 1, at, i);
      } else {
        CopyingSkip(old_, ch, pos, log.pages, log.index, nl, q0 + j, at);
      }
      j := j + 1;
    }
  }

  lemma GrownPages(s: Pages, t: Pages, nl: NewLog, r: NewLog)
    requires Grown(s, t, nl, r)
    ensures nl.pages <= r.pages
  {
  }

  /** While entries are copied the old log is as it was, whatever has become of the new pages. */
  lemma CopyingReads(old_: Pages, ch: seq<nat>, pos: map<nat, nat>, pages: Pages, index: map<nat, Addr>, nl: NewLog, q: nat, at: seq<nat>)
    requires Chain(old_, ch) && Copying(old_, ch, pos, pages, index, nl, q, at)
    ensures In(old_, ch) && ReadsLog(pages, ch[0], ch[|ch| - 1], Flat(old_, ch))
  {
    hide Flat, Addrs, Copying, ReadsLog;
    forall i: nat | i < |ch| ensures ch[i] in pages && pages[ch[i]] == old_[ch[i]] {
      OldPage(old_, ch, pos, pages, index, nl, q, at, i);
    }
    IdentityReads(old_, pages, ch);
  }

  lemma CopyingRoom(old_: Pages, ch: seq<nat>, pos: map<nat, nat>, pages: Pages, index: map<nat, Addr>, nl: NewLog, q: nat, at: seq<nat>)
    requires Copying(old_, ch, pos, pages, index, nl, q, at) && q < |Flat(old_, ch)|
    ensures NewPages(pages, nl.pages, nl.at) && SpareOk(pages, nl.spare) && nl.spare != []
  {
    hide NewPages, KeepsLive, Copied, Flat, Addrs, SpareOk;
  }

  /** Give back the pages of a chain, following its links. */
  method FreeContiguousLogBlocks(log: InodeLog, head: nat, ghost c: seq<nat>)
    requires if head == 0 then c == [] else Chain(log.pages, c) && c[0] == head && log.pages[c[|c| - 1]].next == 0
    modifies log`free
    ensures log.free == old(log.free) + multiset(c)
  {
    var curr := head;
    ghost var i := 0;
    while curr != 0
      invariant i <= |c| && curr == (if i < |c| then c[i] else 0) && log.free == old(log.free) + multiset(c[..i])
      decreases |c| - i
    {
      log.free := log.free + multiset{curr};
      curr := log.pages[curr].next;
      assert c[..i + 1] == c[..i] + [c[i]];
      i := i + 1;
    }
    assert c[..i] == c;
  }

  // ---------------------------------------------------------------- the switch

  /** Memory after the new log is linked to the tail page. */
  function Joined(pages: Pages, nl: NewLog, tail: nat): Pages
    requires nl.at < |nl.pages| && nl.pages[nl.at] in pages
  {
    pages[nl.pages[nl.at] := pages[nl.pages[nl.at]].(next := tail)]
  }

  /** Memory after the last page of the old log is cut off. */
  function CutOff(pages: Pages, last: nat): Pages
    requires last in pages
  {
    pages[last := pages[last].(next := 0)]
  }

  lemma CutOffChains(old_: Pages, ch: seq<nat>, pos: map<nat, nat>, pages: Pages, index: map<nat, Addr>, nl: NewLog, at: seq<nat>)
    requires Ready(old_, ch, pos, pages, index, nl, at) && nl.at < |nl.pages| && nl.pages[nl.at] in pages
    requires var t := Joined(pages, nl, ch[|ch| - 1]);
             Chain(t, NewChain(nl, ch[|ch| - 1])) && Chain(t, ch) && forall i :: 0 <= i < |ch| ==> t[ch[i]] == old_[ch[i]]
    ensures var n := |ch| - 1;
            var t := Joined(pages, nl, ch[n]);
            && ch[n - 1] in t && t[ch[n - 1]].next == ch[n]
            && Chain(CutOff(t, ch[n - 1]), NewChain(nl, ch[n]))
            && Chain(CutOff(t, ch[n - 1]), ch[..n]) && CutOff(t, ch[n - 1])[ch[n - 1]].next == 0
            && SameContents(old_, ch, pages, nl, t) && SameContents(old_, ch, pages, nl, CutOff(t, ch[n - 1]))
  {
    hide KeepsLive, Copied, Flat, Addrs, SpareOk, Counted, Bytes, NewPages;
    var n := |ch| - 1;
    var t := Joined(pages, nl, ch[n]);
    var out := NewChain(nl, ch[n]);
    forall i | 0 <= i <= nl.at ensures nl.Filled()[i] == out[i] && out[i] in nl.pages && out[i] in t && out[i] !in old_ {}
    assert ch[n - 1] in old_;
    forall i | 0 <= i < |out| - 1 ensures out[i] != ch[n - 1] {}
    ChainElsewhere(t, out, ch[n - 1], 0);
    assert out[|out| - 1] == ch[n];
  }

  lemma IdentityReads(old_: Pages, t: Pages, ch: seq<nat>)
    requires Chain(old_, ch) && Chain(t, ch) && forall i :: 0 <= i < |ch| ==> t[ch[i]] == old_[ch[i]]
    ensures In(old_, ch) && ReadsLog(t, ch[0], ch[|ch| - 1], Flat(old_, ch))
  {
    hide Flat, Addrs;
    FlatSame(old_, t, ch);
    var s := Flat(old_, ch);
    var at := Shifted(0, |s|);
    forall k: nat | k < |s| ensures Kept(at, k) { assert at[k] == k; }
    assert ReadsLogBy(t, ch[0], ch[|ch| - 1], s, ch, at);
  }

  lemma NewReads(old_: Pages, ch: seq<nat>, pos: map<nat, nat>, pages: Pages, index: map<nat, Addr>, nl: NewLog, at: seq<nat>, t: Pages)
    requires |ch| > 1 && Ready(old_, ch, pos, pages, index, nl, at) && nl.at < |nl.pages| && In(pages, nl.Filled()) && In(old_, ch)
    requires SameContents(old_, ch, pages, nl, t) && Chain(t, NewChain(nl, ch[|ch| - 1]))
    ensures ReadsLog(t, nl.pages[0], ch[|ch| - 1], Flat(old_, ch))
  {
    hide Flat, Addrs, Ready, SameContents, Moves;
    NewLogIs(old_, ch, pos, pages, index, nl, at, t);
    var out := NewChain(nl, ch[|ch| - 1]);
    var at' := at + Shifted(|Flat(old_, ch[..|ch| - 1])|, |old_[ch[|ch| - 1]].entries|);
    assert ReadsLogBy(t, nl.pages[0], ch[|ch| - 1], Flat(old_, ch), out, at');
  }

  /** Everything the numbered steps rely on, once the copying is done. */
  lemma Switch(old_: Pages, ch: seq<nat>, pos: map<nat, nat>, pages: Pages, index: map<nat, Addr>, nl: NewLog, at: seq<nat>)
    requires Ready(old_, ch, pos, pages, index, nl, at) && In(old_, ch)
    ensures nl.at < |nl.pages| && nl.pages[nl.at] in pages && In(old_, ch[..|ch| - 1])
    ensures var n := |ch| - 1;
            var t := Joined(pages, nl, ch[n]);
            && ch[n - 1] in t && t[ch[n - 1]].next == ch[n]
            && ReadsLog(t, ch[0], ch[n], Flat(old_, ch)) && ReadsLog(t, nl.pages[0], ch[n], Flat(old_, ch))
            && ReadsLog(CutOff(t, ch[n - 1]), nl.pages[0], ch[n], Flat(old_, ch))
            && Chain(CutOff(t, ch[n - 1]), ch[..n]) && CutOff(t, ch[n - 1])[ch[n - 1]].next == 0
            && Chain(CutOff(t, ch[n - 1]), NewChain(nl, ch[n]))
            && var at' := at + Shifted(|Flat(old_, ch[..n])|, |old_[ch[n]].entries|);
               Embeds(Flat(old_, ch), Flat(CutOff(t, ch[n - 1]), NewChain(nl, ch[n])), at') && DropsDead(Flat(old_, ch), at')
               && Moves(pos, index, Addrs(CutOff(t, ch[n - 1]), NewChain(nl, ch[n])), at')
  {
    hide Flat, Addrs, Moves, Embeds, DropsDead, ReadsLog, NewPages, KeepsLive, Copied;
    var n := |ch| - 1;
    LinkTail(old_, ch, pos, pages, index, nl, at);
    var t := Joined(pages, nl, ch[n]);
    CutOffChains(old_, ch, pos, pages, index, nl, at);
    IdentityReads(old_, t, ch);
    NewReads(old_, ch, pos, pages, index, nl, at, t);
    NewReads(old_, ch, pos, pages, index, nl, at, CutOff(t, ch[n - 1]));
    NewLogIs(old_, ch, pos, pages, index, nl, at, CutOff(t, ch[n - 1]));
  }

  lemma KeptAreLive(old_: Pages, ch: seq<nat>, pos: map<nat, nat>, pages: Pages, index: map<nat, Addr>, nl: NewLog, at: seq<nat>)
    requires Ready(old_, ch, pos, pages, index, nl, at) && In(old_, ch)
    ensures In(old_, ch[..|ch| - 1])
    ensures var q := |Flat(old_, ch[..|ch| - 1])|;
            var at' := at + Shifted(q, |old_[ch[|ch| - 1]].entries|);
            forall x :: 0 <= x < |at'| && at'[x] < q ==> at'[x] < |Flat(old_, ch)| && !Flat(old_, ch)[at'[x]].Dead()
  {
    hide Flat, Addrs, NewPages, Copied, SpareOk, Outside;
    var q := |Flat(old_, ch[..|ch| - 1])|;
    var s := Flat(old_, ch);
    forall x | 0 <= x < |at| ensures at[x] < q && s[..q][at[x]] == s[at[x]] && !s[at[x]].Dead() {}
  }

  lemma NewCounted(old_: Pages, ch: seq<nat>, pos: map<nat, nat>, pages: Pages, index: map<nat, Addr>, nl: NewLog, at: seq<nat>)
    requires |ch| > 1 && Ready(old_, ch, pos, pages, index, nl, at) && (forall i :: 0 <= i < |ch| ==> Counted(old_[ch[i]]))
    requires nl.at < |nl.pages| && nl.pages[nl.at] in pages && ch[|ch| - 2] in Joined(pages, nl, ch[|ch| - 1])
    ensures var t := CutOff(Joined(pages, nl, ch[|ch| - 1]), ch[|ch| - 2]);
            var out := NewChain(nl, ch[|ch| - 1]);
            forall i :: 0 <= i < |out| ==> out[i] in t && Counted(t[out[i]])
  {
    hide Flat, Addrs, Copied, KeepsLive, SpareOk, Counted, Bytes;
    var n := |ch| - 1;
    var t := CutOff(Joined(pages, nl, ch[n]), ch[n - 1]);
    var out := NewChain(nl, ch[n]);
    assert ch[n] in old_ && ch[n - 1] in old_ && ch[n] != ch[n - 1];
    forall i | 0 <= i < |out| ensures out[i] in t && Counted(t[out[i]]) {
      if i <= nl.at {
        assert out[i] == nl.pages[i] && out[i] in nl.pages;
        CountedNext(pages[out[i]], ch[n]);
      }
    }
  }

  lemma RestOfNew(old_: Pages, ch: seq<nat>, pos: map<nat, nat>, pages: Pages, index: map<nat, Addr>, nl: NewLog, at: seq<nat>)
    requires Ready(old_, ch, pos, pages, index, nl, at)
    ensures nl.at < |nl.pages| && nl.pages[nl.at] in pages
    ensures var rest := nl.pages[nl.at + 1..];
            if pages[nl.pages[nl.at]].next == 0 then rest == []
            else Chain(pages, rest) && rest[0] == pages[nl.pages[nl.at]].next && pages[rest[|rest| - 1]].next == 0
  {
    hide Flat, Addrs, Copied, KeepsLive, SpareOk, Counted, Bytes;
    var rest := nl.pages[nl.at + 1..];
    NextNew(pages, nl.pages, nl.at);
    if rest != [] {
      forall i | 0 <= i < |rest| ensures rest[i] == nl.pages[nl.at + 1 + i] {}
      assert rest[|rest| - 1] == nl.pages[|nl.pages| - 1];
      forall i, j | 0 <= i < j < |rest| ensures rest[i] != rest[j] { assert nl.pages[nl.at + 1 + i] != nl.pages[nl.at + 1 + j]; }
      forall i | 0 <= i < |rest| - 1 ensures pages[rest[i]].next == rest[i + 1] { NextNew(pages, nl.pages, nl.at + 1 + i); }
    }
  }

  /**
   Copy the live entries of all pages but the tail to the pages `ids`, extended from `more` as needed,
   and switch the head over to them.  `trace` records memory and head after each entry is copied and after
   each numbered step, `left` the new pages that were not needed.
   */
  method ThoroughGc(log: InodeLog, ids: seq<nat>, more: seq<nat>, ghost ch: seq<nat>, ghost pos: map<nat, nat>)
    returns (ghost out: seq<nat>, ghost at: seq<nat>, ghost left: seq<nat>, ghost trace: seq<(Pages, nat)>)
    requires log.Log(ch) && In(log.pages, ch) && Placed(log.pages, ch) && IndexedBy(log.index, Addrs(log.pages, ch), pos)
    requires IndexOk(Flat(log.pages, ch), pos) && MappedLive(Flat(log.pages, ch), pos)
    requires ids != [] && SpareOk(log.pages, ids + more) && |Flat(log.pages, ch)| <= |more|
    modifies log`pages, log`head, log`index, log`free
    ensures In(old(log.pages), ch) && log.Log(out) && In(log.pages, out) && Placed(log.pages, out)
    ensures Embeds(Flat(old(log.pages), ch), Flat(log.pages, out), at) && DropsDead(Flat(old(log.pages), ch), at)
    ensures Moves(pos, log.index, Addrs(log.pages, out), at)
    ensures In(old(log.pages), ch[..|ch| - 1])
    ensures forall x :: 0 <= x < |at| && at[x] < |Flat(old(log.pages), ch[..|ch| - 1])| ==>
              at[x] < |Flat(old(log.pages), ch)| && !Flat(old(log.pages), ch)[at[x]].Dead()
    ensures log.free == old(log.free) + multiset(left) + multiset(ch[..|ch| - 1])
    ensures Apart(old(log.pages), ch, out, left) && (|ch| > 1 ==> forall id <- ids :: id in out || id in left)
    ensures forall s | s in trace :: ReadsLog(s.0, s.1, log.tail, Flat(old(log.pages), ch))
  {
    hide Flat, Addrs, Embeds, DropsDead, Copied, NewPages, Counted, Moves, KeepsLive, Outside, SpareOk, IndexedBy, MappedLive, IndexOk;
    hide ReadsLog, Grown, Repointed, Copying, Joined, CutOff, Placed, Apart;
    ghost var old_ := log.pages;
    ChainIn(old_, ch);
    trace, left := [], [];
    if log.head == log.tail {
      out := ch;
      at := Shifted(0, |Flat(old_, ch)|);
      Untouched(old_, ch, pos, log.index);
      FlatNone(old_, ch);
      ApartNothing(old_, ch);
      return;
    }
    var nl := Allocate(log, ids, more, ch, pos);
    ghost var n := |ch| - 1;
    var curr, oldCurr := log.head, log.head;
    at := [];
    ghost var i := 0;
    assert ch[..0] == [] && |Flat(old_, ch[..0])| == 0 by { FlatNone(old_, ch); }
    while curr != log.tail
      invariant i <= n && curr == ch[i] && (i > 0 ==> oldCurr == ch[i - 1]) && log.head == ch[0] && log.tail == ch[n]
      invariant In(old_, ch[..i]) && Copying(old_, ch, pos, log.pages, log.index, nl, |Flat(old_, ch[..i])|, at)
      invariant ids <= nl.pages && log.free == old(log.free) && forall s | s in trace :: ReadsLog(s.0, s.1, log.tail, Flat(old_, ch))
      decreases n - i
    {
      PrefixLength(old_, ch, i);
      ghost var more_;
      nl, at, more_ := CopyPage(log, nl, curr, old_, ch, pos, i, at);
      trace := trace + more_;
      OldPage(old_, ch, pos, log.pages, log.index, nl, |Flat(old_, ch[..i + 1])|, at, i);
      oldCurr := curr;
      curr := log.pages[curr].next;
      i := i + 1;
    }
    ghost var more_;
    out, at, left, more_ := SwitchOver(log, nl, oldCurr, ch, pos, old_, at);
    trace := trace + more_;
  }

  /** What is given back, besides the pages `ch` but the last, is new, and nothing given back is in the new log. */
  ghost predicate Apart(old_: Pages, ch: seq<nat>, out: seq<nat>, left: seq<nat>)
    requires ch != []
  {
    && (forall id <- left :: id !in old_ && id !in out)
    && (forall id <- ch[..|ch| - 1] :: id in old_ && id !in out)
    && (forall i, j :: 0 <= i < j < |left| ==> left[i] != left[j])
    && (forall i, j :: 0 <= i < j < |ch| ==> ch[i] != ch[j])
  }

  lemma ApartNothing(old_: Pages, ch: seq<nat>)
    requires Chain(old_, ch) && ch[0] == ch[|ch| - 1]
    ensures Apart(old_, ch, ch, []) && ch[..|ch| - 1] == []
  {
  }

  lemma ApartAfter(old_: Pages, ch: seq<nat>, pos: map<nat, nat>, pages: Pages, index: map<nat, Addr>, nl: NewLog, at: seq<nat>)
    requires Ready(old_, ch, pos, pages, index, nl, at) && nl.at < |nl.pages|
    ensures Apart(old_, ch, NewChain(nl, ch[|ch| - 1]), nl.pages[nl.at + 1..])
    ensures forall id <- nl.pages :: id in NewChain(nl, ch[|ch| - 1]) || id in nl.pages[nl.at + 1..]
  {
    hide Ready, NewChain;
    var n := |ch| - 1;
    ReadyIds(old_, ch, pos, pages, index, nl, at);
    var out, left := NewChain(nl, ch[n]), nl.pages[nl.at + 1..];
    assert nl.pages == nl.Filled() + left;
    NewChainIds(nl, ch[n]);
    forall id <- left ensures id !in old_ && id !in out {
      assert id in nl.pages;
      var j :| 0 <= j < |left| && left[j] == id;
      assert nl.pages[nl.at + 1 + j] == id;
    }
    forall id <- ch[..n] ensures id in old_ && id !in out {
      var j :| 0 <= j < n && ch[j] == id;
    }
    forall i, j | 0 <= i < j < |left| ensures left[i] != left[j] {
      assert nl.pages[nl.at + 1 + i] != nl.pages[nl.at + 1 + j];
    }
  }

  lemma ReadyIds(old_: Pages, ch: seq<nat>, pos: map<nat, nat>, pages: Pages, index: map<nat, Addr>, nl: NewLog, at: seq<nat>)
    requires Ready(old_, ch, pos, pages, index, nl, at)
    ensures |ch| > 1 && (forall i :: 0 <= i < |ch| ==> ch[i] in old_) && (forall id | id in nl.pages :: id !in old_)
    ensures (forall i, j :: 0 <= i < j < |ch| ==> ch[i] != ch[j]) && (forall i, j :: 0 <= i < j < |nl.pages| ==> nl.pages[i] != nl.pages[j])
  {
    hide Flat, Addrs, Copied, KeepsLive, SpareOk, Counted, Bytes, PlacedAt, Outside;
  }

  lemma NewChainIds(nl: NewLog, tail: nat)
    requires nl.at < |nl.pages|
    ensures forall id :: id in NewChain(nl, tail) <==> id == tail || exists i :: 0 <= i <= nl.at && nl.pages[i] == id
  {
  }

  lemma FlatNone(pages: Pages, ch: seq<nat>)
    ensures ch[..0] == [] && In(pages, ch[..0]) && Flat(pages, ch[..0]) == []
  {
  }

  /** The numbered steps: link, switch, unlink, free. */
  method SwitchOver(log: InodeLog, nl: NewLog, oldCurr: nat, ghost ch: seq<nat>, ghost pos: map<nat, nat>, ghost old_: Pages, ghost at0: seq<nat>)
    returns (ghost out: seq<nat>, ghost at: seq<nat>, ghost left: seq<nat>, ghost trace: seq<(Pages, nat)>)
    requires |ch| > 1 && Ready(old_, ch, pos, log.pages, log.index, nl, at0) && In(old_, ch) && forall i :: 0 <= i < |ch| ==> Counted(old_[ch[i]])
    requires log.head == ch[0] && log.tail == ch[|ch| - 1] && oldCurr == ch[|ch| - 2] && Placed(old_, ch)
    modifies log`pages, log`head, log`free
    ensures log.Log(out) && In(log.pages, out) && In(old_, ch[..|ch| - 1]) && Placed(log.pages, out)
    ensures Embeds(Flat(old_, ch), Flat(log.pages, out), at) && DropsDead(Flat(old_, ch), at)
    ensures Moves(pos, log.index, Addrs(log.pages, out), at)
    ensures forall x :: 0 <= x < |at| && at[x] < |Flat(old_, ch[..|ch| - 1])| ==> at[x] < |Flat(old_, ch)| && !Flat(old_, ch)[at[x]].Dead()
    ensures log.free == old(log.free) + multiset(left) + multiset(ch[..|ch| - 1])
    ensures Apart(old_, ch, out, left) && forall id <- nl.pages :: id in out || id in left
    ensures |trace| == 3 && forall s | s in trace :: ReadsLog(s.0, s.1, log.tail, Flat(old_, ch))
  {
    hide Flat, Addrs, Embeds, DropsDead, Copied, NewPages, Moves, Counted, KeepsLive, ReadsLog, Copying, Ready, Placed, Apart, Chain, In, Joined, CutOff;
    ghost var n := |ch| - 1;
    ghost var copied := log.pages;
    ReadyChain(old_, ch, pos, copied, log.index, nl, at0);
    RestOfNew(old_, ch, pos, copied, log.index, nl, at0);
    Switch(old_, ch, pos, copied, log.index, nl, at0);
    KeptAreLive(old_, ch, pos, copied, log.index, nl, at0);
    NewCounted(old_, ch, pos, copied, log.index, nl, at0);
    NewPlaced(old_, ch, pos, copied, log.index, nl, at0);
    ApartAfter(old_, ch, pos, copied, log.index, nl, at0);
    left := nl.pages[nl.at + 1..];
    trace := Steps(log, nl, oldCurr, left, ch);
    out := NewChain(nl, log.tail);
    at := at0 + Shifted(|Flat(old_, ch[..n])|, |old_[ch[n]].entries|);
  }

  /** Their stores. */
  method Steps(log: InodeLog, nl: NewLog, oldCurr: nat, ghost left: seq<nat>, ghost ch: seq<nat>) returns (ghost trace: seq<(Pages, nat)>)
    requires |ch| > 1 && log.head == ch[0] != 0 && oldCurr == ch[|ch| - 2] && nl.at < |nl.pages| && nl.pages[nl.at] in log.pages
    requires var next := log.pages[nl.pages[nl.at]].next;
             if next == 0 then left == [] else Chain(log.pages, left) && left[0] == next && log.pages[left[|left| - 1]].next == 0
    requires oldCurr in Joined(log.pages, nl, log.tail)
    requires var t := CutOff(Joined(log.pages, nl, log.tail), oldCurr); Chain(t, ch[..|ch| - 1]) && t[oldCurr].next == 0
    modifies log`pages, log`head, log`free
    ensures log.head == nl.pages[0] && log.pages == CutOff(Joined(old(log.pages), nl, log.tail), oldCurr)
    ensures log.free == old(log.free) + multiset(left) + multiset(ch[..|ch| - 1])
    ensures var t := Joined(old(log.pages), nl, log.tail);
            trace == [(t, ch[0]), (t, nl.pages[0]), (CutOff(t, oldCurr), nl.pages[0])]
  {
    hide Chain;
    // Step 1: link the new log to the tail page, giving back the new pages left over.
    var cur := nl.pages[nl.at];
    FreeContiguousLogBlocks(log, log.pages[cur].next, left);
    log.pages := log.pages[cur := log.pages[cur].(next := log.tail)];
    trace := [(log.pages, log.head)];
    // Step 2: switch to the new log.
    var oldHead := log.head;
    log.head := nl.pages[0];
    trace := trace + [(log.pages, log.head)];
    // Step 3: unlink the old log.
    log.pages := log.pages[oldCurr := log.pages[oldCurr].(next := 0)];
    trace := trace + [(log.pages, log.head)];
    // Step 4: free the old log.
    FreeContiguousLogBlocks(log, oldHead, ch[..|ch| - 1]);
  }

  lemma ReadyChain(old_: Pages, ch: seq<nat>, pos: map<nat, nat>, pages: Pages, index: map<nat, Addr>, nl: NewLog, at: seq<nat>)
    requires Ready(old_, ch, pos, pages, index, nl, at)
    ensures forall i :: 0 <= i < |ch| ==> ch[i] in old_ && ch[i] != 0
  {
    hide Copying;
  }

  /** The copies name the pages they are on. */
  lemma NewPlaced(old_: Pages, ch: seq<nat>, pos: map<nat, nat>, pages: Pages, index: map<nat, Addr>, nl: NewLog, at: seq<nat>)
    requires |ch| > 1 && Ready(old_, ch, pos, pages, index, nl, at) && In(old_, ch) && Placed(old_, ch)
    requires nl.at < |nl.pages| && nl.pages[nl.at] in pages && ch[|ch| - 2] in Joined(pages, nl, ch[|ch| - 1])
    ensures var t := CutOff(Joined(pages, nl, ch[|ch| - 1]), ch[|ch| - 2]);
            In(t, NewChain(nl, ch[|ch| - 1])) && Placed(t, NewChain(nl, ch[|ch| - 1]))
  {
    hide Addrs, Flat, Copied, KeepsLive, SpareOk, Counted, Bytes;
    var n := |ch| - 1;
    FlatPlaced(pages, nl.Filled());
    var t := CutOff(Joined(pages, nl, ch[n]), ch[n - 1]);
    var out := NewChain(nl, ch[n]);
    assert ch[n] in old_ && ch[n - 1] in old_ && ch[n] != ch[n - 1];
    forall i: nat | i < |out| ensures out[i] in t && forall e | e in t[out[i]].entries :: e.page == out[i] {
      if i <= nl.at { assert out[i] == nl.Filled()[i] && out[i] in nl.pages; }
    }
  }

  // ---------------------------------------------------------------- what collection means for the file

  /** `st` is the file whose log is in the pages `ch` and whose index points into them. */
  ghost predicate Describes(pages: Pages, ch: seq<nat>, index: map<nat, Addr>, st: File)
    requires In(pages, ch)
  {
    && st.acct.log == Flat(pages, ch) && IndexedBy(index, Addrs(pages, ch), st.index) && Placed(pages, ch)
    && forall i :: 0 <= i < |ch| ==> pages[ch[i]].num == |pages[ch[i]].entries| && pages[ch[i]].invalid == st.acct.invalidEntries[ch[i]]
  }

  /** The counters that the file's operations keep are exact on every page: what counts as dead is dead. */
  lemma DescribedCounted(pages: Pages, ch: seq<nat>, index: map<nat, Addr>, st: File, all: multiset<nat>)
    requires Chain(pages, ch) && In(pages, ch) && Describes(pages, ch, index, st) && Inv(st, all)
    ensures forall i :: 0 <= i < |ch| ==> Counted(pages[ch[i]])
  {
    hide EntriesOk, BlocksOk, IndexInv, SizeInv, IndexedBy, Placed, Flat;
    forall i: nat | i < |ch| ensures Counted(pages[ch[i]]) {
      DeadCounted(pages, ch, ch[i]);
    }
  }

  /** And the other way round, for a log just collected. */
  lemma CountedDescribes(pages: Pages, ch: seq<nat>, index: map<nat, Addr>, st: File)
    requires Chain(pages, ch) && In(pages, ch) && Placed(pages, ch) && forall i :: 0 <= i < |ch| ==> Counted(pages[ch[i]])
    requires st.acct.log == Flat(pages, ch) && IndexedBy(index, Addrs(pages, ch), st.index) && st.acct.invalidEntries == Sum(st.acct.log, DeadPage)
    ensures Describes(pages, ch, index, st)
  {
    hide IndexedBy, Placed, Flat;
    forall i: nat | i < |ch| ensures pages[ch[i]].num == |pages[ch[i]].entries| && pages[ch[i]].invalid == st.acct.invalidEntries[ch[i]] {
      DeadCounted(pages, ch, ch[i]);
    }
  }

  lemma InvLive(st: File, all: multiset<nat>)
    requires Inv(st, all)
    ensures IndexOk(st.acct.log, st.index) && MappedLive(st.acct.log, st.index)
  {
    hide BlocksOk, CountsOk, IndexInv, SizeInv;
    forall p | p in st.index ensures st.index[p] < |st.acct.log| && !st.acct.log[st.index[p]].Dead() {
      assert EntryOk(st, st.index[p], |st.acct.log|) && p in Mapped(st.index, st.index[p]);
    }
  }

  /**
   Thorough collection of a file's log is a collection step of the file: the invariant is kept, and
   every page is mapped to the same block as before.
   */
  lemma ThoroughGcCollects(pages: Pages, ch: seq<nat>, st: File, all: multiset<nat>, pages': Pages, out: seq<nat>, index': map<nat, Addr>, at: seq<nat>, p: nat)
    requires In(pages, ch) && In(pages', out) && st.acct.log == Flat(pages, ch) && Inv(st, all)
    requires Chain(pages', out) && Placed(pages', out) && forall i :: 0 <= i < |out| ==> Counted(pages'[out[i]])
    requires Embeds(Flat(pages, ch), Flat(pages', out), at) && DropsDead(Flat(pages, ch), at)
    requires Moves(st.index, index', Addrs(pages', out), at)
    ensures var u := Compacted(st, Flat(pages', out), index', Addrs(pages', out), at);
            && Enabled(st, Collect(u, at)) && Inv(u, all) && Describes(pages', out, index', u)
            && (p in u.index <==> p in st.index)
            && (p in st.index ==> IndexOk(u.acct.log, u.index) && IndexOk(st.acct.log, st.index) &&
                                  Nvmm(u.acct.log[u.index[p]], p) == Nvmm(st.acct.log[st.index[p]], p))
  {
    hide Flat, Addrs, Embeds, DropsDead, Moves, Core, IndexInv, SizeInv, Chain, Placed, Counted, Describes;
    var u := Compacted(st, Flat(pages', out), index', Addrs(pages', out), at);
    CountedDescribes(pages', out, index', u) by { MovesCompacts(st, Flat(pages', out), index', Addrs(pages', out), at); }
    MovesCompacts(st, Flat(pages', out), index', Addrs(pages', out), at);
    CollectKeeps(st, u, at, all);
    SameBlocks(st, u, at, all, p);
  }

  lemma SameBlocks(st: File, u: File, at: seq<nat>, all: multiset<nat>, p: nat)
    requires Inv(st, all) && Compaction(st, u, at)
    ensures IndexOk(st.acct.log, st.index) && IndexOk(u.acct.log, u.index) && (p in u.index <==> p in st.index)
    ensures p in st.index ==> Nvmm(u.acct.log[u.index[p]], p) == Nvmm(st.acct.log[st.index[p]], p)
  {
    hide EntriesOk, BlocksOk, CountsOk, IndexInv, SizeInv;
    assert p in u.index.Keys <==> p in st.index.Keys;
    CollectHolds(st, u, at, p, 0);
    if p in st.index {
      CollectHolds(st, u, at, p, Nvmm(st.acct.log[st.index[p]], p));
    }
  }

  /** Pages that keep their addresses keep their index slots. */
  lemma SameAddrsMoves(log: seq<LogEntry>, pos: map<nat, nat>, index: map<nat, Addr>, from: seq<Addr>, to: seq<Addr>, at: seq<nat>)
    requires IndexedBy(index, from, pos) && SameAddrs(from, to, at) && DropsDead(log, at) && MappedLive(log, pos)
    ensures Moves(pos, index, to, at)
  {
    forall p | p in pos ensures p in index.Keys && exists x: nat :: Copy(x, pos[p], index[p], to, at) {
      assert p in index.Keys && Kept(at, pos[p]);
      var x :| 0 <= x < |at| && at[x] == pos[p];
      assert Copy(x, pos[p], index[p], to, at);
    }
  }

  /** So is fast collection, which leaves every entry it keeps where it was. */
  lemma FastGcCollects(pages: Pages, ch: seq<nat>, index: map<nat, Addr>, st: File, all: multiset<nat>, pages': Pages, p: nat) returns (at: seq<nat>)
    requires Chain(pages, ch) && In(pages, ch) && OnlyNext(pages, pages') && Describes(pages, ch, index, st) && Inv(st, all)
    requires Chain(pages', LivePages(pages, ch[..|ch| - 1]) + [ch[|ch| - 1]])
    ensures var out := LivePages(pages, ch[..|ch| - 1]) + [ch[|ch| - 1]];
            && In(pages', out) && Moves(st.index, index, Addrs(pages', out), at)
            && var u := Compacted(st, Flat(pages', out), index, Addrs(pages', out), at);
               && Enabled(st, Collect(u, at)) && Inv(u, all) && Describes(pages', out, index, u)
               && (p in u.index <==> p in st.index)
               && (p in st.index ==> IndexOk(u.acct.log, u.index) && IndexOk(st.acct.log, st.index) &&
                                     Nvmm(u.acct.log[u.index[p]], p) == Nvmm(st.acct.log[st.index[p]], p))
  {
    hide Flat, Addrs, Embeds, DropsDead, Moves, Core, IndexInv, SizeInv, SubChain, LivePages, Chain, MappedLive, SameAddrs, Compaction, Enabled, Describes, Placed, Counted;
    ChainIn(pages, ch);
    DescribedCounted(pages, ch, index, st, all);
    DescribedIs(pages, ch, index, st);
    var n := |ch| - 1;
    LiveIsSub(pages, ch[..n]);
    SubSnoc(pages, ch[..n], LivePages(pages, ch[..n]), ch[n]);
    assert ch[..n] + [ch[n]] == ch;
    var out := LivePages(pages, ch[..n]) + [ch[n]];
    at := SubEmbeds(pages, ch, out);
    OnlyNextFlat(pages, pages', out);
    KeptPages(pages, ch, pages', out);
    InvLive(st, all);
    SameAddrsMoves(st.acct.log, st.index, index, Addrs(pages, ch), Addrs(pages', out), at);
    ThoroughGcCollects(pages, ch, st, all, pages', out, index, at, p);
    var u := Compacted(st, Flat(pages', out), index, Addrs(pages', out), at);
  }

  lemma DescribedIs(pages: Pages, ch: seq<nat>, index: map<nat, Addr>, st: File)
    requires In(pages, ch) && Describes(pages, ch, index, st)
    ensures st.acct.log == Flat(pages, ch) && IndexedBy(index, Addrs(pages, ch), st.index) && Placed(pages, ch)
  {
  }

  /** What was exact and in place on the old log's pages still is on those kept. */
  lemma KeptPages(pages: Pages, ch: seq<nat>, pages': Pages, out: seq<nat>)
    requires In(pages, ch) && Placed(pages, ch) && (forall i :: 0 <= i < |ch| ==> Counted(pages[ch[i]])) && OnlyNext(pages, pages')
    requires SubChain(pages, ch, out) && In(pages', out)
    ensures Placed(pages', out) && forall i :: 0 <= i < |out| ==> Counted(pages'[out[i]])
  {
    hide SubChain, Counted;
    SubIn(pages, ch, out);
    forall i: nat | i < |out| ensures Counted(pages'[out[i]]) && forall e | e in pages'[out[i]].entries :: e.page == out[i] {
      assert out[i] in ch;
      var j: nat :| j < |ch| && ch[j] == out[i];
      CountedNext(pages[ch[j]], pages'[ch[j]].next);
    }
  }

  lemma OnlyNextFlat(s: Pages, t: Pages, ch: seq<nat>)
    requires In(s, ch) && OnlyNext(s, t)
    ensures In(t, ch) && Flat(s, ch) == Flat(t, ch) && Addrs(s, ch) == Addrs(t, ch)
  {
    hide Flat, Addrs;
    forall i | 0 <= i < |ch| ensures ch[i] in t && s[ch[i]].entries == t[ch[i]].entries { assert ch[i] in s.Keys; }
    FlatSame(s, t, ch);
  }

  /** Whatever a crash during fast collection leaves is a log with nothing but dead entries missing. */
  lemma FastGcReads(pages: Pages, head: nat, old_: Pages, ch: seq<nat>)
    requires In(old_, ch) && (forall i :: 0 <= i < |ch| ==> Counted(old_[ch[i]])) && Reads(pages, head, old_, ch)
    ensures ch != [] && ReadsLog(pages, head, ch[|ch| - 1], Flat(old_, ch))
  {
    hide Flat, Addrs, Chain, SubChain, Embeds, DropsDead;
    var c :| ReadsBy(pages, head, old_, ch, c);
    var at := SubEmbeds(old_, ch, c);
    OnlyNextFlat(old_, pages, c);
    assert ReadsLogBy(pages, head, ch[|ch| - 1], Flat(old_, ch), c, at);
  }

  /**
   A crash between two steps of either collection loses nothing: replaying the log found from the head
   maps every page to the block it had.
   */
  lemma CrashDuringGc(st: File, all: multiset<nat>, pages: Pages, head: nat, tail: nat, p: nat) returns (c: seq<nat>)
    requires Inv(st, all) && ReadsLog(pages, head, tail, st.acct.log)
    ensures Chain(pages, c) && In(pages, c) && c[0] == head && c[|c| - 1] == tail
    ensures var t := Flat(pages, c);
            match LastLive(t, p)
            case None => p !in st.index
            case Some(k) => p in st.index && IndexOk(st.acct.log, st.index) && Nvmm(t[k], p) == Nvmm(st.acct.log[st.index[p]], p)
  {
    hide Flat, Last, LastLive, EntriesOk, BlocksOk, CountsOk, NoHoles, NothingPastEof, LastSize, LastAttrStands;
    var at: seq<nat>;
    c, at :| ReadsLogBy(pages, head, tail, st.acct.log, c, at);
    ChainIn(pages, c);
    var s, t := st.acct.log, Flat(pages, c);
    assert s[..|s|] == s;
    assert Lookup(st.index, p) == Last(s, p);
    if Last(s, p).Some? { MappedAlive(st, all, Last(s, p).value, p); }
    EmbedLast(s, t, at, p);
    if Last(t, p).Some? {
      assert Moved(s[at[Last(t, p).value]], t[Last(t, p).value]);
    }
    SkipDead(t, p);
  }

  // ---------------------------------------------------------------- collecting the log of a file

  /** Thorough collection of a file's log, starting from nothing but the file's invariant. */
  method CollectThoroughly(log: InodeLog, ids: seq<nat>, more: seq<nat>, ghost ch: seq<nat>, ghost st: File, ghost all: multiset<nat>)
    returns (ghost out: seq<nat>, ghost at: seq<nat>, ghost u: File)
    requires Chain(log.pages, ch) && In(log.pages, ch) && ch[0] == log.head && ch[|ch| - 1] == log.tail
    requires Describes(log.pages, ch, log.index, st) && Inv(st, all)
    requires ids != [] && SpareOk(log.pages, ids + more) && |Flat(log.pages, ch)| <= |more|
    modifies log`pages, log`head, log`index, log`free
    ensures In(log.pages, out) && log.Log(out) && Describes(log.pages, out, log.index, u)
    ensures Enabled(st, Collect(u, at)) && Inv(u, all)
  {
    hide Flat, Addrs, Embeds, DropsDead, Moves, Inv, SpareOk, Describes, Counted, IndexedBy, MappedLive, IndexOk, Enabled, Chain, ReadsLog, Apart;
    ghost var old_ := log.pages;
    DescribedCounted(old_, ch, log.index, st, all);
    DescribedIs(old_, ch, log.index, st);
    InvLive(st, all);
    ghost var left, trace;
    out, at, left, trace := ThoroughGc(log, ids, more, ch, st.index);
    u := Compacted(st, Flat(log.pages, out), log.index, Addrs(log.pages, out), at);
    ThoroughGcCollects(old_, ch, st, all, log.pages, out, log.index, at, 0);
  }

  /** Fast collection likewise: what it takes to be dead is dead. */
  method CollectFast(log: InodeLog, currTail: nat, newBlock: nat, numPages: nat, ghost ch: seq<nat>, ghost st: File, ghost all: multiset<nat>)
    returns (ghost out: seq<nat>, ghost at: seq<nat>, ghost u: File)
    requires Chain(log.pages, ch) && In(log.pages, ch) && ch[0] == log.head && ch[|ch| - 1] == log.tail
    requires Describes(log.pages, ch, log.index, st) && Inv(st, all)
    requires numPages > 0 ==> currTail in log.pages && forall i :: 0 <= i < |ch| - 1 ==> ch[i] != currTail
    modifies log`pages, log`head, log`free
    ensures In(log.pages, out) && Chain(log.pages, out) && out[0] == log.head && out[|out| - 1] == log.tail
    ensures Describes(log.pages, out, log.index, u) && Enabled(st, Collect(u, at)) && Inv(u, all)
    ensures forall id <- DeadPages(old(log.pages), ch[..|ch| - 1]) :: id in old(log.pages) && forall e | e in old(log.pages)[id].entries :: e.Dead()
    ensures forall id <- ch[..|ch| - 1] :: id in old(log.pages) &&
              if AllDeadOn(old(log.pages), id) then id !in out && log.free[id] > old(log.free)[id] else id in out
  {
    hide Flat, Addrs, Moves, Inv, Describes, IndexedBy, MappedLive, IndexOk, Enabled, LivePages, DeadPages, Reads, Chain, Counted, AllDeadOn;
    ghost var old_ := log.pages;
    DescribedCounted(old_, ch, log.index, st, all);
    ChainIn(old_, ch);
    ghost var trace;
    out, trace := log.FastGc(currTail, newBlock, numPages, ch);
    at := FastGcCollects(old_, ch, log.index, st, all, log.pages, 0);
    u := Compacted(st, Flat(log.pages, out), log.index, Addrs(log.pages, out), at);
    ghost var front := ch[..|ch| - 1];
    DeadAreDead(old_, front);
    forall id <- front ensures id in old_ && if AllDeadOn(old_, id) then id !in out && id in DeadPages(old_, front) else id in out {
      CollectedFast(old_, ch, id);
    }
  }

  /** All but the tail page of a chain: kept if something on it is alive, and given back otherwise. */
  lemma CollectedFast(pages: Pages, ch: seq<nat>, id: nat)
    requires Chain(pages, ch) && In(pages, ch) && id in ch[..|ch| - 1] && forall i :: 0 <= i < |ch| ==> Counted(pages[ch[i]])
    ensures id in pages && In(pages, ch[..|ch| - 1])
    ensures var out := LivePages(pages, ch[..|ch| - 1]) + [ch[|ch| - 1]];
            if AllDeadOn(pages, id) then id !in out && id in DeadPages(pages, ch[..|ch| - 1]) else id in out
  {
    hide Counted, AllDeadOn;
    PartedExactly(pages, ch[..|ch| - 1], id);
  }

  lemma DeadAreDead(pages: Pages, ch: seq<nat>)
    requires In(pages, ch) && forall i :: 0 <= i < |ch| ==> Counted(pages[ch[i]])
    ensures forall id <- DeadPages(pages, ch) :: id in pages && forall e | e in pages[id].entries :: e.Dead()
  {
    hide Counted, DeadPages;
    PagesParted(pages, ch);
    forall id <- DeadPages(pages, ch) ensures id in pages && forall e | e in pages[id].entries :: e.Dead() {
      assert id in multiset(DeadPages(pages, ch)) && id in multiset(ch) && id in ch;
      var i :| 0 <= i < |ch| && ch[i] == id;
      PageInvalid(pages[ch[i]]);
    }
  }
}
