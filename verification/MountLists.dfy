/**
 Rebuilding the free lists at mount time: from the bitmap of used blocks after a crash, or from the log of
 ranges that a clean unmount leaves behind.
 */
module MountLists {
  import opened Common
  import opened Ranges
  import opened RangeEdits

  const PER_PAGE: nat := 254

  /** One CPU's list: its nodes in key order and what is counted about them. */
  datatype FreeRanges = FreeRanges(nodes: seq<Range>, numFree: int, numNodes: nat)
  {
    ghost predicate Valid() { Canon(nodes) && numFree == Total(nodes) && numNodes == |nodes| }
  }

  const EMPTY: FreeRanges := FreeRanges([], 0, 0)

  /** The blocks dealt out to the lists: `[start[i], stop[i])`, in order. */
  datatype Shares = Shares(start: seq<nat>, stop: seq<nat>)
  {
    predicate Valid(size: nat) {
      && 0 < |start| == |stop|
      && (forall i :: 0 <= i < |start| ==> start[i] <= stop[i] <= size)
      && (forall i :: 0 <= i < |start| - 1 ==> stop[i] < size)
    }
  }

  // ---------------------------------------------------------------- insertion

  /** `nodes'` has `r` at its place in key order: behind all that end before it, in front of all that start after it. */
  ghost predicate InsertedAt(nodes: seq<Range>, nodes': seq<Range>, r: Range, p: nat) {
    && p <= |nodes| && nodes' == nodes[..p] + [r] + nodes[p..]
    && (forall i :: 0 <= i < p ==> nodes[i].high < r.low) && (forall i :: p <= i < |nodes| ==> r.low < nodes[i].low)
  }

  /** Puts a range at its place in key order, unless a node already has its first block. */
  method Insert(list: FreeRanges, r: Range) returns (ok: bool, list': FreeRanges)
    requires list.Valid() && r.low <= r.high
    ensures ok <==> !Has(list.nodes, r.low)
    ensures !ok ==> list' == list
    ensures ok ==> exists p: nat :: InsertedAt(list.nodes, list'.nodes, r, p)
    ensures ok ==> list'.numFree == list.numFree + r.Size() == Total(list'.nodes) && list'.numNodes == list.numNodes + 1 == |list'.nodes|
    ensures ok && Past(list.nodes, r.low) ==> list'.Valid() && list'.nodes == list.nodes + [r]
  {
    hide Canon, Total, Has;
    var p := 0;
    while p < |list.nodes| && list.nodes[p].high < r.low
      invariant 0 <= p <= |list.nodes| && forall i :: 0 <= i < p ==> list.nodes[i].high < r.low
    {
      p := p + 1;
    }
    if p < |list.nodes| && list.nodes[p].low <= r.low {
      HasAt(list.nodes, p, r.low);
      return false, list;
    }
    NoNodeHas(list.nodes, p, r.low);
    list' := FreeRanges(list.nodes[..p] + [r] + list.nodes[p..], list.numFree + r.Size(), list.numNodes + 1);
    ok := true;
    InsertTotal(list.nodes, r, p);
    assert InsertedAt(list.nodes, list'.nodes, r, p);
    if Past(list.nodes, r.low) {
      assert list'.nodes == list.nodes + [r];
      AtEnd(list.nodes, r);
    }
  }

  lemma InsertTotal(nodes: seq<Range>, r: Range, p: nat)
    requires p <= |nodes|
    ensures Total(nodes[..p] + [r] + nodes[p..]) == Total(nodes) + r.Size()
  {
    assert nodes[p..p] == [];
    SpliceTotal(nodes, p, p, [r]);
    TotalOne(r);
  }

  lemma NoNodeHas(nodes: seq<Range>, p: nat, low: nat)
    requires Canon(nodes) && p <= |nodes| && (forall i :: 0 <= i < p ==> nodes[i].high < low) && (p < |nodes| ==> low < nodes[p].low)
    ensures !Has(nodes, low) && forall i :: p <= i < |nodes| ==> low < nodes[i].low
  {
  }

  lemma AtEnd(nodes: seq<Range>, r: Range)
    requires Canon(nodes) && Past(nodes, r.low) && r.low <= r.high
    ensures Canon(nodes + [r]) && Total(nodes + [r]) == Total(nodes) + r.Size()
  {
    TotalConcat(nodes, [r]);
    TotalOne(r);
  }

  /** All nodes end well before `low`. */
  ghost predicate Past(nodes: seq<Range>, low: nat) {
    forall i :: 0 <= i < |nodes| ==> nodes[i].high + 1 < low
  }

  lemma PastFree(nodes: seq<Range>, low: nat)
    requires Past(nodes, low)
    ensures !Has(nodes, low)
  {
  }

  // ---------------------------------------------------------------- from the bitmap

  method FindNextZeroBit(bitmap: seq<bool>, size: nat, offset: nat) returns (next: nat)
    requires size <= |bitmap| && offset <= size
    ensures offset <= next <= size && (forall b :: offset <= b < next ==> bitmap[b]) && (next < size ==> !bitmap[next])
  {
    next := offset;
    while next < size && bitmap[next]
      invariant offset <= next <= size && forall b :: offset <= b < next ==> bitmap[b]
    {
      next := next + 1;
    }
  }

  method FindNextBit(bitmap: seq<bool>, size: nat, offset: nat) returns (next: nat)
    requires size <= |bitmap| && offset <= size
    ensures offset <= next <= size && (forall b :: offset <= b < next ==> !bitmap[b]) && (next < size ==> bitmap[next])
  {
    next := offset;
    while next < size && !bitmap[next]
      invariant offset <= next <= size && forall b :: offset <= b < next ==> !bitmap[b]
    {
      next := next + 1;
    }
  }

  /** The list has exactly the clear bits between `lo` and `hi`. */
  ghost predicate Clear(list: FreeRanges, bitmap: seq<bool>, lo: nat, hi: nat)
    requires hi <= |bitmap|
  {
    list.Valid() && forall b :: Has(list.nodes, b) <==> lo <= b < hi && !bitmap[b]
  }

  /** The search stands at `pos`: before it everything is in the list, and no run goes on across it. */
  ghost predicate Reached(list: FreeRanges, bitmap: seq<bool>, lo: nat, pos: nat, hi: nat)
    requires hi <= |bitmap|
  {
    && lo <= pos <= hi && Clear(list, bitmap, lo, pos)
    && (forall i :: 0 <= i < |list.nodes| ==> list.nodes[i].high < pos)
    && (lo < pos < hi ==> bitmap[pos])
  }

  lemma ReachedNone(bitmap: seq<bool>, lo: nat, hi: nat)
    requires lo <= hi <= |bitmap|
    ensures Reached(EMPTY, bitmap, lo, lo, hi)
  {
  }

  /** Between what is in the list and the next run of clear bits lies a set bit. */
  lemma ReachedGap(list: FreeRanges, bitmap: seq<bool>, lo: nat, pos: nat, hi: nat, low: nat)
    requires hi <= |bitmap| && Reached(list, bitmap, lo, pos, hi) && pos <= low < hi && !bitmap[low]
    ensures Past(list.nodes, low)
  {
    if lo == pos && list.nodes != [] { HasLow(list.nodes, 0); }
  }

  lemma ReachedNext(list: FreeRanges, list': FreeRanges, bitmap: seq<bool>, lo: nat, pos: nat, hi: nat, low: nat, next: nat)
    requires hi <= |bitmap| && Reached(list, bitmap, lo, pos, hi) && pos <= low < next <= hi
    requires (forall b :: pos <= b < low ==> bitmap[b]) && (forall b :: low <= b < next ==> !bitmap[b]) && (next < hi ==> bitmap[next])
    requires list'.Valid() && list'.nodes == list.nodes + [Range(low, next - 1)]
    ensures Reached(list', bitmap, lo, next, hi)
  {
    forall b ensures Has(list'.nodes, b) <==> lo <= b < next && !bitmap[b] {
      HasConcat(list.nodes, [Range(low, next - 1)], b);
      OneHas(Range(low, next - 1), b);
    }
  }

  lemma ReachedEnd(list: FreeRanges, bitmap: seq<bool>, lo: nat, pos: nat, hi: nat)
    requires hi <= |bitmap| && Reached(list, bitmap, lo, pos, hi) && forall b :: pos <= b < hi ==> bitmap[b]
    ensures Clear(list, bitmap, lo, hi)
  {
  }

  /** Walks the shares of all lists in one sweep and inserts each run of clear bits. */
  method BuildBlocknodeMap(bitmap: seq<bool>, shares: Shares, lists: array<FreeRanges>)
    requires shares.Valid(|bitmap|) && lists.Length == |shares.start| && forall i :: 0 <= i < lists.Length ==> lists[i] == EMPTY
    modifies lists
    ensures forall i :: 0 <= i < lists.Length ==> Clear(lists[i], bitmap, shares.start[i], shares.stop[i])
  {
    hide Clear, Reached, Past, Has, Canon, Total;
    var cpu := 0;
    var start, end := shares.start[0], shares.stop[0];
    ReachedNone(bitmap, start, end);
    while true
      invariant 0 <= cpu < lists.Length && start <= end == shares.stop[cpu]
      invariant forall i :: 0 <= i < cpu ==> Clear(lists[i], bitmap, shares.start[i], shares.stop[i])
      invariant Reached(lists[cpu], bitmap, shares.start[cpu], start, end)
      invariant forall i :: cpu < i < lists.Length ==> lists[i] == EMPTY
      decreases lists.Length - cpu, end - start
    {
      var next := FindNextZeroBit(bitmap, end, start);
      if next == end { ReachedEnd(lists[cpu], bitmap, shares.start[cpu], start, end); }
      if next == |bitmap| { break; }
      if next == end {
        if cpu == lists.Length - 1 { break; }
        cpu := cpu + 1;
        start, end := shares.start[cpu], shares.stop[cpu];
        ReachedNone(bitmap, start, end);
        continue;
      }
      var low := next;
      next := FindNextBit(bitmap, end, next);
      ReachedGap(lists[cpu], bitmap, shares.start[cpu], start, end, low);
      ReachedValid(lists[cpu], bitmap, shares.start[cpu], start, end);
      PastFree(lists[cpu].nodes, low);
      var ok, list := Insert(lists[cpu], Range(low, next - 1));
      ReachedNext(lists[cpu], list, bitmap, shares.start[cpu], start, end, low, next);
      lists[cpu] := list;
      start := next;
      if next == end { ReachedEnd(lists[cpu], bitmap, shares.start[cpu], start, end); }
      if next == |bitmap| { break; }
      if next == end {
        if cpu == lists.Length - 1 { break; }
        cpu := cpu + 1;
        start, end := shares.start[cpu], shares.stop[cpu];
        ReachedNone(bitmap, start, end);
      }
    }
  }

  lemma ReachedValid(list: FreeRanges, bitmap: seq<bool>, lo: nat, pos: nat, hi: nat)
    requires hi <= |bitmap| && Reached(list, bitmap, lo, pos, hi)
    ensures list.Valid()
  {
  }

  /** A range of the rebuilt list is a run of clear bits that goes on neither to the left nor to the right. */
  lemma MaximalRuns(list: FreeRanges, bitmap: seq<bool>, lo: nat, hi: nat, i: nat)
    requires hi <= |bitmap| && Clear(list, bitmap, lo, hi) && i < |list.nodes|
    ensures var r := list.nodes[i];
            lo <= r.low <= r.high < hi && (forall b :: r.low <= b <= r.high ==> !bitmap[b]) &&
            (r.low > lo ==> bitmap[r.low - 1]) && (r.high + 1 < hi ==> bitmap[r.high + 1])
  {
    var r := list.nodes[i];
    HasLow(list.nodes, i);
    HasAt(list.nodes, i, r.high);
    forall b | r.low <= b <= r.high ensures !bitmap[b] { HasAt(list.nodes, i, b); }
    NotTouching(list.nodes, i);
  }

  lemma NotTouching(rs: seq<Range>, i: nat)
    requires Canon(rs) && i < |rs|
    ensures !Has(rs, rs[i].low - 1) && !Has(rs, rs[i].high + 1)
  {
  }

  // ---------------------------------------------------------------- the log of ranges

  /** A place in the log: the page in the chain, and how many entries of it come before. */
  datatype LogPos = LogPos(page: nat, slot: nat)
  {
    /** No room for another entry on this page. */
    predicate IsLast() { slot >= PER_PAGE }
  }

  /** The place of the `k`-th entry. */
  function Place(k: nat): LogPos { LogPos(k / PER_PAGE, k % PER_PAGE) }

  /** Where the tail stands after `n` entries: it moves to a new page only with the next entry. */
  function TailOf(n: nat): LogPos {
    if n == 0 then LogPos(0, 0) else LogPos((n - 1) / PER_PAGE, (n - 1) % PER_PAGE + 1)
  }

  lemma TailThen(n: nat)
    ensures (if TailOf(n).IsLast() then LogPos(TailOf(n).page + 1, 0) else TailOf(n)) == Place(n)
    ensures TailOf(n + 1) == LogPos(Place(n).page, Place(n).slot + 1)
    ensures Place(n).slot < PER_PAGE
  {
  }

  lemma TailInjective(m: nat, n: nat)
    ensures TailOf(m) == TailOf(n) ==> m == n
  {
  }

  /** So many entries fit on the pages counted for at least as many nodes. */
  lemma PagesSuffice(k: nat, nodes: nat, pages: nat)
    requires pages == nodes / PER_PAGE + (if nodes % PER_PAGE != 0 then 1 else 0) && k < nodes
    ensures Place(k).page < pages
  {
  }

  ghost predicate Logged(log: array2<Range>, entries: seq<Range>)
    reads log
  {
    log.Length1 == PER_PAGE && forall k: nat | k < |entries| ::
      Place(k).page < log.Length0 && log[Place(k).page, k % PER_PAGE] == entries[k]
  }

  lemma PlacesDiffer(k: nat, m: nat)
    requires k != m
    ensures Place(k) != Place(m)
  {
  }

  method AppendRangeNodeEntry(log: array2<Range>, r: Range, tail: LogPos, ghost entries: seq<Range>) returns (at: LogPos)
    requires Logged(log, entries) && tail == TailOf(|entries|) && Place(|entries|).page < log.Length0
    modifies log
    ensures Logged(log, entries + [r]) && LogPos(at.page, at.slot + 1) == TailOf(|entries + [r]|)
  {
    TailThen(|entries|);
    at := if tail.IsLast() then LogPos(tail.page + 1, 0) else tail;
    log[at.page, at.slot] := r;
    forall k: nat | k < |entries| ensures log[Place(k).page, k % PER_PAGE] == entries[k] {
      PlacesDiffer(k, |entries|);
    }
  }

  /** Saves one list after what is in the log, in increasing order. */
  method SaveRangeNodes(log: array2<Range>, nodes: seq<Range>, tail: LogPos, ghost entries: seq<Range>) returns (end: LogPos)
    requires Logged(log, entries) && tail == TailOf(|entries|)
    requires nodes != [] ==> Place(|entries| + |nodes| - 1).page < log.Length0
    modifies log
    ensures Logged(log, entries + nodes) && end == TailOf(|entries| + |nodes|)
  {
    end := tail;
    var i := 0;
    assert entries + nodes[..0] == entries;
    while i < |nodes|
      invariant 0 <= i <= |nodes| && Logged(log, entries + nodes[..i]) && end == TailOf(|entries| + i)
    {
      ghost var done := entries + nodes[..i];
      assert done + [nodes[i]] == entries + nodes[..i + 1];
      var at := AppendRangeNodeEntry(log, nodes[i], end, done);
      end := LogPos(at.page, at.slot + 1);
      i := i + 1;
    }
    assert nodes[..i] == nodes;
  }

  /** All lists, one after the other. */
  function AllNodes(lists: seq<seq<Range>>): seq<Range> {
    if lists == [] then [] else AllNodes(lists[..|lists| - 1]) + lists[|lists| - 1]
  }

  function NodeCount(lists: seq<seq<Range>>): nat {
    if lists == [] then 0 else NodeCount(lists[..|lists| - 1]) + |lists[|lists| - 1]|
  }

  lemma {:induction false} CountIsLength(lists: seq<seq<Range>>)
    ensures |AllNodes(lists)| == NodeCount(lists)
  {
    if lists != [] { CountIsLength(lists[..|lists| - 1]); }
  }

  lemma {:induction false} CountPrefix(lists: seq<seq<Range>>, i: nat)
    requires i <= |lists|
    ensures NodeCount(lists[..i]) <= NodeCount(lists)
  {
    if i < |lists| {
      CountPrefix(lists[..|lists| - 1], i);
      assert lists[..|lists| - 1][..i] == lists[..i];
    } else {
      assert lists[..i] == lists;
    }
  }

  /** Saves all lists to a log whose pages were counted for at least as many nodes. */
  method SaveLists(log: array2<Range>, lists: seq<seq<Range>>, ghost counted: nat) returns (tail: LogPos)
    requires log.Length1 == PER_PAGE && NodeCount(lists) <= counted
    requires log.Length0 == counted / PER_PAGE + if counted % PER_PAGE != 0 then 1 else 0
    modifies log
    ensures Logged(log, AllNodes(lists)) && tail == TailOf(|AllNodes(lists)|)
  {
    tail := LogPos(0, 0);
    var i := 0;
    while i < |lists|
      invariant 0 <= i <= |lists| && Logged(log, AllNodes(lists[..i])) && tail == TailOf(|AllNodes(lists[..i])|)
    {
      ghost var done := AllNodes(lists[..i]);
      assert lists[..i + 1][..i] == lists[..i];
      CountIsLength(lists[..i + 1]);
      CountPrefix(lists, i + 1);
      if lists[i] != [] { PagesSuffice(|done| + |lists[i]| - 1, counted, log.Length0); }
      tail := SaveRangeNodes(log, lists[i], tail, done);
      i := i + 1;
    }
    assert lists[..i] == lists;
  }

  /** The lists whose ranges belong to their own CPU's share of the blocks. */
  ghost predicate InShares(lists: seq<seq<Range>>, per: nat) {
    per > 0 && forall c, i | 0 <= c < |lists| && 0 <= i < |lists[c]| :: lists[c][i].low / per == c
  }

  /** The entries that go to list `c`. */
  function Of(entries: seq<Range>, per: nat, c: nat): seq<Range>
    requires per > 0
  {
    if entries == [] then []
    else
      var r := entries[|entries| - 1];
      Of(entries[..|entries| - 1], per, c) + if r.low / per == c then [r] else []
  }

  lemma {:induction false} OfConcat(a: seq<Range>, b: seq<Range>, per: nat, c: nat)
    requires per > 0
    ensures Of(a + b, per, c) == Of(a, per, c) + Of(b, per, c)
  {
    if b == [] {
      assert a + b == a;
    } else {
      assert (a + b)[..|a + b| - 1] == a + b[..|b| - 1];
      OfConcat(a, b[..|b| - 1], per, c);
    }
  }

  lemma {:induction false} OfOne(nodes: seq<Range>, per: nat, c: nat, own: nat)
    requires per > 0 && forall i :: 0 <= i < |nodes| ==> nodes[i].low / per == own
    ensures Of(nodes, per, c) == if c == own then nodes else []
  {
    if nodes != [] { OfOne(nodes[..|nodes| - 1], per, c, own); }
  }

  /** Sorting the saved entries by their CPU gives the lists back. */
  lemma {:induction false} OfAll(lists: seq<seq<Range>>, per: nat, c: nat)
    requires InShares(lists, per)
    ensures Of(AllNodes(lists), per, c) == if c < |lists| then lists[c] else []
  {
    if lists != [] {
      var n := |lists| - 1;
      OfAll(lists[..n], per, c);
      OfOne(lists[n], per, c, n);
      OfConcat(AllNodes(lists[..n]), lists[n], per, c);
    }
  }

  lemma OfPrefix(entries: seq<Range>, k: nat, per: nat, c: nat)
    requires per > 0 && k < |entries| && entries[k].low / per == c && Canon(Of(entries, per, c))
    ensures Past(Of(entries[..k], per, c), entries[k].low) && entries[k].low <= entries[k].high
    ensures Of(entries[..k + 1], per, c) == Of(entries[..k], per, c) + [entries[k]]
  {
    assert entries == entries[..k + 1] + entries[k + 1..];
    assert entries[..k + 1][..k] == entries[..k];
    OfConcat(entries[..k + 1], entries[k + 1..], per, c);
    var was, all := Of(entries[..k], per, c), Of(entries, per, c);
    assert all[..|was|] == was && all[|was|] == entries[k];
  }

  lemma OfOther(entries: seq<Range>, k: nat, per: nat, c: nat)
    requires per > 0 && k < |entries| && entries[k].low / per != c
    ensures Of(entries[..k + 1], per, c) == Of(entries[..k], per, c)
  {
    assert entries[..k + 1][..k] == entries[..k];
  }

  /** Reads the log up to its tail and inserts every range into the list of its CPU. */
  method LoadBlocknodeMappings(log: array2<Range>, tail: LogPos, per: nat, lists: array<FreeRanges>, ghost saved: seq<seq<Range>>)
    requires Logged(log, AllNodes(saved)) && tail == TailOf(|AllNodes(saved)|)
    requires InShares(saved, per) && (forall c :: 0 <= c < |saved| ==> Canon(saved[c]))
    requires lists.Length == |saved| && forall c :: 0 <= c < lists.Length ==> lists[c] == EMPTY
    modifies lists
    ensures forall c :: 0 <= c < lists.Length ==> lists[c].Valid() && lists[c].nodes == saved[c]
  {
    hide Of, Canon, Total;
    ghost var entries := AllNodes(saved);
    forall c: nat | c < |saved| ensures Of(entries, per, c) == saved[c] { OfAll(saved, per, c); }
    EmptyLists(per);
    var curr := LogPos(0, 0);
    ghost var k: nat := 0;
    while curr != tail
      invariant k <= |entries| && curr == TailOf(k)
      invariant forall c :: 0 <= c < lists.Length ==> lists[c].Valid() && lists[c].nodes == Of(entries[..k], per, c)
      decreases |entries| - k
    {
      TailInjective(k, |entries|);
      TailThen(k);
      if curr.IsLast() { curr := LogPos(curr.page + 1, 0); }
      var r := log[curr.page, curr.slot];
      var cpu := r.low / per;
      OwnCpu(saved, per, k);
      OfPrefix(entries, k, per, cpu);
      PastFree(lists[cpu].nodes, r.low);
      var ok, list := Insert(lists[cpu], r);
      forall c: nat | c < lists.Length && c != cpu ensures Of(entries[..k + 1], per, c) == Of(entries[..k], per, c) {
        OfOther(entries, k, per, c);
      }
      lists[cpu] := list;
      curr := LogPos(curr.page, curr.slot + 1);
      k := k + 1;
    }
    TailInjective(k, |entries|);
    assert entries[..k] == entries;
  }

  lemma EmptyLists(per: nat)
    requires per > 0
    ensures EMPTY.Valid() && forall c: nat, entries: seq<Range> :: Of(entries[..0], per, c) == []
  {
  }

  lemma {:induction false} OwnCpu(saved: seq<seq<Range>>, per: nat, k: nat)
    requires InShares(saved, per) && k < |AllNodes(saved)|
    ensures AllNodes(saved)[k].low / per < |saved|
  {
    var n := |saved| - 1;
    if k < |AllNodes(saved[..n])| { OwnCpu(saved[..n], per, k); }
  }
}
