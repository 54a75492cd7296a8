/**
 A clean unmount and the mount after it: log pages are taken out of the free lists, the lists are saved to
 them, loaded again, and the pages are freed.
 */
module MountCycle {
  import opened Common
  import opened Arith
  import opened Ranges
  import opened RangeEdits
  import opened MountLists

  // ---------------------------------------------------------------- one list

  /** Takes up to `num` blocks off the front of a list. */
  method TakeHead(list: FreeRanges, num: nat) returns (list': FreeRanges, start: nat, got: nat)
    requires list.Valid() && list.nodes != [] && num > 0
    ensures 0 < got <= num && list'.Valid() && Taken(list.nodes, list'.nodes, start, start + got - 1)
    ensures |list'.nodes| <= |list.nodes| && start == list.nodes[0].low && got == Min(num, list.nodes[0].Size())
  {
    hide Canon, Total, Taken, Leaves, Splice;
    var r := list.nodes[0];
    CanonAt(list.nodes, 0);
    start, got := r.low, if num >= r.Size() then r.Size() else num;
    var mid := if got == r.Size() then [] else [Range(start + got, r.high)];
    if got == r.Size() { LeavesNone(r); } else { LeavesHigh(r, start + got - 1); }
    TakeOut(list.nodes, 0, mid, start, start + got - 1);
    FrontSplice(list.nodes, mid);
    TakenMeans(list.nodes, Splice(list.nodes, 0, 1, mid), start, start + got - 1);
    list' := FreeRanges(mid + list.nodes[1..], list.numFree - got, list.numNodes - 1 + |mid|);
  }

  lemma FrontSplice(nodes: seq<Range>, mid: seq<Range>)
    requires nodes != []
    ensures Splice(nodes, 0, 1, mid) == mid + nodes[1..]
  {
  }

  lemma TakenMeans(nodes: seq<Range>, nodes': seq<Range>, low: int, high: int)
    requires Taken(nodes, nodes', low, high)
    ensures Canon(nodes') && Total(nodes') == Total(nodes) - (high - low + 1)
  {
  }

  /** Returns blocks to a list, joining the nodes they touch. */
  method Return(list: FreeRanges, low: nat, high: nat) returns (list': FreeRanges)
    requires list.Valid() && low <= high && Avoids(list.nodes, low, high)
    ensures list'.Valid() && Joined(list.nodes, list'.nodes, low, high)
  {
    hide Joined, Canon, Total, Splice, Has, Avoids;
    var nodes, p := list.nodes, 0;
    while p < |nodes| && nodes[p].high < low
      invariant 0 <= p <= |nodes| && (p > 0 ==> nodes[p - 1].high < low)
    {
      p := p + 1;
    }
    if p < |nodes| { FitsBefore(nodes, p, low, high); }
    var left, right := p > 0 && nodes[p - 1].high + 1 == low, p < |nodes| && high + 1 == nodes[p].low;
    var nodes' := if left && right then Splice(nodes, p - 1, p + 1, [Range(nodes[p - 1].low, nodes[p].high)])
                  else if left then Splice(nodes, p - 1, p, [Range(nodes[p - 1].low, high)])
                  else if right then Splice(nodes, p, p + 1, [Range(low, nodes[p].high)])
                  else Splice(nodes, p, p, [Range(low, high)]);
    if left && right { JoinBoth(nodes, p, low, high); }
    else if left { JoinLeft(nodes, p, low, high); }
    else if right { JoinRight(nodes, p, low, high); }
    else { JoinNone(nodes, p, low, high); }
    JoinedMeans(nodes, nodes', low, high);
    list' := FreeRanges(nodes', list.numFree + (high - low + 1), |nodes'|);
  }

  lemma FitsBefore(nodes: seq<Range>, p: nat, low: nat, high: nat)
    requires Canon(nodes) && p < |nodes| && low <= nodes[p].high && low <= high && Avoids(nodes, low, high)
    ensures high < nodes[p].low
  {
    assert !Has(nodes, low);
    if nodes[p].low <= low { HasAt(nodes, p, low); }
    NextAbove(nodes, p, low, high);
  }

  lemma JoinedMeans(nodes: seq<Range>, nodes': seq<Range>, low: nat, high: nat)
    requires Joined(nodes, nodes', low, high)
    ensures Canon(nodes') && Total(nodes') == Total(nodes) + (high - low + 1)
  {
  }

  // ---------------------------------------------------------------- all lists

  /** Block `b` belongs to the share of list `c`; the first block of a share is never dealt out. */
  predicate Home(b: int, c: nat, per: nat)
    requires per > 0
  {
    b >= 0 && b / per == c && b % per != 0
  }

  /** Every list has blocks of its own share only. */
  ghost predicate AtHome(lists: seq<FreeRanges>, per: nat)
    requires per > 0
  {
    forall c: nat | c < |lists| :: HasOwn(lists[c].nodes, c, per)
  }

  ghost predicate HasOwn(nodes: seq<Range>, c: nat, per: nat)
    requires per > 0
  {
    forall b: int | Has(nodes, b) :: Home(b, c, per)
  }

  ghost predicate AllValid(lists: seq<FreeRanges>) {
    forall c :: 0 <= c < |lists| ==> lists[c].Valid()
  }

  function Nodes(lists: seq<FreeRanges>): seq<seq<Range>> {
    seq(|lists|, c requires 0 <= c < |lists| => lists[c].nodes)
  }

  /** `lists'` are the lists without `pages`. */
  ghost predicate Without(lists: seq<FreeRanges>, lists': seq<FreeRanges>, pages: seq<nat>) {
    && |lists| == |lists'|
    && forall c: nat | c < |lists| :: Lacks(lists[c].nodes, lists'[c].nodes, pages)
  }

  ghost predicate Lacks(nodes: seq<Range>, nodes': seq<Range>, pages: seq<nat>) {
    forall b: int :: Has(nodes', b) <==> Has(nodes, b) && b !in pages
  }

  ghost predicate Owned(lists: seq<FreeRanges>, b: nat) {
    exists c :: 0 <= c < |lists| && Has(lists[c].nodes, b)
  }

  /** Different blocks, each out of one of the lists. */
  ghost predicate PagesOf(lists: seq<FreeRanges>, pages: seq<nat>) {
    && (forall i, j :: 0 <= i < j < |pages| ==> pages[i] != pages[j])
    && (forall b <- pages :: Owned(lists, b))
  }

  /** The blocks of a run, in order. */
  function RunOf(start: nat, n: nat): (r: seq<nat>)
    ensures |r| == n && (forall b: int :: b in r <==> start <= b < start + n)
  {
    if n == 0 then [] else RunOf(start, n - 1) + [start + n - 1]
  }

  lemma RunDistinct(start: nat, n: nat)
    ensures forall i, j :: 0 <= i < j < n ==> RunOf(start, n)[i] != RunOf(start, n)[j]
  {
    RunAt(start, n);
  }

  lemma {:induction false} RunAt(start: nat, n: nat)
    ensures forall i :: 0 <= i < n ==> RunOf(start, n)[i] == start + i
  {
    if n > 0 { RunAt(start, n - 1); }
  }

  /** One more run is taken out of list `cpu`. */
  lemma WithoutNext(lists: seq<FreeRanges>, lists': seq<FreeRanges>, per: nat, cpu: nat, list: FreeRanges, pages: seq<nat>, start: nat, got: nat)
    requires per > 0 && AtHome(lists, per) && Without(lists, lists', pages) && PagesOf(lists, pages) && cpu < |lists| && got > 0
    requires Taken(lists'[cpu].nodes, list.nodes, start, start + got - 1)
    ensures Without(lists, lists'[cpu := list], pages + RunOf(start, got)) && PagesOf(lists, pages + RunOf(start, got))
  {
    hide Home, Canon, Total;
    var run := RunOf(start, got);
    assert Lacks(lists[cpu].nodes, lists'[cpu].nodes, pages);
    forall b <- run ensures Has(lists'[cpu].nodes, b) && Has(lists[cpu].nodes, b) && b !in pages {
      assert Covers(lists'[cpu].nodes, start, start + got - 1);
    }
    forall c: nat | c < |lists| ensures Lacks(lists[c].nodes, lists'[cpu := list][c].nodes, pages + run) {
      assert Lacks(lists[c].nodes, lists'[c].nodes, pages) && HasOwn(lists[c].nodes, c, per) && HasOwn(lists[cpu].nodes, cpu, per);
      forall b: int ensures Has(lists'[cpu := list][c].nodes, b) <==> Has(lists[c].nodes, b) && b !in pages + run {
        assert b in pages + run <==> b in pages || b in run;
        if c != cpu && Has(lists[c].nodes, b) && b in run { OneHome(b, c, cpu, per); }
      }
    }
    RunDistinct(start, got);
    DistinctConcat(pages, run);
    assert forall b: nat | b in run :: Owned(lists, b);
  }

  lemma DistinctConcat(a: seq<nat>, b: seq<nat>)
    requires (forall i, j :: 0 <= i < j < |a| ==> a[i] != a[j]) && (forall i, j :: 0 <= i < j < |b| ==> b[i] != b[j])
    requires forall x <- b :: x !in a
    ensures forall i, j :: 0 <= i < j < |a + b| ==> (a + b)[i] != (a + b)[j]
  {
    forall i, j | 0 <= i < j < |a + b| ensures (a + b)[i] != (a + b)[j] {
      if i < |a| <= j { assert b[j - |a|] in b && a[i] in a; }
    }
  }

  lemma OneHome(b: int, c: nat, d: nat, per: nat)
    requires per > 0 && Home(b, c, per) && Home(b, d, per)
    ensures c == d
  {
  }

  lemma {:induction false} CountUpdate(all: seq<seq<Range>>, c: nat, nodes: seq<Range>)
    requires c < |all|
    ensures NodeCount(all[c := nodes]) == NodeCount(all) - |all[c]| + |nodes|
  {
    var n := |all| - 1;
    if c == n {
      assert all[c := nodes][..n] == all[..n];
    } else {
      assert all[c := nodes][..n] == all[..n][c := nodes];
      CountUpdate(all[..n], c, nodes);
    }
  }

  lemma NodesUpdate(lists: seq<FreeRanges>, c: nat, list: FreeRanges)
    requires c < |lists|
    ensures Nodes(lists[c := list]) == Nodes(lists)[c := list.nodes]
  {
  }

  lemma NothingTaken(lists: seq<FreeRanges>)
    ensures Without(lists, lists, []) && PagesOf(lists, [])
  {
  }

  /** So many requests have been served. */
  ghost predicate Shrunk(lists: seq<FreeRanges>, lists': seq<FreeRanges>, served: nat) {
    exists pages: seq<nat> :: Without(lists, lists', pages) && PagesOf(lists, pages) && served <= |pages|
  }

  /** Request `k` fails: no CPU serves it, or one whose list is empty. */
  predicate Fails(lists: seq<FreeRanges>, choose: seq<nat>, k: nat) {
    k >= |choose| || choose[k] >= |lists| || lists[choose[k]].nodes == []
  }

  /**
   Takes `num` log pages, run by run, each off the front of the list of some CPU, until there are enough or an
   allocation fails.  `choose` says which CPU serves each request; no allocation adds a node.
   */
  method AllocateLogPages(lists: array<FreeRanges>, num: nat, per: nat, choose: seq<nat>) returns (pages: seq<nat>, ghost served: nat)
    requires per > 0 && AllValid(lists[..]) && AtHome(lists[..], per)
    modifies lists
    ensures AllValid(lists[..]) && Without(old(lists[..]), lists[..], pages) && PagesOf(old(lists[..]), pages)
    ensures |pages| <= num && NodeCount(Nodes(lists[..])) <= NodeCount(Nodes(old(lists[..])))
    ensures served <= |pages| && (|pages| < num ==> Fails(lists[..], choose, served))
  {
    hide AtHome, Without, PagesOf, Taken, NodeCount, Canon, Total;
    ghost var before := lists[..];
    pages, served := [], 0;
    var k := 0;
    NothingTaken(before);
    while |pages| < num
      invariant k == served <= |pages|
      invariant |pages| <= num && AllValid(lists[..]) && Without(before, lists[..], pages) && PagesOf(before, pages)
      invariant NodeCount(Nodes(lists[..])) <= NodeCount(Nodes(before))
      decreases num - |pages|
    {
      if k >= |choose| || choose[k] >= lists.Length || lists[choose[k]].nodes == [] { break; }
      var cpu := choose[k];
      ghost var was := lists[..];
      var list, start, got := TakeHead(lists[cpu], num - |pages|);
      WithoutNext(before, was, per, cpu, list, pages, start, got);
      CountUpdate(Nodes(was), cpu, list.nodes);
      NodesUpdate(was, cpu, list);
      lists[cpu] := list;
      assert lists[..] == was[cpu := list];
      pages := pages + RunOf(start, got);
      k, served := k + 1, k + 1;
    }
  }

  // ---------------------------------------------------------------- freeing the log

  /** `lists'` are the lists with `pages` back in the lists of their shares. */
  ghost predicate Back(lists: seq<FreeRanges>, lists': seq<FreeRanges>, pages: seq<nat>, per: nat)
    requires per > 0
  {
    && |lists| == |lists'|
    && forall c: nat | c < |lists| :: Regains(lists[c].nodes, lists'[c].nodes, pages, c, per)
  }

  ghost predicate Regains(nodes: seq<Range>, nodes': seq<Range>, pages: seq<nat>, c: nat, per: nat)
    requires per > 0
  {
    forall b: int :: Has(nodes', b) <==> Has(nodes, b) || (b in pages && Home(b, c, per))
  }

  /** Different blocks, at home in one of `n` lists and in none of them. */
  ghost predicate Missing(lists: seq<FreeRanges>, pages: seq<nat>, per: nat)
    requires per > 0
  {
    && (forall i, j :: 0 <= i < j < |pages| ==> pages[i] != pages[j])
    && (forall b <- pages :: b / per < |lists| && Home(b, b / per, per) && !Owned(lists, b))
  }

  /** Blocks of the pages that follow each other belong to one share. */
  lemma NextHome(b: nat, per: nat)
    requires per > 0 && Home(b, b / per, per) && Home(b + 1, (b + 1) / per, per)
    ensures (b + 1) / per == b / per
  {
    DivBounds(b, per);
    var q := b / per;
    assert (q + 1) * per == q * per + per;
    if b + 1 == (q + 1) * per { MultipleMod(q + 1, per); }
    Multiples(b + 1, q, per);
  }

  /** One run goes back to the list of its share. */
  lemma BackNext(lists: seq<FreeRanges>, lists': seq<FreeRanges>, pages: seq<nat>, run: seq<nat>, per: nat, start: nat, n: nat, list: FreeRanges)
    requires per > 0 && Back(lists, lists', pages, per) && n > 0 && run == RunOf(start, n) && start / per < |lists|
    requires forall b :: start <= b < start + n ==> Home(b, start / per, per)
    requires Joined(lists'[start / per].nodes, list.nodes, start, start + n - 1)
    ensures Back(lists, lists'[start / per := list], pages + run, per)
  {
    hide Canon, Total, Home;
    var own := start / per;
    assert Added(lists'[own].nodes, list.nodes, start, start + n - 1);
    forall c: nat | c < |lists| ensures Regains(lists[c].nodes, lists'[own := list][c].nodes, pages + run, c, per) {
      assert Regains(lists[c].nodes, lists'[c].nodes, pages, c, per);
      forall b: int ensures Has(lists'[own := list][c].nodes, b) <==> Has(lists[c].nodes, b) || (b in pages + run && Home(b, c, per)) {
        assert b in pages + run <==> b in pages || b in run;
        if c != own && b in run && Home(b, c, per) { OneHome(b, c, own, per); }
      }
    }
  }

  lemma EarlierDiffer(pages: seq<nat>, j: nat, k: nat)
    requires j <= k < |pages| && forall i, j :: 0 <= i < j < |pages| ==> pages[i] != pages[j]
    ensures pages[k] !in pages[..j]
  {
  }

  /** A run that is missing can be returned. */
  lemma RunAvoids(lists: seq<FreeRanges>, lists': seq<FreeRanges>, pages: seq<nat>, i: nat, per: nat, start: nat, n: nat)
    requires per > 0 && Missing(lists, pages, per) && n <= i <= |pages| && n > 0 && pages[i - n..i] == RunOf(start, n)
    requires Back(lists, lists', pages[..i - n], per)
    requires forall b :: start <= b < start + n ==> Home(b, start / per, per)
    ensures start / per < |lists| && Avoids(lists'[start / per].nodes, start, start + n - 1)
  {
    hide Home;
    RunAt(start, n);
    assert pages[i - n] == RunOf(start, n)[0] == start;
    assert start in pages;
    assert Regains(lists[start / per].nodes, lists'[start / per].nodes, pages[..i - n], start / per, per);
    forall b | start <= b <= start + n - 1 ensures !Has(lists'[start / per].nodes, b) {
      var k := b - start;
      assert pages[i - n..i][k] == pages[i - n + k] == b && b in pages;
      assert !Owned(lists, b);
      EarlierDiffer(pages, i - n, i - n + k);
    }
  }

  method FreeRun(lists: array<FreeRanges>, per: nat, start: nat, n: nat)
    requires per > 0 && n > 0 && AllValid(lists[..]) && start / per < lists.Length
    requires Avoids(lists[start / per].nodes, start, start + n - 1)
    modifies lists
    ensures AllValid(lists[..])
    ensures exists list :: lists[..] == old(lists[..])[start / per := list] && Joined(old(lists[start / per].nodes), list.nodes, start, start + n - 1)
  {
    hide Joined, Canon, Total, Avoids;
    var cpu := start / per;
    var list := Return(lists[cpu], start, start + n - 1);
    lists[cpu] := list;
    assert lists[..] == old(lists[..])[cpu := list];
  }

  lemma HomeNext(b: nat, c: nat, per: nat)
    requires per > 0 && Home(b, c, per) && Home(b + 1, (b + 1) / per, per)
    ensures Home(b + 1, c, per)
  {
    NextHome(b, per);
  }

  /** The run being gathered: pages that follow each other, in one share, not yet freed. */
  ghost predicate Gathered(lists: seq<FreeRanges>, now: seq<FreeRanges>, pages: seq<nat>, i: nat, per: nat, start: nat, n: nat)
    requires per > 0
  {
    && n <= i <= |pages| && (start == 0 <==> n == 0) && (n == 0 ==> i == 0)
    && pages[i - n..i] == RunOf(start, n) && (forall b :: start <= b < start + n ==> Home(b, start / per, per))
    && Back(lists, now, pages[..i - n], per)
  }

  lemma GatherStart(lists: seq<FreeRanges>, pages: seq<nat>, per: nat)
    requires per > 0
    ensures Gathered(lists, lists, pages, 0, per, 0, 0)
  {
  }

  lemma PageHome(lists: seq<FreeRanges>, pages: seq<nat>, i: nat, per: nat)
    requires per > 0 && Missing(lists, pages, per) && i < |pages|
    ensures pages[i] > 0 && Home(pages[i], pages[i] / per, per) && pages[i] / per < |lists|
  {
    assert pages[i] in pages;
  }

  /** The next page goes on with the run. */
  lemma GatherMore(lists: seq<FreeRanges>, now: seq<FreeRanges>, pages: seq<nat>, i: nat, per: nat, start: nat, n: nat)
    requires per > 0 && Missing(lists, pages, per) && Gathered(lists, now, pages, i, per, start, n) && n > 0
    requires i < |pages| && pages[i] == start + n
    ensures Gathered(lists, now, pages, i + 1, per, start, n + 1)
  {
    hide Home, Back, Missing;
    PageHome(lists, pages, i, per);
    HomeNext(start + n - 1, start / per, per);
    assert pages[i + 1 - (n + 1)..i + 1] == pages[i - n..i] + [pages[i]];
  }

  /** Once the run is freed, the next page starts another. */
  lemma GatherNew(lists: seq<FreeRanges>, now: seq<FreeRanges>, pages: seq<nat>, i: nat, per: nat)
    requires per > 0 && Missing(lists, pages, per) && i < |pages| && Back(lists, now, pages[..i], per)
    ensures Gathered(lists, now, pages, i + 1, per, pages[i], 1)
  {
    PageHome(lists, pages, i, per);
    assert pages[i..i + 1] == [pages[i]] == RunOf(pages[i], 0) + [pages[i]];
  }

  /** Frees the pages of the log, runs of neighbouring pages together. */
  method FreeInodeLog(lists: array<FreeRanges>, pages: seq<nat>, per: nat)
    requires per > 0 && AllValid(lists[..]) && Missing(lists[..], pages, per)
    modifies lists
    ensures AllValid(lists[..]) && Back(old(lists[..]), lists[..], pages, per)
  {
    hide Missing, Back, Gathered, Home, Joined, Canon, Total, RunOf, Avoids;
    ghost var before := lists[..];
    var start, n, i := 0, 0, 0;
    GatherStart(before, pages, per);
    while i < |pages|
      invariant 0 <= i <= |pages| && AllValid(lists[..]) && Gathered(before, lists[..], pages, i, per, start, n)
    {
      PageHome(before, pages, i, per);
      GatheredMeans(before, lists[..], pages, i, per, start, n);
      if start == 0 {
        GatherNew(before, lists[..], pages, i, per);
        start, n := pages[i], 1;
      } else if pages[i] == start + n {
        GatherMore(before, lists[..], pages, i, per, start, n);
        n := n + 1;
      } else {
        FreeGathered(lists, pages, per, start, n, before, i);
        GatherNew(before, lists[..], pages, i, per);
        start, n := pages[i], 1;
      }
      i := i + 1;
    }
    GatheredMeans(before, lists[..], pages, i, per, start, n);
    if start != 0 { FreeGathered(lists, pages, per, start, n, before, i); }
    assert pages[..i] == pages;
  }

  lemma GatheredMeans(lists: seq<FreeRanges>, now: seq<FreeRanges>, pages: seq<nat>, i: nat, per: nat, start: nat, n: nat)
    requires per > 0 && Gathered(lists, now, pages, i, per, start, n)
    ensures (start == 0 <==> n == 0) && (n == 0 ==> i == 0 && Back(lists, now, pages[..i], per))
  {
  }

  method FreeGathered(lists: array<FreeRanges>, pages: seq<nat>, per: nat, start: nat, n: nat, ghost before: seq<FreeRanges>, ghost i: nat)
    requires per > 0 && n > 0 && AllValid(lists[..]) && Missing(before, pages, per) && Gathered(before, lists[..], pages, i, per, start, n)
    modifies lists
    ensures AllValid(lists[..]) && i <= |pages| && Back(before, lists[..], pages[..i], per)
  {
    hide Missing, Home, Joined, Canon, Total, RunOf, Avoids;
    ghost var was := lists[..];
    RunAvoids(before, was, pages, i, per, start, n);
    FreeRun(lists, per, start, n);
    ghost var list :| lists[..] == was[start / per := list] && Joined(was[start / per].nodes, list.nodes, start, start + n - 1);
    BackNext(before, was, pages[..i - n], RunOf(start, n), per, start, n, list);
    assert pages[..i - n] + pages[i - n..i] == pages[..i];
  }

  // ---------------------------------------------------------------- the whole cycle

  method CountNodes(lists: array<FreeRanges>) returns (n: nat)
    requires AllValid(lists[..])
    ensures n == NodeCount(Nodes(lists[..]))
  {
    n := 0;
    var i := 0;
    while i < lists.Length
      invariant 0 <= i <= lists.Length && n == NodeCount(Nodes(lists[..i]))
    {
      assert Nodes(lists[..i + 1])[..i] == Nodes(lists[..i]);
      n := n + lists[i].numNodes;
      i := i + 1;
    }
    assert lists[..i] == lists[..];
  }

  /**
   Unmount and mount again: count the nodes, take that many log pages, save, load, and free the log.  If the
   pages could be had, the lists are those of before, node by node and count by count; they are not saved only
   where there is nothing to save or an allocation fails.
   */
  method UnmountAndMount(lists: array<FreeRanges>, per: nat, choose: seq<nat>) returns (saved: bool, ghost served: nat)
    requires per > 0 && AllValid(lists[..]) && AtHome(lists[..], per)
    modifies lists
    ensures saved ==> lists[..] == old(lists[..])
    ensures !saved ==> AllValid(lists[..]) && NodeCount(Nodes(lists[..])) <= NodeCount(Nodes(old(lists[..])))
    ensures !saved ==> NodeCount(Nodes(old(lists[..]))) == 0 || Fails(lists[..], choose, served)
    ensures !saved ==> Shrunk(old(lists[..]), lists[..], served)
  {
    hide AtHome, Without, PagesOf, Missing, Back, Canon, Total, NodeCount, Home, AllNodes;
    ghost var before := lists[..];
    var counted := CountNodes(lists);
    var numPages := counted / PER_PAGE + if counted % PER_PAGE != 0 then 1 else 0;
    served := 0;
    NothingTaken(before);
    if numPages == 0 { return false, served; }
    var pages;
    pages, served := AllocateLogPages(lists, numPages, per, choose);
    if |pages| != numPages { return false, served; }
    ghost var without := lists[..];
    var log := new Range[numPages, PER_PAGE]((_, _) => Range(0, 0));
    var saving := seq(lists.Length, c requires 0 <= c < lists.Length reads lists => lists[c].nodes);
    assert saving == Nodes(without);
    var tail := SaveLists(log, saving, counted);
    SavedShares(before, without, pages, per);
    var i := 0;
    while i < lists.Length
      invariant 0 <= i <= lists.Length && forall c :: 0 <= c < i ==> lists[c] == EMPTY
      modifies lists
    {
      lists[i] := EMPTY;
      i := i + 1;
    }
    LoadBlocknodeMappings(log, tail, per, lists, saving);
    LoadedIs(lists[..], without);
    PagesMissing(before, without, pages, per);
    FreeInodeLog(lists, pages, per);
    Restored(before, without, lists[..], pages, per);
    saved := true;
  }

  lemma SavedShares(before: seq<FreeRanges>, without: seq<FreeRanges>, pages: seq<nat>, per: nat)
    requires per > 0 && AtHome(before, per) && Without(before, without, pages) && AllValid(without)
    ensures InShares(Nodes(without), per) && forall c :: 0 <= c < |without| ==> Canon(Nodes(without)[c])
  {
    forall c: nat, i: nat | c < |without| && i < |without[c].nodes| ensures without[c].nodes[i].low / per == c {
      var b := without[c].nodes[i].low;
      HasLow(without[c].nodes, i);
      assert Lacks(before[c].nodes, without[c].nodes, pages) && HasOwn(before[c].nodes, c, per);
      assert Home(b, c, per);
    }
  }

  lemma LoadedIs(loaded: seq<FreeRanges>, without: seq<FreeRanges>)
    requires |loaded| == |without| && AllValid(without)
    requires forall c :: 0 <= c < |loaded| ==> loaded[c].Valid() && loaded[c].nodes == Nodes(without)[c]
    ensures loaded == without
  {
  }

  lemma PagesMissing(before: seq<FreeRanges>, without: seq<FreeRanges>, pages: seq<nat>, per: nat)
    requires per > 0 && AtHome(before, per) && Without(before, without, pages) && PagesOf(before, pages)
    ensures Missing(without, pages, per)
  {
    forall b <- pages ensures b / per < |without| && Home(b, b / per, per) && !Owned(without, b) {
      assert Owned(before, b);
      var c: nat :| c < |before| && Has(before[c].nodes, b);
      assert HasOwn(before[c].nodes, c, per) && Home(b, c, per);
      forall d: nat | d < |before| ensures !Has(without[d].nodes, b) { assert Lacks(before[d].nodes, without[d].nodes, pages); }
    }
  }

  /** The lists without the pages, with the pages back, are the lists. */
  lemma Restored(before: seq<FreeRanges>, without: seq<FreeRanges>, after: seq<FreeRanges>, pages: seq<nat>, per: nat)
    requires per > 0 && AllValid(before) && AllValid(after) && AtHome(before, per)
    requires Without(before, without, pages) && PagesOf(before, pages) && Back(without, after, pages, per)
    ensures after == before
  {
    hide Home, Canon, Total;
    forall c: nat | c < |before| ensures after[c] == before[c] {
      assert Lacks(before[c].nodes, without[c].nodes, pages) && Regains(without[c].nodes, after[c].nodes, pages, c, per);
      assert HasOwn(before[c].nodes, c, per);
      forall b: int ensures Has(after[c].nodes, b) <==> Has(before[c].nodes, b) {
        if b in pages {
          assert Owned(before, b);
          var d: nat :| d < |before| && Has(before[d].nodes, b);
          assert HasOwn(before[d].nodes, d, per);
          if Home(b, c, per) { OneHome(b, c, d, per); }
        }
      }
      CanonUnique(after[c].nodes, before[c].nodes);
    }
  }

  /** A mount after a crash, from the bitmap of the blocks in use, gives the same lists as an unmount and a mount. */
  lemma BothPathsAgree(list: FreeRanges, before: FreeRanges, bitmap: seq<bool>, lo: nat, hi: nat)
    requires hi <= |bitmap| && Clear(list, bitmap, lo, hi) && before.Valid()
    requires (forall b | Has(before.nodes, b) :: lo <= b < hi) && forall b | lo <= b < hi :: bitmap[b] <==> !Has(before.nodes, b)
    ensures list == before
  {
    forall b ensures Has(list.nodes, b) <==> Has(before.nodes, b) {
    }
    CanonUnique(list.nodes, before.nodes);
  }
}
