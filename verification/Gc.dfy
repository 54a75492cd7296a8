/**
 Garbage collection of a NOVA inode log: fast collection unlinks pages with no live entry, thorough
 collection copies the live entries of all but the tail page to new pages and switches over to them.
 */
module Gc {
  import opened Common
  import opened FileLog
  import opened FileKeeps
  import opened FileCompact
  import opened LogPages

  predicate PageDead(pages: Pages, id: nat)
    requires id in pages
  {
    pages[id].invalid == pages[id].num
  }

  /** `out` is `ch` with some pages left out that hold nothing alive. */
  ghost predicate SubChain(pages: Pages, ch: seq<nat>, out: seq<nat>)
    requires In(pages, ch)
    decreases |ch|
  {
    if ch == [] then out == []
    else
      var n := |ch| - 1;
      (out != [] && out[|out| - 1] == ch[n] && SubChain(pages, ch[..n], out[..|out| - 1]))
      || (PageDead(pages, ch[n]) && SubChain(pages, ch[..n], out))
  }

  /** The pages with a live entry. */
  function LivePages(pages: Pages, ch: seq<nat>): (r: seq<nat>)
    requires In(pages, ch)
    ensures In(pages, r)
  {
    if ch == [] then []
    else LivePages(pages, ch[..|ch| - 1]) + if PageDead(pages, ch[|ch| - 1]) then [] else [ch[|ch| - 1]]
  }

  lemma SubSnoc(pages: Pages, ch: seq<nat>, out: seq<nat>, x: nat)
    requires In(pages, ch) && SubChain(pages, ch, out) && x in pages
    ensures In(pages, ch + [x]) && SubChain(pages, ch + [x], out + [x])
    ensures PageDead(pages, x) ==> SubChain(pages, ch + [x], out)
  {
    assert (ch + [x])[..|ch|] == ch && (out + [x])[..|out|] == out;
  }

  lemma {:induction false} SubConcat(pages: Pages, ch: seq<nat>, out: seq<nat>, rest: seq<nat>)
    requires In(pages, ch) && SubChain(pages, ch, out) && In(pages, rest)
    ensures In(pages, ch + rest) && SubChain(pages, ch + rest, out + rest)
    decreases |rest|
  {
    hide SubChain;
    if rest == [] {
      assert ch + rest == ch && out + rest == out;
    } else {
      var r := rest[..|rest| - 1];
      SubConcat(pages, ch, out, r);
      SubSnoc(pages, ch + r, out + r, rest[|rest| - 1]);
      assert ch + rest == ch + r + [rest[|rest| - 1]] && out + rest == out + r + [rest[|rest| - 1]];
    }
  }

  lemma {:induction false} SubIn(pages: Pages, ch: seq<nat>, out: seq<nat>)
    requires In(pages, ch) && SubChain(pages, ch, out)
    ensures In(pages, out) && forall x | x in out :: x in ch
    decreases |ch|
  {
    if ch != [] {
      var n := |ch| - 1;
      if out != [] && out[|out| - 1] == ch[n] && SubChain(pages, ch[..n], out[..|out| - 1]) {
        SubIn(pages, ch[..n], out[..|out| - 1]);
        assert out == out[..|out| - 1] + [ch[n]];
      } else {
        SubIn(pages, ch[..n], out);
      }
    }
  }

  // ---------------------------------------------------------------- leaving out dead pages

  ghost function Shifted(from: nat, n: nat): seq<nat> {
    seq(n, i requires 0 <= i < n => from + i)
  }

  lemma EmbedPageKept(s: seq<LogEntry>, t: seq<LogEntry>, at: seq<nat>, more: seq<LogEntry>)
    requires Embeds(s, t, at) && DropsDead(s, at)
    ensures Embeds(s + more, t + more, at + Shifted(|s|, |more|)) && DropsDead(s + more, at + Shifted(|s|, |more|))
  {
    var u := at + Shifted(|s|, |more|);
    forall k: nat | Kept(at, k) ensures Kept(u, k) {
      var i :| 0 <= i < |at| && at[i] == k;
      assert u[i] == k;
    }
    forall k: nat | |s| <= k < |s + more| ensures Kept(u, k) {
      assert u[|at| + (k - |s|)] == k;
    }
  }

  lemma EmbedPageLeft(s: seq<LogEntry>, t: seq<LogEntry>, at: seq<nat>, more: seq<LogEntry>)
    requires Embeds(s, t, at) && DropsDead(s, at) && forall e | e in more :: e.Dead()
    ensures Embeds(s + more, t, at) && DropsDead(s + more, at)
  {
    forall k: nat | |s| <= k < |s + more| ensures (s + more)[k].Dead() {
      assert (s + more)[k] in more;
    }
  }

  /** The addresses of what is kept did not change. */
  ghost predicate SameAddrs(a: seq<Addr>, b: seq<Addr>, at: seq<nat>) {
    |at| == |b| && forall x :: 0 <= x < |at| ==> at[x] < |a| && b[x] == a[at[x]]
  }

  /** Leaving out dead pages leaves out dead entries. */
  lemma {:induction false} SubEmbeds(pages: Pages, ch: seq<nat>, out: seq<nat>) returns (at: seq<nat>)
    requires In(pages, ch) && SubChain(pages, ch, out) && forall i :: 0 <= i < |ch| ==> Counted(pages[ch[i]])
    ensures In(pages, out) && Embeds(Flat(pages, ch), Flat(pages, out), at) && DropsDead(Flat(pages, ch), at)
    ensures SameAddrs(Addrs(pages, ch), Addrs(pages, out), at)
    decreases |ch|
  {
    hide Embeds, DropsDead, Counted, SameAddrs;
    SubIn(pages, ch, out);
    if ch == [] {
      at := [];
      EmbedEmpty();
    } else {
      var n := |ch| - 1;
      var s, m := Flat(pages, ch[..n]), |pages[ch[n]].entries|;
      if out != [] && out[|out| - 1] == ch[n] && SubChain(pages, ch[..n], out[..|out| - 1]) {
        var a := SubEmbeds(pages, ch[..n], out[..|out| - 1]);
        EmbedPageKept(s, Flat(pages, out[..|out| - 1]), a, pages[ch[n]].entries);
        SameAddrsKept(Addrs(pages, ch[..n]), Addrs(pages, out[..|out| - 1]), a, PageAddrs(ch[n], m));
        at := a + Shifted(|s|, m);
      } else {
        at := SubEmbeds(pages, ch[..n], out);
        PageInvalid(pages[ch[n]]);
        EmbedPageLeft(s, Flat(pages, out), at, pages[ch[n]].entries);
        SameAddrsLeft(Addrs(pages, ch[..n]), Addrs(pages, out), at, PageAddrs(ch[n], m));
      }
    }
  }

  lemma EmbedEmpty()
    ensures Embeds([], [], []) && DropsDead([], []) && SameAddrs([], [], [])
  {
  }

  lemma SameAddrsKept(a: seq<Addr>, b: seq<Addr>, at: seq<nat>, more: seq<Addr>)
    requires SameAddrs(a, b, at)
    ensures SameAddrs(a + more, b + more, at + Shifted(|a|, |more|))
  {
  }

  lemma SameAddrsLeft(a: seq<Addr>, b: seq<Addr>, at: seq<nat>, more: seq<Addr>)
    requires SameAddrs(a, b, at)
    ensures SameAddrs(a + more, b, at)
  {
  }

  // ---------------------------------------------------------------- relinking

  /** Memory changed in page links only. */
  ghost predicate OnlyNext(s: Pages, t: Pages) {
    s.Keys == t.Keys && forall id | id in s :: t[id] == s[id].(next := t[id].next)
  }

  /**
   From `head` a reader reaches the tail page of the log `ch` through all its pages that hold
   something alive, in order.
   */
  ghost predicate Reads(pages: Pages, head: nat, old_: Pages, ch: seq<nat>)
    requires In(old_, ch)
  {
    exists c :: ReadsBy(pages, head, old_, ch, c)
  }

  ghost predicate ReadsBy(pages: Pages, head: nat, old_: Pages, ch: seq<nat>, c: seq<nat>)
    requires In(old_, ch)
  {
    ch != [] && Chain(pages, c) && c[0] == head && c[|c| - 1] == ch[|ch| - 1] && SubChain(old_, ch, c) && OnlyNext(old_, pages)
  }

  /** Taking a page out of the middle of a chain. */
  lemma Unlink(pages: Pages, a: seq<nat>, x: nat, rest: seq<nat>)
    requires Chain(pages, a + [x] + rest) && a != [] && rest != []
    ensures var last := a[|a| - 1];
            last in pages && x in pages && pages[x].next == rest[0] && Chain(pages[last := pages[last].(next := rest[0])], a + rest)
  {
    var c := a + [x] + rest;
    var n := |a|;
    var d := a + rest;
    assert c[n - 1] == a[n - 1] && c[n - 1] in pages;
    var t := pages[a[n - 1] := pages[a[n - 1]].(next := rest[0])];
    assert c[n - 1] == a[n - 1] && c[n] == x && c[n + 1] == rest[0];
    forall i | 0 <= i < |d| ensures d[i] in t && d[i] != 0 {
      var k := if i < n then i else i + 1;
      assert d[i] == c[k];
    }
    forall i, j | 0 <= i < j < |d| ensures d[i] != d[j] {
      assert c[if i < n then i else i + 1] != c[if j < n then j else j + 1];
    }
    forall i | 0 <= i < |d| - 1 ensures t[d[i]].next == d[i + 1] {
      var k := if i < n then i else i + 1;
      assert pages[c[k]].next == c[k + 1];
      if i != n - 1 { assert d[i] != d[n - 1]; }
    }
  }

  lemma ChainTail(pages: Pages, x: nat, rest: seq<nat>)
    requires Chain(pages, [x] + rest) && rest != []
    ensures Chain(pages, rest)
  {
    var c := [x] + rest;
    forall i | 0 <= i < |rest| ensures rest[i] == c[i + 1] {}
    forall i, j | 0 <= i < j < |rest| ensures rest[i] != rest[j] { assert c[i + 1] != c[j + 1]; }
    forall i | 0 <= i < |rest| - 1 ensures pages[rest[i]].next == rest[i + 1] { assert pages[c[i + 1]].next == c[i + 2]; }
  }

  /** A chain does not depend on the link of its last page, nor on pages outside it. */
  lemma ChainElsewhere(pages: Pages, c: seq<nat>, x: nat, next: nat)
    requires Chain(pages, c) && x in pages && forall i :: 0 <= i < |c| - 1 ==> c[i] != x
    ensures Chain(pages[x := pages[x].(next := next)], c)
  {
  }

  lemma SubChainSame(s: Pages, t: Pages, ch: seq<nat>, out: seq<nat>)
    requires In(s, ch) && SubChain(s, ch, out) && OnlyNext(s, t)
    ensures In(t, ch) && SubChain(t, ch, out)
    decreases |ch|
  {
    assert forall i :: 0 <= i < |ch| ==> ch[i] in s.Keys;
    if ch != [] {
      var n := |ch| - 1;
      if out != [] && out[|out| - 1] == ch[n] && SubChain(s, ch[..n], out[..|out| - 1]) {
        SubChainSame(s, t, ch[..n], out[..|out| - 1]);
      } else {
        SubChainSame(s, t, ch[..n], out);
      }
    }
  }

  lemma {:induction false} LiveIsSub(pages: Pages, ch: seq<nat>)
    requires In(pages, ch)
    ensures SubChain(pages, ch, LivePages(pages, ch))
  {
    hide SubChain;
    if ch == [] {
      LinkedNone(pages, ch);
    } else {
      var n := |ch| - 1;
      LiveIsSub(pages, ch[..n]);
      SubSnoc(pages, ch[..n], LivePages(pages, ch[..n]), ch[n]);
      assert ch[..n] + [ch[n]] == ch;
      assert LivePages(pages, ch[..n]) + [] == LivePages(pages, ch[..n]);
    }
  }

  /** The pages still linked after the first `i` pages were examined: a dead first page stays for now. */
  function Linked(pages: Pages, ch: seq<nat>, i: nat): (r: seq<nat>)
    requires In(pages, ch) && i <= |ch|
  {
    (if i > 0 && PageDead(pages, ch[0]) then [ch[0]] else []) + LivePages(pages, ch[..i])
  }

  lemma LinkedNext(pages: Pages, ch: seq<nat>, i: nat)
    requires In(pages, ch) && i < |ch|
    ensures Linked(pages, ch, i + 1) == if i > 0 && PageDead(pages, ch[i]) then Linked(pages, ch, i) else Linked(pages, ch, i) + [ch[i]]
  {
    assert ch[..i + 1][..i] == ch[..i];
  }

  lemma LinkedFirst(pages: Pages, ch: seq<nat>, i: nat)
    requires In(pages, ch) && 0 < i <= |ch|
    ensures Linked(pages, ch, i) != [] && Linked(pages, ch, i)[0] == ch[0]
    decreases i
  {
    if i > 1 {
      LinkedFirst(pages, ch, i - 1);
      LinkedNext(pages, ch, i - 1);
    } else {
      LinkedNext(pages, ch, 0);
    }
  }

  lemma {:induction false} LinkedIsSub(pages: Pages, ch: seq<nat>, i: nat)
    requires In(pages, ch) && i <= |ch|
    ensures SubChain(pages, ch[..i], Linked(pages, ch, i))
  {
    hide SubChain, Linked;
    if i > 0 {
      LinkedIsSub(pages, ch, i - 1);
      SubSnoc(pages, ch[..i - 1], Linked(pages, ch, i - 1), ch[i - 1]);
      assert ch[..i - 1] + [ch[i - 1]] == ch[..i];
      LinkedNext(pages, ch, i - 1);
    } else {
      LinkedNone(pages, ch);
    }
  }

  lemma LinkedNone(pages: Pages, ch: seq<nat>)
    requires In(pages, ch)
    ensures Linked(pages, ch, 0) == [] && SubChain(pages, ch[..0], []) && (ch == [] ==> SubChain(pages, ch, []) && LivePages(pages, ch) == [])
  {
  }

  /** The pages without a live entry. */
  function DeadPages(pages: Pages, ch: seq<nat>): (r: seq<nat>)
    requires In(pages, ch)
  {
    if ch == [] then []
    else DeadPages(pages, ch[..|ch| - 1]) + if PageDead(pages, ch[|ch| - 1]) then [ch[|ch| - 1]] else []
  }

  /** Every page is kept or given back, once. */
  lemma {:induction false} PagesParted(pages: Pages, ch: seq<nat>)
    requires In(pages, ch)
    ensures multiset(LivePages(pages, ch)) + multiset(DeadPages(pages, ch)) == multiset(ch)
    ensures forall id <- DeadPages(pages, ch) :: id in pages && PageDead(pages, id)
  {
    if ch != [] {
      var n := |ch| - 1;
      PagesParted(pages, ch[..n]);
      PartNext(pages, ch);
    }
  }

  ghost predicate AllDeadOn(pages: Pages, id: nat)
    requires id in pages
  {
    forall e | e in pages[id].entries :: e.Dead()
  }

  /** Exactly the pages with nothing alive on them are given back. */
  lemma {:induction false} PartedExactly(pages: Pages, ch: seq<nat>, id: nat)
    requires In(pages, ch) && id in ch && forall i :: 0 <= i < |ch| ==> Counted(pages[ch[i]])
    ensures id in pages && (id in DeadPages(pages, ch) <==> AllDeadOn(pages, id)) && (id in LivePages(pages, ch) <==> !AllDeadOn(pages, id))
  {
    hide Counted, AllDeadOn;
    var n := |ch| - 1;
    assert ch == ch[..n] + [ch[n]];
    DeadIs(pages, ch[n]);
    if id in ch[..n] {
      PartedExactly(pages, ch[..n], id);
    } else {
      NotParted(pages, ch[..n], id);
    }
  }

  lemma DeadIs(pages: Pages, id: nat)
    requires id in pages && Counted(pages[id])
    ensures PageDead(pages, id) <==> AllDeadOn(pages, id)
  {
    PageInvalid(pages[id]);
  }

  lemma {:induction false} NotParted(pages: Pages, ch: seq<nat>, id: nat)
    requires In(pages, ch) && id !in ch
    ensures id !in DeadPages(pages, ch) && id !in LivePages(pages, ch)
  {
    if ch != [] { NotParted(pages, ch[..|ch| - 1], id); }
  }

  lemma PartNext(pages: Pages, ch: seq<nat>)
    requires In(pages, ch) && ch != []
    requires multiset(LivePages(pages, ch[..|ch| - 1])) + multiset(DeadPages(pages, ch[..|ch| - 1])) == multiset(ch[..|ch| - 1])
    ensures multiset(LivePages(pages, ch)) + multiset(DeadPages(pages, ch)) == multiset(ch)
  {
    hide LivePages, DeadPages, PageDead;
    var n := |ch| - 1;
    assert ch[..n + 1] == ch == ch[..n] + [ch[n]];
    DeadSnoc(pages, ch, n);
    MsSnoc(ch[..n], ch[n]);
    var l, d := multiset(LivePages(pages, ch[..n])), multiset(DeadPages(pages, ch[..n]));
    MsAssoc(l, d, multiset{ch[n]});
    MsSwap(l, multiset{ch[n]}, d);
  }

  lemma MsSnoc<T>(s: seq<T>, x: T)
    ensures multiset(s + [x]) == multiset(s) + multiset{x}
  {
  }

  lemma MsSwap<T>(a: multiset<T>, b: multiset<T>, c: multiset<T>)
    ensures a + b + c == a + c + b
  {
  }

  /** What is given back of the first `i` pages; the very first waits for the head to move past it. */
  function Given(free: multiset<nat>, pages: Pages, ch: seq<nat>, i: nat): multiset<nat>
    requires In(pages, ch) && i <= |ch|
  {
    if i <= 1 then free
    else Given(free, pages, ch, i - 1) + if PageDead(pages, ch[i - 1]) then multiset{ch[i - 1]} else multiset{}
  }

  lemma GivenNext(free: multiset<nat>, pages: Pages, ch: seq<nat>, i: nat)
    requires In(pages, ch) && i < |ch|
    ensures Given(free, pages, ch, 0) == free
    ensures Given(free, pages, ch, i + 1) ==
            if i > 0 && PageDead(pages, ch[i]) then Given(free, pages, ch, i) + multiset{ch[i]} else Given(free, pages, ch, i)
  {
  }

  /** With the first page, these are all dead pages. */
  lemma {:induction false} GivenAll(free: multiset<nat>, pages: Pages, ch: seq<nat>, i: nat)
    requires In(pages, ch) && i <= |ch|
    ensures free + multiset(DeadPages(pages, ch[..i])) == Given(free, pages, ch, i) + Waiting(pages, ch, i)
  {
    if i == 0 {
      NoPages(pages, ch);
    } else {
      GivenAll(free, pages, ch, i - 1);
      GivenOneMore(free, pages, ch, i - 1);
    }
  }

  lemma GivenOneMore(free: multiset<nat>, pages: Pages, ch: seq<nat>, i: nat)
    requires In(pages, ch) && i < |ch| && free + multiset(DeadPages(pages, ch[..i])) == Given(free, pages, ch, i) + Waiting(pages, ch, i)
    ensures free + multiset(DeadPages(pages, ch[..i + 1])) == Given(free, pages, ch, i + 1) + Waiting(pages, ch, i + 1)
  {
    hide DeadPages, PageDead, Given, Waiting;
    DeadSnoc(pages, ch, i);
    GivenNext(free, pages, ch, i);
    WaitingNext(pages, ch, i);
    GiveOne(free, multiset(DeadPages(pages, ch[..i])), Given(free, pages, ch, i), Waiting(pages, ch, i), ch[i]);
  }

  lemma WaitingNext(pages: Pages, ch: seq<nat>, i: nat)
    requires In(pages, ch) && i < |ch|
    ensures Waiting(pages, ch, i + 1) ==
            if i == 0 && PageDead(pages, ch[0]) then Waiting(pages, ch, i) + multiset{ch[0]} else Waiting(pages, ch, i)
  {
  }

  function Waiting(pages: Pages, ch: seq<nat>, i: nat): multiset<nat>
    requires In(pages, ch) && i <= |ch|
  {
    if i > 0 && PageDead(pages, ch[0]) then multiset{ch[0]} else multiset{}
  }

  lemma GiveOne(free: multiset<nat>, d: multiset<nat>, g: multiset<nat>, w: multiset<nat>, x: nat)
    requires free + d == g + w
    ensures free + (d + multiset{x}) == (g + multiset{x}) + w
    ensures free + (d + multiset{x}) == g + (w + multiset{x})
  {
    forall y ensures (free + (d + multiset{x}))[y] == ((g + multiset{x}) + w)[y] == (g + (w + multiset{x}))[y] {
      assert (free + d)[y] == (g + w)[y];
    }
  }

  lemma NoPages(pages: Pages, ch: seq<nat>)
    ensures In(pages, ch[..0]) && DeadPages(pages, ch[..0]) == [] && LivePages(pages, ch[..0]) == []
  {
  }

  lemma DeadSnoc(pages: Pages, ch: seq<nat>, i: nat)
    requires In(pages, ch) && i < |ch|
    ensures multiset(DeadPages(pages, ch[..i + 1])) ==
            if PageDead(pages, ch[i]) then multiset(DeadPages(pages, ch[..i])) + multiset{ch[i]} else multiset(DeadPages(pages, ch[..i]))
    ensures multiset(LivePages(pages, ch[..i + 1])) ==
            if PageDead(pages, ch[i]) then multiset(LivePages(pages, ch[..i])) else multiset(LivePages(pages, ch[..i])) + multiset{ch[i]}
  {
    assert ch[..i + 1][..i] == ch[..i];
    var d, l := DeadPages(pages, ch[..i]), LivePages(pages, ch[..i]);
    assert d + [] == d && l + [] == l;
  }

  /** The first `i` pages are examined: the chain from the first page still reaches the tail. */
  ghost predicate Scanned(old_: Pages, pages: Pages, ch: seq<nat>, i: nat)
    requires In(old_, ch)
  {
    i < |ch| && OnlyNext(old_, pages) && Chain(pages, Linked(old_, ch, i) + ch[i..])
  }

  /** The page whose link is to be changed next. */
  ghost function LastLinked(old_: Pages, ch: seq<nat>, i: nat): nat
    requires In(old_, ch) && i <= |ch|
  {
    var a := Linked(old_, ch, i);
    if a == [] then 0 else a[|a| - 1]
  }

  lemma ReadsFrom(pages: Pages, old_: Pages, ch: seq<nat>, i: nat)
    requires In(old_, ch) && Scanned(old_, pages, ch, i)
    ensures Reads(pages, ch[0], old_, ch)
  {
    hide SubChain, Linked, Chain;
    var c := Linked(old_, ch, i) + ch[i..];
    LinkedIsSub(old_, ch, i);
    SubConcat(old_, ch[..i], Linked(old_, ch, i), ch[i..]);
    assert ch[..i] + ch[i..] == ch;
    if i > 0 { LinkedFirst(old_, ch, i); } else { LinkedNone(old_, ch); }
    assert ReadsBy(pages, ch[0], old_, ch, c);
  }

  // ---------------------------------------------------------------- one store at a time

  /** At most one store separates two memories: of a next pointer, or of the head. */
  ghost predicate OneStore(s: (Pages, nat), t: (Pages, nat)) {
    || s.0 == t.0
    || (s.1 == t.1 && exists x: nat, v: nat :: x in s.0 && t.0 == Relinked(s.0, x, v))
  }

  function Relinked(pages: Pages, x: nat, v: nat): Pages
    requires x in pages
  {
    pages[x := pages[x].(next := v)]
  }

  /** `trace` leads from `s` to `t`, one store at a time. */
  ghost predicate Trail(s: (Pages, nat), trace: seq<(Pages, nat)>, t: (Pages, nat)) {
    if trace == [] then s == t
    else
      && OneStore(s, trace[0]) && trace[|trace| - 1] == t
      && forall i :: 0 <= i < |trace| - 1 ==> OneStore(trace[i], trace[i + 1])
  }

  lemma NoTrace(s: (Pages, nat), old_: Pages, ch: seq<nat>)
    requires In(old_, ch)
    ensures Trail(s, [], s) && AllRead([], old_, ch)
  {
  }

  lemma TrailMore(s: (Pages, nat), trace: seq<(Pages, nat)>, t: (Pages, nat), u: (Pages, nat))
    requires Trail(s, trace, t) && OneStore(t, u)
    ensures Trail(s, trace + [u], u)
  {
  }

  /** Each memory reads as the old log. */
  ghost predicate AllRead(trace: seq<(Pages, nat)>, old_: Pages, ch: seq<nat>)
    requires In(old_, ch)
  {
    forall s | s in trace :: Reads(s.0, s.1, old_, ch)
  }

  lemma TraceMore(s: (Pages, nat), trace: seq<(Pages, nat)>, t: (Pages, nat), u: (Pages, nat), old_: Pages, ch: seq<nat>)
    requires Trail(s, trace, t) && OneStore(t, u) && In(old_, ch) && AllRead(trace, old_, ch) && Reads(u.0, u.1, old_, ch)
    ensures Trail(s, trace + [u], u) && AllRead(trace + [u], old_, ch)
  {
    hide Reads, OneStore;
    TrailMore(s, trace, t, u);
  }

  lemma TraceConcat(s: (Pages, nat), a: seq<(Pages, nat)>, t: (Pages, nat), b: seq<(Pages, nat)>, u: (Pages, nat), old_: Pages, ch: seq<nat>)
    requires Trail(s, a, t) && Trail(t, b, u) && In(old_, ch) && AllRead(a, old_, ch) && AllRead(b, old_, ch)
    ensures Trail(s, a + b, u) && AllRead(a + b, old_, ch)
  {
    hide Reads, OneStore;
    TrailConcat(s, a, t, b, u);
  }

  lemma TrailConcat(s: (Pages, nat), a: seq<(Pages, nat)>, t: (Pages, nat), b: seq<(Pages, nat)>, u: (Pages, nat))
    requires Trail(s, a, t) && Trail(t, b, u)
    ensures Trail(s, a + b, u)
  {
    hide OneStore;
    if a == [] { assert a + b == b; }
    if b == [] { assert a + b == a; }
  }

  lemma LinkStore(pages: Pages, head: nat, x: nat, v: nat)
    requires x in pages
    ensures OneStore((pages, head), (Relinked(pages, x, v), head))
  {
  }

  lemma HeadStore(pages: Pages, head: nat, head': nat)
    ensures OneStore((pages, head), (pages, head'))
  {
  }

  // ---------------------------------------------------------------- the log of an inode

  class InodeLog {
    var pages: Pages
    var head: nat
    /** The page that holds the log tail. */
    var tail: nat
    var index: map<nat, Addr>
    /** Log pages given back to the allocator. */
    var free: multiset<nat>

    /** The pages of the log are `ch`, their counters exact. */
    ghost predicate Log(ch: seq<nat>)
      reads this
    {
      Chain(pages, ch) && ch[0] == head && ch[|ch| - 1] == tail && forall i :: 0 <= i < |ch| ==> Counted(pages[ch[i]])
    }

    /**
     Scan the log up to its tail page and unlink every page without a live entry; a first page
     without one stays linked until the head is switched past it.  `trace` records what is in memory
     after each store.
     */
    method FastGc(currTail: nat, newBlock: nat, numPages: nat, ghost ch: seq<nat>) returns (ghost out: seq<nat>, ghost trace: seq<(Pages, nat)>)
      requires Log(ch)
      requires numPages > 0 ==> currTail in pages && forall i :: 0 <= i < |ch| - 1 ==> ch[i] != currTail
      modifies this`pages, this`head, this`free
      ensures In(old(pages), ch) && OnlyNext(old(pages), pages)
      ensures out == LivePages(old(pages), ch[..|ch| - 1]) + [tail]
      ensures Chain(pages, out) && out[0] == head && out[|out| - 1] == tail
      ensures free == old(free) + multiset(DeadPages(old(pages), ch[..|ch| - 1]))
      ensures Trail((old(pages), old(head)), trace, (pages, head)) && AllRead(trace, old(pages), ch)
    {
      hide LivePages, Given, DeadPages, Reads, Chain, Counted, OnlyNext, Scanned, LastLinked, Trail, OneStore, PageDead, Linked, AllRead;
      ghost var old_ := pages;
      ChainIn(pages, ch);
      ghost var n := |ch| - 1;
      var curr, lastPage, possibleHead := head, 0, 0;
      var foundHead, firstNeedFree := false, false;
      ghost var i := 0;
      trace := [];
      NoTrace((pages, head), pages, ch);
      GivenNext(old(free), pages, ch, 0);
      StartScan(pages, ch);
      while curr != tail
        invariant i <= n && curr == ch[i] && Scanned(old_, pages, ch, i)
        invariant lastPage == LastLinked(old_, ch, i)
        invariant firstNeedFree == (i > 0 && PageDead(old_, ch[0]))
        invariant foundHead == (LivePages(old_, ch[..i]) != []) && (foundHead ==> possibleHead == LivePages(old_, ch[..i])[0])
        invariant free == Given(old(free), old_, ch, i)
        invariant head == ch[0] && tail == ch[n] && Trail((old_, ch[0]), trace, (pages, head)) && AllRead(trace, old_, ch)
        decreases n - i
      {
        ghost var before := (pages, head);
        GcStep(old_, pages, ch, i);
        HeadStore(pages, head, head);
        GivenNext(old(free), old_, ch, i);
        var next := pages[curr].next;
        if pages[curr].invalid == pages[curr].num {
          if curr == head {
            firstNeedFree := true;
            lastPage := curr;
          } else {
            LinkStore(pages, head, lastPage, next);
            pages := pages[lastPage := pages[lastPage].(next := next)];
            free := free + multiset{curr};
          }
        } else {
          if !foundHead {
            possibleHead := curr;
            foundHead := true;
          }
          lastPage := curr;
        }
        i := i + 1;
        ReadsFrom(pages, old_, ch, i);
        TraceMore((old_, ch[0]), trace, before, (pages, head), old_, ch);
        trace := trace + [(pages, head)];
        curr := next;
      }
      if !foundHead { possibleHead := curr; }
      GcDone(old_, pages, ch, i);
      GivenAll(old(free), old_, ch, n);
      out := LivePages(old_, ch[..n]) + [tail];
      ghost var scanned := (pages, head);
      ghost var last := MoveHead(currTail, newBlock, numPages, possibleHead, firstNeedFree, old_, ch);
      TraceConcat((old_, ch[0]), trace, scanned, last, (pages, head), old_, ch);
      trace := trace + last;
    }

    /** Link the pages just allocated behind the tail, move the head to the first page kept, free the old first page. */
    method MoveHead(currTail: nat, newBlock: nat, numPages: nat, possibleHead: nat, firstNeedFree: bool, ghost old_: Pages, ghost ch: seq<nat>)
      returns (ghost trace: seq<(Pages, nat)>)
      requires In(old_, ch) && ch != [] && Scanned(old_, pages, ch, |ch| - 1) && head == ch[0]
      requires numPages > 0 ==> currTail in old_ && forall i :: 0 <= i < |ch| - 1 ==> ch[i] != currTail
      requires possibleHead == (LivePages(old_, ch[..|ch| - 1]) + [ch[|ch| - 1]])[0]
      modifies this`pages, this`head, this`free
      ensures OnlyNext(old_, pages) && Chain(pages, LivePages(old_, ch[..|ch| - 1]) + [ch[|ch| - 1]]) && head == possibleHead
      ensures free == if firstNeedFree then old(free) + multiset{ch[0]} else old(free)
      ensures Trail((old(pages), old(head)), trace, (pages, head)) && AllRead(trace, old_, ch)
    {
      hide LivePages, Reads, Chain, OnlyNext, Scanned, Trail, OneStore, AllRead;
      trace := [];
      ghost var s0 := (pages, head);
      NoTrace(s0, old_, ch);
      if numPages > 0 {
        LinkElsewhere(old_, pages, ch, currTail, newBlock);
        LinkStore(pages, head, currTail, newBlock);
        pages := pages[currTail := pages[currTail].(next := newBlock)];
        TraceMore(s0, trace, s0, (pages, head), old_, ch);
        trace := trace + [(pages, head)];
      }
      var first := head;
      head := possibleHead;
      NewHead(old_, pages, ch, head);
      HeadStore(pages, first, head);
      TraceMore(s0, trace, (pages, first), (pages, head), old_, ch);
      trace := trace + [(pages, head)];
      if firstNeedFree {
        free := free + multiset{first};
      }
    }
  }

  lemma ChainIn(pages: Pages, ch: seq<nat>)
    requires Chain(pages, ch)
    ensures ch != [] && In(pages, ch) && forall i, j :: 0 <= i < j < |ch| ==> ch[i] != ch[j]
  {
  }

  lemma StartScan(pages: Pages, ch: seq<nat>)
    requires Chain(pages, ch) && In(pages, ch)
    ensures Scanned(pages, pages, ch, 0) && LastLinked(pages, ch, 0) == 0
    ensures LivePages(pages, ch[..0]) == []
  {
    assert Linked(pages, ch, 0) + ch[0..] == ch;
  }

  lemma LiveNext(pages: Pages, ch: seq<nat>, i: nat)
    requires In(pages, ch) && i < |ch|
    ensures LivePages(pages, ch[..i + 1]) == LivePages(pages, ch[..i]) + if PageDead(pages, ch[i]) then [] else [ch[i]]
  {
    assert ch[..i + 1][..i] == ch[..i] && ch[..i + 1][i] == ch[i];
  }

  /** What one step of the scan finds and does. */
  lemma GcStep(old_: Pages, pages: Pages, ch: seq<nat>, i: nat)
    requires In(old_, ch) && i < |ch| - 1 && Scanned(old_, pages, ch, i)
    requires forall i, j :: 0 <= i < j < |ch| ==> ch[i] != ch[j]
    ensures ch[i] in pages && pages[ch[i]].next == ch[i + 1] && (ch[i] == ch[0] <==> i == 0)
    ensures PageDead(old_, ch[i]) == (pages[ch[i]].invalid == pages[ch[i]].num)
    ensures LivePages(old_, ch[..i + 1]) == LivePages(old_, ch[..i]) + if PageDead(old_, ch[i]) then [] else [ch[i]]
    ensures if i > 0 && PageDead(old_, ch[i]) then
              var last := LastLinked(old_, ch, i);
              LastLinked(old_, ch, i + 1) == last && last in pages && Scanned(old_, pages[last := pages[last].(next := ch[i + 1])], ch, i + 1)
            else
              LastLinked(old_, ch, i + 1) == ch[i] && Scanned(old_, pages, ch, i + 1)
  {
    hide Linked, SubChain, Chain, LivePages;
    var a := Linked(old_, ch, i);
    LinkedNext(old_, ch, i);
    LiveNext(old_, ch, i);
    assert a + ch[i..] == a + [ch[i]] + ch[i + 1..];
    LinkAt(pages, a, ch[i], ch[i + 1..]);
    assert ch[i] in old_.Keys;
    if i > 0 {
      LinkedFirst(old_, ch, i);
      Unlink(pages, a, ch[i], ch[i + 1..]);
    }
  }

  lemma LinkAt(pages: Pages, a: seq<nat>, x: nat, rest: seq<nat>)
    requires Chain(pages, a + [x] + rest) && rest != []
    ensures x in pages && pages[x].next == rest[0]
  {
    var c := a + [x] + rest;
    assert c[|a|] == x && c[|a| + 1] == rest[0];
  }

  lemma GcDone(old_: Pages, pages: Pages, ch: seq<nat>, i: nat)
    requires In(old_, ch) && ch != [] && Scanned(old_, pages, ch, i)
    requires ch[i] == ch[|ch| - 1] && forall i, j :: 0 <= i < j < |ch| ==> ch[i] != ch[j]
    ensures i == |ch| - 1
  {
  }

  /** Linking a page after the tail does not change what is read up to the tail. */
  lemma LinkElsewhere(old_: Pages, pages: Pages, ch: seq<nat>, x: nat, next: nat)
    requires In(old_, ch) && ch != [] && Scanned(old_, pages, ch, |ch| - 1)
    requires x in old_ && forall i :: 0 <= i < |ch| - 1 ==> ch[i] != x
    ensures x in pages && var t := pages[x := pages[x].(next := next)]; Scanned(old_, t, ch, |ch| - 1) && Reads(t, ch[0], old_, ch)
  {
    hide Linked, SubChain, Reads;
    var n := |ch| - 1;
    assert x in pages.Keys;
    LinkedIsSub(old_, ch, n);
    SubIn(old_, ch[..n], Linked(old_, ch, n));
    assert ch[n..] == [ch[n]];
    var c := Linked(old_, ch, n) + [ch[n]];
    forall i | 0 <= i < |c| - 1 ensures c[i] != x {
      assert c[i] in Linked(old_, ch, n);
    }
    ChainElsewhere(pages, c, x, next);
    ReadsFrom(pages[x := pages[x].(next := next)], old_, ch, n);
  }

  /** The head moves to the first page that is kept. */
  lemma NewHead(old_: Pages, pages: Pages, ch: seq<nat>, head: nat)
    requires In(old_, ch) && ch != [] && Scanned(old_, pages, ch, |ch| - 1)
    requires head == (LivePages(old_, ch[..|ch| - 1]) + [ch[|ch| - 1]])[0]
    ensures var out := LivePages(old_, ch[..|ch| - 1]) + [ch[|ch| - 1]]; Chain(pages, out) && Reads(pages, head, old_, ch) && OnlyNext(old_, pages)
  {
    hide LivePages, SubChain, Chain;
    var n := |ch| - 1;
    assert ch[n..] == [ch[n]];
    var out := LivePages(old_, ch[..n]) + [ch[n]];
    if n > 0 && PageDead(old_, ch[0]) {
      assert Linked(old_, ch, n) + [ch[n]] == [ch[0]] + out;
      ChainTail(pages, ch[0], out);
    } else {
      assert Linked(old_, ch, n) + [ch[n]] == out;
    }
    LiveIsSub(old_, ch[..n]);
    SubSnoc(old_, ch[..n], LivePages(old_, ch[..n]), ch[n]);
    assert ch[..n] + [ch[n]] == ch;
    assert ReadsBy(pages, head, old_, ch, out);
  }
}
