/** Crash atomicity of the lite journals, over every run and every crash. */
module LiteAtomicity {
  import opened LiteJournal

  // ---------------------------------------------------------------- recovery meets the specification

  lemma AtCount(i: nat, k: nat, n: nat)
    requires i < n && k < n
    ensures At(i, k, n) < n && Count(i, At(i, k, n), n) == k
  {
  }

  lemma AtInjective(i: nat, k: nat, m: nat, n: nat)
    requires i < n && k < n && m < n && k != m
    ensures At(i, k, n) != At(i, m, n)
  {
  }

  /** A crash now would find the transaction of this journal open. */
  predicate IsOpen(x: Journal) { x.phead != x.ptail }

  lemma WordsAreEntries(x: Journal, mem: seq<Word>, pm: seq<Word>, spec: seq<Word>, a: nat)
    requires x.Shape() && |mem| == |pm| == |spec| && JournalOk(mem, pm, spec, x) && IsOpen(x)
    ensures x.phead == x.base && Count(x.phead, x.ptail, |x.pslots|) == x.logged == |x.words|
    ensures InRange(x.pslots, x.phead, x.logged, a) <==> a in x.words
    ensures forall k :: 0 <= k < x.logged && x.pslots[At(x.phead, k, |x.pslots|)].word == a ==>
      a < |spec| && x.pslots[At(x.phead, k, |x.pslots|)].value == spec[a]
  {
    AtCount(x.base, x.logged, |x.vslots|);
    forall k: nat | k < x.logged
      ensures var e := x.pslots[At(x.base, k, |x.pslots|)]; e.word == x.words[k] < |spec| && e.value == spec[e.word]
    {
      assert WordOk(mem, pm, spec, x, k);
    }
    if a in x.words {
      var k :| 0 <= k < |x.words| && x.words[k] == a;
      assert x.pslots[At(x.base, k, |x.pslots|)].word == a;
    }
  }

  lemma RollBackAt(x: Journal, mem: seq<Word>, pm: seq<Word>, spec: seq<Word>, data: seq<Word>, a: nat)
    requires x.Shape() && |mem| == |pm| == |spec| == |data| && JournalOk(mem, pm, spec, x) && a < |data|
    ensures |RollBack(x, data)| == |data|
    ensures RollBack(x, data)[a] == if IsOpen(x) && a in x.words then spec[a] else data[a]
  {
    if IsOpen(x) {
      WordsAreEntries(x, mem, pm, spec, a);
      UndoAt(x.pslots, x.phead, x.logged, data, a, spec[a]);
    }
  }

  ghost predicate OpenWord(js: seq<Journal>, a: nat) {
    exists j :: 0 <= j < |js| && IsOpen(js[j]) && a in js[j].words
  }

  lemma {:induction false} RollBackAllAt(js: seq<Journal>, mem: seq<Word>, pm: seq<Word>, spec: seq<Word>, data: seq<Word>, a: nat)
    requires |mem| == |pm| == |spec| == |data| && a < |data|
    requires forall j :: 0 <= j < |js| ==> js[j].Shape() && JournalOk(mem, pm, spec, js[j])
    ensures |RollBackAll(js, data)| == |data|
    ensures RollBackAll(js, data)[a] == if OpenWord(js, a) then spec[a] else data[a]
  {
    hide JournalOk, RollBack, IsOpen;
    if js != [] {
      var n := |js| - 1;
      RollBackAllAt(js[..n], mem, pm, spec, data, a);
      RollBackAt(js[n], mem, pm, spec, RollBackAll(js[..n], data), a);
      if OpenWord(js, a) {
        var j :| 0 <= j < |js| && IsOpen(js[j]) && a in js[j].words;
        assert j < n ==> js[..n][j] == js[j];
      } else {
        assert forall j :: 0 <= j < n ==> js[..n][j] == js[j];
      }
    }
  }

  /** Words of no open transaction are on the medium as specified. */
  lemma ClosedWords(st: St, a: nat)
    requires Inv(st) && a < |st.pm| && !OpenWord(st.js, a)
    ensures st.pm[a] == st.spec[a]
  {
    if Held(st, a) {
      var j :| 0 <= j < |st.js| && a in st.js[j].words;
      var x := st.js[j];
      var k :| 0 <= k < |x.words| && x.words[k] == a;
      assert WordOk(st.mem, st.pm, st.spec, x, k);
      AtCount(x.base, x.logged, |x.vslots|);
      assert !IsOpen(x);
      assert x.phase == Closing ==> x.stores[..x.done] == x.stores;
    }
  }

  /** A crash at any moment, followed by recovery, leaves the specified data. */
  lemma CrashAtomic(st: St)
    requires Inv(st)
    ensures Recovered(st) == st.spec
  {
    forall a: nat | a < |st.pm| ensures |Recovered(st)| == |st.pm| && Recovered(st)[a] == st.spec[a] {
      RollBackAllAt(st.js, st.mem, st.pm, st.spec, st.pm, a);
      if !OpenWord(st.js, a) { ClosedWords(st, a); }
    }
    LengthAll(st.js, st.pm);
  }

  lemma {:induction false} LengthAll(js: seq<Journal>, data: seq<Word>)
    requires forall j :: 0 <= j < |js| ==> js[j].Shape()
    ensures |RollBackAll(js, data)| == |data|
  {
    if js != [] {
      LengthAll(js[..|js| - 1], data);
      var x := js[|js| - 1];
      UndoLength(x.pslots, x.phead, Count(x.phead, x.ptail, |x.pslots|), RollBackAll(js[..|js| - 1], data));
    }
  }

  ghost predicate AllBefore(data: seq<Word>, x: Journal)
    requires x.Shape()
  {
    forall k: nat | k < |x.words| :: x.words[k] < |data| && data[x.words[k]] == x.before[k]
  }

  ghost predicate AllAfter(data: seq<Word>, x: Journal)
    requires x.Shape()
  {
    forall k: nat | k < |x.words| :: x.words[k] < |data| && data[x.words[k]] == Value(x.before[k], x.words[k], x.stores)
  }

  /** A crash inside a transaction leaves all its words as before it, or all with all its stores performed. */
  lemma AllOrNothing(st: St, j: nat)
    requires Inv(st) && j < |st.js|
    ensures if st.js[j].Closed() then AllAfter(Recovered(st), st.js[j]) else AllBefore(Recovered(st), st.js[j])
  {
    CrashAtomic(st);
    var x := st.js[j];
    forall k: nat | k < |x.words|
      ensures x.words[k] < |st.spec|
      ensures st.spec[x.words[k]] == if x.Closed() then Value(x.before[k], x.words[k], x.stores) else x.before[k]
    {
      assert WordOk(st.mem, st.pm, st.spec, x, k);
    }
  }

  // ---------------------------------------------------------------- what every step keeps

  lemma JournalFrame(mem: seq<Word>, pm: seq<Word>, spec: seq<Word>, mem': seq<Word>, pm': seq<Word>, spec': seq<Word>, x: Journal)
    requires x.Shape() && |mem| == |pm| == |spec| == |mem'| == |pm'| == |spec'| && JournalOk(mem, pm, spec, x)
    requires forall a: nat | a in x.words && a < |mem| :: mem[a] == mem'[a] && pm[a] == pm'[a] && spec[a] == spec'[a]
    ensures JournalOk(mem', pm', spec', x)
  {
    forall k: nat | k < |x.words| ensures WordOk(mem', pm', spec', x, k) {
      assert WordOk(mem, pm, spec, x, k) && x.words[k] in x.words;
    }
  }

  /** Changing one journal whose words stay the same. */
  lemma OneJournal(st: St, st': St, j: nat)
    requires Inv(st) && Shape(st') && j < |st.js| == |st'.js| && |st'.mem| == |st.mem|
    requires forall i :: 0 <= i < |st.js| && i != j ==> st'.js[i] == st.js[i]
    requires st'.js[j].words == st.js[j].words
    requires forall a: nat | a < |st.mem| && a !in st.js[j].words :: st'.mem[a] == st.mem[a] && st'.pm[a] == st.pm[a] && st'.spec[a] == st.spec[a]
    requires JournalOk(st'.mem, st'.pm, st'.spec, st'.js[j])
    ensures Inv(st')
  {
    forall i | 0 <= i < |st'.js| ensures JournalOk(st'.mem, st'.pm, st'.spec, st'.js[i]) {
      if i != j {
        forall a: nat | a in st.js[i].words ensures a !in st.js[j].words {
          assert i < j || j < i;
        }
        JournalFrame(st.mem, st.pm, st.spec, st'.mem, st'.pm, st'.spec, st.js[i]);
      }
    }
    assert forall i :: 0 <= i < |st.js| ==> st'.js[i].words == st.js[i].words;
    forall a: nat | a < |st.pm| ensures Held(st', a) || st'.pm[a] == st'.spec[a] {
      if Held(st, a) {
        var i :| 0 <= i < |st.js| && a in st.js[i].words;
        assert a in st'.js[i].words;
      } else {
        assert a !in st.js[j].words;
      }
    }
  }

  lemma BeginKeeps(st: St, s: Step)
    requires Inv(st) && s.Begin? && Enabled(st, s)
    ensures Inv(Apply(st, s))
  {
    var st' := Apply(st, s);
    var j := s.j;
    var x := st'.js[j];
    assert st.js[j].words == [];
    forall k: nat | k < |x.words| ensures WordOk(st'.mem, st'.pm, st'.spec, x, k) {
      assert x.words[k] in x.words;
      assert x.stores[..0] == [];
      assert !Held(st, x.words[k]);
    }
    assert JournalOk(st'.mem, st'.pm, st'.spec, x);
    forall i | 0 <= i < |st'.js| ensures JournalOk(st'.mem, st'.pm, st'.spec, st'.js[i]) {
      assert i != j ==> st'.js[i] == st.js[i];
    }
    forall i, k, a | 0 <= i < k < |st'.js| ensures !(a in st'.js[i].words && a in st'.js[k].words) {
      assert i != j ==> st'.js[i] == st.js[i];
      assert k != j ==> st'.js[k] == st.js[k];
      if a in x.words { assert !Held(st, a); }
    }
    forall a: nat | a < |st.pm| ensures Held(st', a) || st'.pm[a] == st'.spec[a] {
      if Held(st, a) {
        var i :| 0 <= i < |st.js| && a in st.js[i].words;
        assert st'.js[i] == st.js[i];
      }
    }
  }

  lemma LogKeeps(st: St, s: Step)
    requires Inv(st) && s.Log? && Enabled(st, s)
    ensures Inv(Apply(st, s))
  {
    var st' := Apply(st, s);
    var x, y := st.js[s.j], st'.js[s.j];
    assert WordOk(st.mem, st.pm, st.spec, x, x.logged);
    assert x.stores[..0] == [];
    forall k: nat | k < y.logged
      ensures y.vslots[At(y.base, k, |y.vslots|)] == Entry(y.words[k], y.before[k])
    {
      if k < x.logged { AtInjective(x.base, k, x.logged, |x.vslots|); }
    }
    forall k: nat | k < |y.words| ensures WordOk(st'.mem, st'.pm, st'.spec, y, k) {
      assert WordOk(st.mem, st.pm, st.spec, x, k);
    }
    OneJournal(st, st', s.j);
  }

  /** The pointer stores, and the fences, change a journal's bookkeeping only. */
  lemma SamePhaseWords(st: St, j: nat, y: Journal)
    requires Inv(st) && j < |st.js| && y.Shape()
    requires y == st.js[j].(phase := y.phase, head := y.head, tail := y.tail)
    requires y.phase != Idle && y.phase != Active && !st.js[j].Closed() && !y.Closed() && y.done == st.js[j].done
    requires st.js[j].phase == Active ==> forall a <- y.words :: a < |st.mem| && st.pm[a] == st.mem[a]
    ensures forall k: nat | k < |y.words| :: WordOk(st.mem, st.pm, st.spec, y, k)
  {
    forall k: nat | k < |y.words| ensures WordOk(st.mem, st.pm, st.spec, y, k) {
      assert WordOk(st.mem, st.pm, st.spec, st.js[j], k) && y.words[k] in y.words;
    }
  }

  lemma FenceKeeps(st: St, s: Step)
    requires Inv(st) && (s.LogFence? || s.TailFence? || s.StoreFence?) && Enabled(st, s)
    ensures Inv(Apply(st, s))
  {
    var st' := Apply(st, s);
    var x, y := st.js[s.j], st'.js[s.j];
    if s.TailFence? {
      forall k: nat | k < |y.words| ensures WordOk(st'.mem, st'.pm, st'.spec, y, k) {
        assert WordOk(st.mem, st.pm, st.spec, x, k);
      }
    } else {
      SamePhaseWords(st, s.j, y);
    }
    assert JournalOk(st'.mem, st'.pm, st'.spec, y);
    OneJournal(st, st', s.j);
  }

  lemma PointerKeeps(st: St, s: Step)
    requires Inv(st) && (s.SetTail? || s.SetHead?) && Enabled(st, s)
    ensures Inv(Apply(st, s))
  {
    var st' := Apply(st, s);
    var x, y := st.js[s.j], st'.js[s.j];
    AtCount(x.base, x.logged, |x.vslots|);
    SamePhaseWords(st, s.j, y);
    assert JournalOk(st'.mem, st'.pm, st'.spec, y);
    OneJournal(st, st', s.j);
  }

  lemma DoStoreKeeps(st: St, s: Step)
    requires Inv(st) && s.DoStore? && Enabled(st, s)
    ensures Inv(Apply(st, s))
  {
    var st' := Apply(st, s);
    var x, y := st.js[s.j], st'.js[s.j];
    assert Shape(st');
    assert y.stores[..y.done] == x.stores[..x.done] + [x.stores[x.done]];
    forall k: nat | k < |y.words| ensures WordOk(st'.mem, st'.pm, st'.spec, y, k) {
      assert WordOk(st.mem, st.pm, st.spec, x, k);
      assert y.stores[..y.done][..x.done] == x.stores[..x.done];
    }
    OneJournal(st, st', s.j);
  }

  lemma HeadFenceKeeps(st: St, s: Step)
    requires Inv(st) && s.HeadFence? && Enabled(st, s)
    ensures Inv(Apply(st, s))
  {
    var st' := Apply(st, s);
    var x := st.js[s.j];
    assert st'.js[s.j] == Rest(x);
    forall i | 0 <= i < |st'.js| ensures st'.js[i].Shape() && JournalOk(st'.mem, st'.pm, st'.spec, st'.js[i]) {
      assert i != s.j ==> st'.js[i] == st.js[i];
    }
    forall a: nat | a < |st.pm| ensures Held(st', a) || st'.pm[a] == st'.spec[a] {
      if a in x.words {
        var k :| 0 <= k < |x.words| && x.words[k] == a;
        assert WordOk(st.mem, st.pm, st.spec, x, k);
        assert x.stores[..x.done] == x.stores;
      } else if Held(st, a) {
        var i :| 0 <= i < |st.js| && a in st.js[i].words;
        assert st'.js[i] == st.js[i];
      }
    }
    assert Disjoint(st'.js) by {
      forall i, k, a | 0 <= i < k < |st'.js| ensures !(a in st'.js[i].words && a in st'.js[k].words) {
        assert i != s.j ==> st'.js[i] == st.js[i];
        assert k != s.j ==> st'.js[k] == st.js[k];
      }
    }
  }

  lemma EvictSlotKeeps(st: St, s: Step)
    requires Inv(st) && s.EvictSlot? && Enabled(st, s)
    ensures Inv(Apply(st, s))
  {
    var st' := Apply(st, s);
    var x, y := st.js[s.j], st'.js[s.j];
    forall k: nat | k < |y.words| ensures WordOk(st'.mem, st'.pm, st'.spec, y, k) {
      assert WordOk(st.mem, st.pm, st.spec, x, k);
    }
    OneJournal(st, st', s.j);
  }

  lemma EvictPairKeeps(st: St, s: Step)
    requires Inv(st) && s.EvictPair? && Enabled(st, s)
    ensures Inv(Apply(st, s))
  {
    var st' := Apply(st, s);
    var x, y := st.js[s.j], st'.js[s.j];
    AtCount(x.base, x.logged, |x.vslots|);
    forall k: nat | k < |y.words| ensures WordOk(st'.mem, st'.pm, st'.spec, y, k) {
      assert WordOk(st.mem, st.pm, st.spec, x, k) && x.words[k] in x.words;
    }
    OneJournal(st, st', s.j);
  }

  lemma WordKeeps(st: St, s: Step)
    requires Inv(st) && (s.EvictWord? || s.Outside?) && Enabled(st, s)
    ensures Inv(Apply(st, s))
  {
    var st' := Apply(st, s);
    var a := if s.EvictWord? then s.a else s.s.word;
    forall j | 0 <= j < |st.js| ensures JournalOk(st'.mem, st'.pm, st'.spec, st.js[j]) {
      var x := st.js[j];
      forall k: nat | k < |x.words| ensures WordOk(st'.mem, st'.pm, st'.spec, x, k) {
        assert WordOk(st.mem, st.pm, st.spec, x, k) && x.words[k] in x.words;
        assert x.words[k] == a ==> Held(st, a);
      }
    }
    forall b: nat | b < |st.pm| ensures Held(st', b) || st'.pm[b] == st'.spec[b] {
      assert Held(st, b) <==> Held(st', b);
    }
  }

  lemma CrashKeeps(st: St)
    requires Inv(st)
    ensures Inv(Apply(st, Crash))
  {
    CrashAtomic(st);
    LengthAll(st.js, st.pm);
    var st' := Apply(st, Crash);
    forall j | 0 <= j < |st'.js| ensures st'.js[j].Shape() && JournalOk(st'.mem, st'.pm, st'.spec, st'.js[j]) {
      assert st'.js[j] == Reset(st.js[j]);
    }
  }

  /** Every step keeps the invariant. */
  lemma StepKeeps(st: St, s: Step)
    requires Inv(st) && Enabled(st, s)
    ensures Inv(Apply(st, s))
  {
    match s
    case Begin(_, _, _) => BeginKeeps(st, s);
    case Log(_) => LogKeeps(st, s);
    case LogFence(_) => FenceKeeps(st, s);
    case SetTail(_) => PointerKeeps(st, s);
    case TailFence(_) => FenceKeeps(st, s);
    case DoStore(_) => DoStoreKeeps(st, s);
    case StoreFence(_) => FenceKeeps(st, s);
    case SetHead(_) => PointerKeeps(st, s);
    case HeadFence(_) => HeadFenceKeeps(st, s);
    case EvictSlot(_, _) => EvictSlotKeeps(st, s);
    case EvictPair(_) => EvictPairKeeps(st, s);
    case EvictWord(_) => WordKeeps(st, s);
    case Outside(_) => WordKeeps(st, s);
    case Crash => CrashKeeps(st);
  }

  ghost predicate Run(st: St, steps: seq<Step>, end: St)
    decreases |steps|
  {
    if steps == [] then end == st
    else Shape(st) && Enabled(st, steps[0]) && Run(Apply(st, steps[0]), steps[1..], end)
  }

  lemma {:induction false} RunKeeps(st: St, steps: seq<Step>, end: St)
    requires Inv(st) && Run(st, steps, end)
    ensures Inv(end)
    decreases |steps|
  {
    if steps != [] {
      StepKeeps(st, steps[0]);
      RunKeeps(Apply(st, steps[0]), steps[1..], end);
    }
  }

  /** From empty journals on, over any steps and any crashes: each transaction in flight is all or nothing. */
  lemma EveryCrashAtomic(n: nat, at: seq<nat>, data: seq<Word>, steps: seq<Step>, st: St)
    requires n > 0 && Run(Init(n, at, data), steps, st)
    ensures Inv(st) && Recovered(st) == st.spec
    ensures forall j :: 0 <= j < |st.js| ==>
      if st.js[j].Closed() then AllAfter(Recovered(st), st.js[j]) else AllBefore(Recovered(st), st.js[j])
  {
    InitInv(n, at, data);
    RunKeeps(Init(n, at, data), steps, st);
    CrashAtomic(st);
    forall j | 0 <= j < |st.js|
      ensures if st.js[j].Closed() then AllAfter(Recovered(st), st.js[j]) else AllBefore(Recovered(st), st.js[j])
    {
      AllOrNothing(st, j);
    }
  }

  /** Only the head that closes a transaction, and stores outside any, change what a crash would leave. */
  lemma NothingElseShows(st: St, s: Step)
    requires Inv(st) && Enabled(st, s)
    requires !(s.EvictPair? && st.js[s.j].phase == Closing) && !s.EvictWord?
    ensures Inv(Apply(st, s)) && Recovered(Apply(st, s)) == Recovered(st)
  {
    StepKeeps(st, s);
    CrashAtomic(st);
    CrashAtomic(Apply(st, s));
  }

  /** When the closing head reaches the medium, the whole transaction shows at once. */
  lemma CommitShows(st: St, s: Step)
    requires Inv(st) && s.EvictPair? && Enabled(st, s)
    requires st.js[s.j].phase == Closing && !st.js[s.j].Closed()
    ensures Inv(Apply(st, s)) && Recovered(Apply(st, s)) == Committed(Recovered(st), st.js[s.j])
  {
    StepKeeps(st, s);
    CrashAtomic(st);
    CrashAtomic(Apply(st, s));
  }
}
