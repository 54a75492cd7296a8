/**
 Rolling back the lite journals, as a state machine that may itself crash at any step.

 For one CPU after the other the entries are stored back and flushed without a fence, then the tail is
 stored, flushed, and only then a fence waits for everything.
 */
module LiteRecovery {
  import opened Common
  import opened LiteJournal
  import LiteAtomicity

  /** What recovery works on: a ring of entries, its head, and its tail as stored and as durable. */
  datatype Image = Image(slots: seq<Entry>, head: nat, tail: nat, ptail: nat)
  {
    predicate Shape() { head < |slots| && tail < |slots| && ptail < |slots| }

    function Entries(): nat
      requires Shape()
    {
      Count(head, tail, |slots|)
    }

    predicate Open() { head != ptail }
  }

  function Back(r: Image, data: seq<Word>): seq<Word>
    requires r.Shape()
  {
    Undo(r.slots, r.head, Count(r.head, r.ptail, |r.slots|), data)
  }

  function BackAll(rs: seq<Image>, data: seq<Word>): seq<Word>
    requires forall i :: 0 <= i < |rs| ==> rs[i].Shape()
  {
    if rs == [] then data else Back(rs[|rs| - 1], BackAll(rs[..|rs| - 1], data))
  }

  /** Ring `j` is being rolled back, `k` of its entries are stored; `closing` once its tail is stored too. */
  datatype Rec = Rec(mem: seq<Word>, pm: seq<Word>, rs: seq<Image>, j: nat, k: nat, closing: bool)

  ghost predicate Shape(r: Rec) {
    && |r.mem| == |r.pm| && r.j <= |r.rs|
    && (forall i :: 0 <= i < |r.rs| ==> r.rs[i].Shape())
    && (r.j < |r.rs| ==> r.k < |r.rs[r.j].slots|)
  }

  /** What another crash now, and a full recovery, would leave. */
  function Again(r: Rec): seq<Word>
    requires Shape(r)
  {
    BackAll(r.rs, r.pm)
  }

  datatype Step = Skip | UndoNext | CloseRing | RingFence | WordOut(a: nat) | TailOut | Restart

  /** The words restored from the ring being closed. */
  ghost predicate Undone(r: Rec, a: nat)
    requires Shape(r)
  {
    r.j < |r.rs| && InRange(r.rs[r.j].slots, r.rs[r.j].head, r.k, a)
  }

  ghost predicate AllDurable(r: Rec)
    requires Shape(r)
  {
    forall a: nat | a < |r.mem| && Undone(r, a) :: r.pm[a] == r.mem[a]
  }

  ghost predicate Enabled(r: Rec, s: Step)
    requires Shape(r)
  {
    match s
    case Skip => r.j < |r.rs| && !r.closing && r.k == 0 && r.rs[r.j].head == r.rs[r.j].tail
    case UndoNext => r.j < |r.rs| && !r.closing && r.k < r.rs[r.j].Entries()
    case CloseRing => r.j < |r.rs| && !r.closing && r.k == r.rs[r.j].Entries() > 0
    case RingFence => r.j < |r.rs| && r.closing && r.rs[r.j].ptail == r.rs[r.j].tail && AllDurable(r)
    case WordOut(a) => a < |r.mem|
    case TailOut => r.j < |r.rs|
    case Restart => true
  }

  function Apply(r: Rec, s: Step): Rec
    requires Shape(r) && Enabled(r, s)
  {
    match s
    case Skip => r.(j := r.j + 1)
    case UndoNext =>
      var x := r.rs[r.j];
      r.(mem := Restore(r.mem, x.slots[At(x.head, r.k, |x.slots|)]), k := r.k + 1)
    case CloseRing => r.(rs := r.rs[r.j := r.rs[r.j].(tail := r.rs[r.j].head)], closing := true)
    case RingFence => r.(j := r.j + 1, k := 0, closing := false)
    case WordOut(a) => r.(pm := r.pm[a := r.mem[a]])
    case TailOut => r.(rs := r.rs[r.j := r.rs[r.j].(ptail := r.rs[r.j].tail)])
    case Restart => Rec(r.pm, r.pm, seq(|r.rs|, i requires 0 <= i < |r.rs| => r.rs[i].(tail := r.rs[i].ptail)), 0, 0, false)
  }

  // ---------------------------------------------------------------- invariant

  /** How many entries of ring `i` stand for words to be restored. */
  function Size(r: Rec, i: nat): nat
    requires Shape(r) && i < |r.rs|
  {
    if r.closing && i == r.j then r.k else r.rs[i].Entries()
  }

  ghost predicate In(r: Rec, i: nat, a: nat)
    requires Shape(r) && i < |r.rs|
  {
    InRange(r.rs[i].slots, r.rs[i].head, Size(r, i), a)
  }

  /** The entries all say what the words shall become. */
  ghost predicate Agree(x: Image, c: nat, goal: seq<Word>)
    requires x.Shape() && c <= |x.slots|
  {
    forall k: nat | k < c :: var e := x.slots[At(x.head, k, |x.slots|)]; e.word < |goal| && e.value == goal[e.word]
  }

  predicate TailOk(r: Rec, i: nat)
    requires Shape(r) && i < |r.rs|
  {
    var x := r.rs[i];
    if i < r.j then x.head == x.tail == x.ptail
    else if i == r.j && r.closing then x.head == x.tail && r.k > 0 && (!x.Open() || Count(x.head, x.ptail, |x.slots|) == r.k)
    else x.tail == x.ptail && (i == r.j ==> r.k <= x.Entries())
  }

  /** `a` waits to be restored. */
  ghost predicate Pending(r: Rec, a: nat)
    requires Shape(r)
  {
    exists i :: r.j <= i < |r.rs| && In(r, i, a) && (i == r.j ==> !Undone(r, a))
  }

  ghost predicate Inv(r: Rec, goal: seq<Word>) {
    && Shape(r) && |goal| == |r.mem|
    && (forall i :: 0 <= i < |r.rs| ==> TailOk(r, i) && Agree(r.rs[i], Size(r, i), goal))
    && forall a: nat | a < |goal| :: r.mem[a] == goal[a] || Pending(r, a)
  }

  ghost predicate OpenFor(x: Image, a: nat)
    requires x.Shape()
  {
    x.Open() && InRange(x.slots, x.head, Count(x.head, x.ptail, |x.slots|), a)
  }

  /** The medium already holds the goal's word, or a ring that is durably open will bring it back. */
  ghost predicate Kept(r: Rec, goal: seq<Word>, a: nat)
    requires Shape(r) && |goal| == |r.pm| && a < |goal|
  {
    r.pm[a] == goal[a] || exists i :: 0 <= i < |r.rs| && OpenFor(r.rs[i], a)
  }

  ghost predicate Safe(r: Rec, goal: seq<Word>)
    requires Shape(r) && |goal| == |r.pm|
  {
    forall a: nat | a < |goal| :: Kept(r, goal, a)
  }

  // ---------------------------------------------------------------- a crash during recovery

  lemma BackAt(x: Image, data: seq<Word>, goal: seq<Word>, a: nat)
    requires x.Shape() && Agree(x, Count(x.head, x.ptail, |x.slots|), goal) && |data| == |goal| && a < |data|
    ensures |Back(x, data)| == |data| && Back(x, data)[a] == if OpenFor(x, a) then goal[a] else data[a]
  {
    UndoAt(x.slots, x.head, Count(x.head, x.ptail, |x.slots|), data, a, goal[a]);
    assert x.Open() <==> Count(x.head, x.ptail, |x.slots|) > 0;
  }

  lemma {:induction false} BackAllAt(rs: seq<Image>, data: seq<Word>, goal: seq<Word>, a: nat)
    requires forall i :: 0 <= i < |rs| ==> rs[i].Shape() && Agree(rs[i], Count(rs[i].head, rs[i].ptail, |rs[i].slots|), goal)
    requires |data| == |goal| && a < |data|
    ensures |BackAll(rs, data)| == |data|
    ensures BackAll(rs, data)[a] == if exists i :: 0 <= i < |rs| && OpenFor(rs[i], a) then goal[a] else data[a]
  {
    hide Back, Agree, OpenFor, Count, Undo;
    if rs != [] {
      var n := |rs| - 1;
      var x := rs[n];
      BackAllAt(rs[..n], data, goal, a);
      BackAt(x, BackAll(rs[..n], data), goal, a);
      assert forall i :: 0 <= i < n ==> rs[..n][i] == rs[i];
      if i :| 0 <= i < |rs| && OpenFor(rs[i], a) {
        assert i < n ==> OpenFor(rs[..n][i], a);
      }
    }
  }

  lemma DurableAgree(r: Rec, goal: seq<Word>, i: nat)
    requires Inv(r, goal) && i < |r.rs|
    ensures Agree(r.rs[i], Count(r.rs[i].head, r.rs[i].ptail, |r.rs[i].slots|), goal)
  {
    assert TailOk(r, i) && Agree(r.rs[i], Size(r, i), goal);
  }

  /** A crash inside recovery does no harm exactly where the medium is safe. */
  lemma RestartExact(r: Rec, goal: seq<Word>)
    requires Inv(r, goal)
    ensures Again(r) == goal <==> Safe(r, goal)
  {
    forall i | 0 <= i < |r.rs| ensures Agree(r.rs[i], Count(r.rs[i].head, r.rs[i].ptail, |r.rs[i].slots|), goal) {
      DurableAgree(r, goal, i);
    }
    forall a: nat | a < |goal| ensures |Again(r)| == |goal| && (Again(r)[a] == goal[a] <==> Kept(r, goal, a)) {
      BackAllAt(r.rs, r.pm, goal, a);
    }
    if Safe(r, goal) {
      BackAllLength(r.rs, r.pm);
    }
  }

  lemma {:induction false} BackAllLength(rs: seq<Image>, data: seq<Word>)
    requires forall i :: 0 <= i < |rs| ==> rs[i].Shape()
    ensures |BackAll(rs, data)| == |data|
  {
    if rs != [] {
      var x := rs[|rs| - 1];
      BackAllLength(rs[..|rs| - 1], data);
      UndoLength(x.slots, x.head, Count(x.head, x.ptail, |x.slots|), BackAll(rs[..|rs| - 1], data));
    }
  }

  // ---------------------------------------------------------------- every step

  lemma UndoNextKeeps(r: Rec, goal: seq<Word>)
    requires Inv(r, goal) && Enabled(r, UndoNext)
    ensures Inv(Apply(r, UndoNext), goal)
  {
    var r' := Apply(r, UndoNext);
    var x := r.rs[r.j];
    var e := x.slots[At(x.head, r.k, |x.slots|)];
    assert Agree(x, Size(r, r.j), goal);
    forall i | 0 <= i < |r'.rs| ensures TailOk(r', i) && Agree(r'.rs[i], Size(r', i), goal) {
      assert TailOk(r, i) && Agree(r.rs[i], Size(r, i), goal);
    }
    forall a: nat | a < |goal| ensures r'.mem[a] == goal[a] || Pending(r', a) {
      if a != e.word && r.mem[a] != goal[a] {
        var i :| r.j <= i < |r.rs| && In(r, i, a) && (i == r.j ==> !Undone(r, a));
        assert In(r', i, a);
      }
    }
  }

  lemma CloseRingKeeps(r: Rec, goal: seq<Word>)
    requires Inv(r, goal) && Enabled(r, CloseRing)
    ensures Inv(Apply(r, CloseRing), goal)
  {
    var r' := Apply(r, CloseRing);
    forall i | 0 <= i < |r'.rs| ensures TailOk(r', i) && Agree(r'.rs[i], Size(r', i), goal) {
      assert TailOk(r, i) && Agree(r.rs[i], Size(r, i), goal);
    }
    forall a: nat | a < |goal| ensures r'.mem[a] == goal[a] || Pending(r', a) {
      if r.mem[a] != goal[a] {
        var i :| r.j <= i < |r.rs| && In(r, i, a) && (i == r.j ==> !Undone(r, a));
        assert i != r.j && In(r', i, a);
      }
    }
  }

  lemma NextRingKeeps(r: Rec, s: Step, goal: seq<Word>)
    requires Inv(r, goal) && (s == Skip || s == RingFence) && Enabled(r, s)
    ensures Inv(Apply(r, s), goal)
  {
    var r' := Apply(r, s);
    forall i | 0 <= i < |r'.rs| ensures TailOk(r', i) && Agree(r'.rs[i], Size(r', i), goal) {
      assert TailOk(r, i) && Agree(r.rs[i], Size(r, i), goal);
    }
    forall a: nat | a < |goal| ensures r'.mem[a] == goal[a] || Pending(r', a) {
      if r.mem[a] != goal[a] {
        var i :| r.j <= i < |r.rs| && In(r, i, a) && (i == r.j ==> !Undone(r, a));
        assert i != r.j && In(r', i, a);
      }
    }
  }

  lemma EvictKeeps(r: Rec, s: Step, goal: seq<Word>)
    requires Inv(r, goal) && (s.WordOut? || s == TailOut) && Enabled(r, s)
    ensures Inv(Apply(r, s), goal)
  {
    var r' := Apply(r, s);
    forall i | 0 <= i < |r'.rs| ensures TailOk(r', i) && Agree(r'.rs[i], Size(r', i), goal) {
      assert TailOk(r, i) && Agree(r.rs[i], Size(r, i), goal);
    }
    forall a: nat | a < |goal| ensures r'.mem[a] == goal[a] || Pending(r', a) {
      if r.mem[a] != goal[a] {
        var i :| r.j <= i < |r.rs| && In(r, i, a) && (i == r.j ==> !Undone(r, a));
        assert In(r', i, a);
      }
    }
  }

  lemma CrashKeeps(r: Rec, goal: seq<Word>)
    requires Inv(r, goal) && Safe(r, goal)
    ensures Inv(Apply(r, Restart), goal) && Safe(Apply(r, Restart), goal)
  {
    var r' := Apply(r, Restart);
    forall i | 0 <= i < |r'.rs| ensures TailOk(r', i) && Agree(r'.rs[i], Size(r', i), goal) {
      DurableAgree(r, goal, i);
    }
    forall a: nat | a < |goal| ensures Kept(r', goal, a) && (r'.mem[a] == goal[a] || Pending(r', a)) {
      assert Kept(r, goal, a);
      if r.pm[a] != goal[a] {
        var i :| 0 <= i < |r.rs| && OpenFor(r.rs[i], a);
        assert OpenFor(r'.rs[i], a) && In(r', i, a);
      }
    }
  }

  /** The guard missing from the code: the tail must not reach the medium before the words it stands for. */
  ghost predicate Ordered(r: Rec, s: Step)
    requires Shape(r)
  {
    s == TailOut && r.closing ==> AllDurable(r)
  }

  lemma SafeKept(r: Rec, s: Step, goal: seq<Word>)
    requires Inv(r, goal) && Safe(r, goal) && Enabled(r, s) && s != Restart && Ordered(r, s)
    ensures Inv(Apply(r, s), goal) && Safe(Apply(r, s), goal)
  {
    match s {
      case Skip => NextRingKeeps(r, s, goal);
      case UndoNext => UndoNextKeeps(r, goal);
      case CloseRing => CloseRingKeeps(r, goal);
      case RingFence => NextRingKeeps(r, s, goal);
      case WordOut(_) => EvictKeeps(r, s, goal);
      case TailOut => EvictKeeps(r, s, goal);
    }
    SafeStep(r, s, goal);
  }

  lemma SafeStep(r: Rec, s: Step, goal: seq<Word>)
    requires Inv(r, goal) && Safe(r, goal) && Enabled(r, s) && s != Restart && Ordered(r, s)
    requires Inv(Apply(r, s), goal)
    ensures Safe(Apply(r, s), goal)
  {
    var r' := Apply(r, s);
    forall a: nat | a < |goal| ensures Kept(r', goal, a) {
      assert Kept(r, goal, a);
      if r.pm[a] != goal[a] {
        var i :| 0 <= i < |r.rs| && OpenFor(r.rs[i], a);
        if s == TailOut && i == r.j {
          ClosedAt(r, a, goal);
        } else {
          assert OpenFor(r'.rs[i], a);
        }
      }
    }
  }

  /** A word of the ring whose durable tail is about to follow the stored one. */
  lemma ClosedAt(r: Rec, a: nat, goal: seq<Word>)
    requires Inv(r, goal) && r.j < |r.rs| && (r.closing ==> AllDurable(r)) && a < |goal| && OpenFor(r.rs[r.j], a)
    ensures Kept(Apply(r, TailOut), goal, a) || r.pm[a] == goal[a]
  {
    var r' := Apply(r, TailOut);
    assert TailOk(r, r.j);
    if r.closing {
      assert Undone(r, a);
      if r.mem[a] != goal[a] {
        var i :| r.j <= i < |r.rs| && In(r, i, a) && (i == r.j ==> !Undone(r, a));
        assert TailOk(r, i) && OpenFor(r'.rs[i], a);
      }
    } else {
      assert OpenFor(r'.rs[r.j], a);
    }
  }

  /** Where the guard is violated, the only word at stake is one the medium lacks and no open ring brings back. */
  lemma EvictExact(r: Rec, goal: seq<Word>)
    requires Inv(r, goal) && Safe(r, goal) && Enabled(r, TailOut)
    ensures Shape(Apply(r, TailOut))
    ensures Again(Apply(r, TailOut)) == goal <==>
      forall a: nat | a < |goal| && r.closing && Undone(r, a) ::
        r.pm[a] == goal[a] || exists i :: 0 <= i < |r.rs| && i != r.j && OpenFor(r.rs[i], a)
  {
    var r' := Apply(r, TailOut);
    EvictKeeps(r, TailOut, goal);
    RestartExact(r', goal);
    assert TailOk(r, r.j);
    assert forall i :: 0 <= i < |r.rs| && i != r.j ==> r'.rs[i] == r.rs[i];
    forall a: nat | a < |goal|
      ensures Kept(r', goal, a) <==> !(r.closing && Undone(r, a)) || r.pm[a] == goal[a] || exists i :: 0 <= i < |r.rs| && i != r.j && OpenFor(r.rs[i], a)
    {
      assert Kept(r, goal, a);
      if !r.closing {
        assert r'.rs == r.rs;
      } else {
        assert !r'.rs[r.j].Open();
        if i :| 0 <= i < |r'.rs| && OpenFor(r'.rs[i], a) {
          assert OpenFor(r.rs[i], a);
        }
        if i :| 0 <= i < |r.rs| && i != r.j && OpenFor(r.rs[i], a) {
          assert OpenFor(r'.rs[i], a);
        }
      }
    }
  }

  // ---------------------------------------------------------------- runs

  ghost predicate Run(r: Rec, steps: seq<Step>, end: Rec)
    decreases |steps|
  {
    if steps == [] then end == r
    else Shape(r) && Enabled(r, steps[0]) && Run(Apply(r, steps[0]), steps[1..], end)
  }

  ghost predicate OrderedRun(r: Rec, steps: seq<Step>)
    decreases |steps|
  {
    steps == [] || (Shape(r) && Enabled(r, steps[0]) && Ordered(r, steps[0]) && OrderedRun(Apply(r, steps[0]), steps[1..]))
  }

  lemma {:induction false} RunKeeps(r: Rec, steps: seq<Step>, end: Rec, goal: seq<Word>)
    requires Inv(r, goal) && Safe(r, goal) && Run(r, steps, end) && OrderedRun(r, steps)
    ensures Inv(end, goal) && Safe(end, goal)
    decreases |steps|
  {
    if steps != [] {
      if steps[0] == Restart { CrashKeeps(r, goal); } else { SafeKept(r, steps[0], goal); }
      RunKeeps(Apply(r, steps[0]), steps[1..], end, goal);
    }
  }

  /** What a mount finds after a crash in `st`. */
  function Mounted(st: St): Rec
    requires LiteJournal.Shape(st)
  {
    Rec(st.pm, st.pm, seq(|st.js|, i requires 0 <= i < |st.js| =>
      var x := st.js[i]; Image(x.pslots, x.phead, x.ptail, x.ptail)), 0, 0, false)
  }

  lemma MountedInv(st: St)
    requires LiteJournal.Inv(st)
    ensures Inv(Mounted(st), st.spec) && Safe(Mounted(st), st.spec)
  {
    var r := Mounted(st);
    forall i | 0 <= i < |r.rs| ensures TailOk(r, i) && Agree(r.rs[i], Size(r, i), st.spec) {
      OpenAgrees(st, i);
    }
    forall a: nat | a < |st.spec| ensures Kept(r, st.spec, a) && (r.mem[a] == st.spec[a] || Pending(r, a)) {
      if LiteAtomicity.OpenWord(st.js, a) {
        var j :| 0 <= j < |st.js| && LiteAtomicity.IsOpen(st.js[j]) && a in st.js[j].words;
        LiteAtomicity.WordsAreEntries(st.js[j], st.mem, st.pm, st.spec, a);
        assert OpenFor(r.rs[j], a) && In(r, j, a);
      } else {
        LiteAtomicity.ClosedWords(st, a);
      }
    }
  }

  lemma OpenAgrees(st: St, i: nat)
    requires LiteJournal.Inv(st) && i < |st.js|
    ensures var x := Mounted(st).rs[i]; x.Shape() && Agree(x, x.Entries(), st.spec)
  {
    var x := st.js[i];
    if LiteAtomicity.IsOpen(x) {
      forall k: nat | k < Count(x.phead, x.ptail, |x.pslots|)
        ensures var e := x.pslots[At(x.phead, k, |x.pslots|)]; e.word < |st.spec| && e.value == st.spec[e.word]
      {
        LiteAtomicity.WordsAreEntries(x, st.mem, st.pm, st.spec, x.pslots[At(x.phead, k, |x.pslots|)].word);
      }
    }
  }

  /**
   Recovery may be cut short and restarted any number of times: as long as no tail overtakes the words
   it stands for, every restart would still reach the specified data, and so does the end.
   */
  lemma RecoveryRestarts(st: St, steps: seq<Step>, r: Rec)
    requires LiteJournal.Inv(st) && Run(Mounted(st), steps, r) && OrderedRun(Mounted(st), steps)
    ensures Shape(r) && Again(r) == st.spec
    ensures r.j == |r.rs| ==> r.mem == r.pm == st.spec && forall i :: 0 <= i < |r.rs| ==> r.rs[i].head == r.rs[i].tail == r.rs[i].ptail
  {
    MountedInv(st);
    RunKeeps(Mounted(st), steps, r, st.spec);
    RestartExact(r, st.spec);
    assert forall i :: 0 <= i < |r.rs| ==> TailOk(r, i);
    if r.j == |r.rs| {
      forall a: nat | a < |st.spec| ensures r.mem[a] == st.spec[a] && r.pm[a] == st.spec[a] {
        assert Kept(r, st.spec, a);
      }
    }
  }

  // ---------------------------------------------------------------- where the guard is missing

  const ZERO: Word := [0, 0, 0, 0, 0, 0, 0, 0]
  const ONE: Word := [1, 0, 0, 0, 0, 0, 0, 0]

  /** Some run from a single empty ring of `n` slots over two words ends in `st`. */
  ghost predicate Reached(n: nat, st: St)
    requires n > 0
  {
    exists steps :: LiteAtomicity.Run(Init(n, [0], [ZERO, ZERO]), steps, st)
  }

  lemma {:induction false} RunOneMore(st: St, steps: seq<LiteJournal.Step>, m: St, s: LiteJournal.Step)
    requires LiteAtomicity.Run(st, steps, m) && LiteJournal.Shape(m) && LiteJournal.Enabled(m, s)
    ensures LiteAtomicity.Run(st, steps + [s], LiteJournal.Apply(m, s))
    decreases |steps|
  {
    hide LiteJournal.Apply, LiteJournal.Enabled, LiteJournal.Shape;
    if steps == [] {
      assert [s][1..] == [];
    } else {
      RunOneMore(LiteJournal.Apply(st, steps[0]), steps[1..], m, s);
      assert (steps + [s])[1..] == steps[1..] + [s];
    }
  }

  lemma Then(n: nat, st: St, s: LiteJournal.Step, next: St)
    requires n > 0 && Reached(n, st) && LiteJournal.Shape(st) && LiteJournal.Enabled(st, s) && LiteJournal.Apply(st, s) == next
    ensures Reached(n, next)
  {
    hide LiteJournal.Apply, LiteJournal.Enabled, LiteJournal.Shape;
    var steps :| LiteAtomicity.Run(Init(n, [0], [ZERO, ZERO]), steps, st);
    RunOneMore(Init(n, [0], [ZERO, ZERO]), steps, st, s);
  }

  /** The journal of a transaction that sets both words, with its two entries in the first two slots. */
  function Torn(n: nat, phase: Phase, tail: nat, ptail: nat, second: bool, durable: bool, logged: nat, done: nat): Journal {
    Journal(0, tail, 0, ptail, TornSlots(n, second), TornSlots(n, durable),
            phase, 0, [0, 1], [ZERO, ZERO], logged, [Store(0, 0, ONE), Store(1, 0, ONE)], done)
  }

  function TornSlots(n: nat, second: bool): seq<Entry> {
    seq(n, i requires 0 <= i < n => Entry(if second && i == 1 then 1 else 0, ZERO))
  }

  lemma TornSlotsAre(n: nat)
    requires n > 2
    ensures seq(n, _ => Entry(0, ZERO)) == TornSlots(n, false) == TornSlots(n, false)[0 := Entry(0, ZERO)]
    ensures TornSlots(n, false)[1 := Entry(1, ZERO)] == TornSlots(n, true) == TornSlots(n, true)[1 := TornSlots(n, true)[1]]
  {
  }

  lemma TornBegun(n: nat)
    requires n > 2
    ensures Reached(n, St([ZERO, ZERO], [ZERO, ZERO], [ZERO, ZERO], [Torn(n, Logging, 0, 0, false, false, 0, 0)]))
  {
    hide Reached;
    var data := [ZERO, ZERO];
    var a := Init(n, [0], data);
    InitReached(n);
    InitInv(n, [0], data);
    var b := St(data, data, data, [Torn(n, Logging, 0, 0, false, false, 0, 0)]);
    TornSlotsAre(n);
    assert a.js == [Rest(b.js[0])];
    var begun := LiteJournal.Apply(a, LiteJournal.Begin(0, [0, 1], [Store(0, 0, ONE), Store(1, 0, ONE)]));
    assert begun.js[0].before == [ZERO, ZERO];
    assert begun.js == b.js;
    Then(n, a, LiteJournal.Begin(0, [0, 1], [Store(0, 0, ONE), Store(1, 0, ONE)]), b);
  }

  lemma TornBothLogged(n: nat)
    requires n > 2
    ensures Reached(n, St([ZERO, ZERO], [ZERO, ZERO], [ZERO, ZERO], [Torn(n, Logging, 0, 0, true, false, 2, 0)]))
  {
    hide Reached;
    var data := [ZERO, ZERO];
    TornBegun(n);
    TornSlotsAre(n);
    var b := St(data, data, data, [Torn(n, Logging, 0, 0, false, false, 0, 0)]);
    var c := St(data, data, data, [Torn(n, Logging, 0, 0, false, false, 1, 0)]);
    assert LiteJournal.Apply(b, LiteJournal.Log(0)).js == c.js;
    Then(n, b, LiteJournal.Log(0), c);
    var d := St(data, data, data, [Torn(n, Logging, 0, 0, true, false, 2, 0)]);
    assert LiteJournal.Apply(c, LiteJournal.Log(0)).js == d.js;
    Then(n, c, LiteJournal.Log(0), d);
  }

  lemma TornLogged(n: nat)
    requires n > 2
    ensures Reached(n, St([ZERO, ZERO], [ZERO, ZERO], [ZERO, ZERO], [Torn(n, Logged, 0, 0, true, true, 2, 0)]))
  {
    hide Reached;
    var data := [ZERO, ZERO];
    TornBothLogged(n);
    TornSlotsAre(n);
    var d := St(data, data, data, [Torn(n, Logging, 0, 0, true, false, 2, 0)]);
    var e := St(data, data, data, [Torn(n, Logging, 0, 0, true, true, 2, 0)]);
    Then(n, d, LiteJournal.EvictSlot(0, 1), e);
    Then(n, e, LiteJournal.LogFence(0), St(data, data, data, [Torn(n, Logged, 0, 0, true, true, 2, 0)]));
  }

  lemma InitReached(n: nat)
    requires n > 0
    ensures Reached(n, Init(n, [0], [ZERO, ZERO]))
  {
    assert LiteAtomicity.Run(Init(n, [0], [ZERO, ZERO]), [], Init(n, [0], [ZERO, ZERO]));
  }

  lemma TornActive(n: nat)
    requires n > 2
    ensures Reached(n, St([ZERO, ZERO], [ZERO, ZERO], [ZERO, ZERO], [Torn(n, Active, 2, 2, true, true, 2, 0)]))
  {
    hide Reached;
    var data := [ZERO, ZERO];
    TornLogged(n);
    var a := St(data, data, data, [Torn(n, Logged, 0, 0, true, true, 2, 0)]);
    var b := St(data, data, data, [Torn(n, Opening, 2, 0, true, true, 2, 0)]);
    Then(n, a, LiteJournal.SetTail(0), b);
    var c := St(data, data, data, [Torn(n, Opening, 2, 2, true, true, 2, 0)]);
    Then(n, b, LiteJournal.EvictPair(0), c);
    Then(n, c, LiteJournal.TailFence(0), St(data, data, data, [Torn(n, Active, 2, 2, true, true, 2, 0)]));
  }

  /** Both words are changed and evicted before the transaction ends. */
  lemma TornReached(n: nat) returns (st: St)
    requires n > 2
    ensures Reached(n, st) && LiteJournal.Shape(st) && Mounted(st) == TornStart(n)
  {
    hide Reached;
    var data := [ZERO, ZERO];
    TornActive(n);
    var a := St(data, data, data, [Torn(n, Active, 2, 2, true, true, 2, 0)]);
    var b := St([ONE, ZERO], data, data, [Torn(n, Active, 2, 2, true, true, 2, 1)]);
    assert Patch(ZERO, Store(0, 0, ONE)) == ONE;
    Then(n, a, LiteJournal.DoStore(0), b);
    var c := St([ONE, ONE], data, data, [Torn(n, Active, 2, 2, true, true, 2, 2)]);
    Then(n, b, LiteJournal.DoStore(0), c);
    assert 0 in c.js[0].words && 1 in c.js[0].words;
    assert LiteJournal.Held(c, 0);
    var d := St([ONE, ONE], [ONE, ZERO], data, [Torn(n, Active, 2, 2, true, true, 2, 2)]);
    Then(n, c, LiteJournal.EvictWord(0), d);
    st := St([ONE, ONE], [ONE, ONE], data, [Torn(n, Active, 2, 2, true, true, 2, 2)]);
    assert 1 in d.js[0].words;
    assert LiteJournal.Held(d, 1);
    Then(n, d, LiteJournal.EvictWord(1), st);
  }

  /** What a mount finds after a crash there. */
  function TornStart(n: nat): Rec {
    Rec([ONE, ONE], [ONE, ONE], [Image(TornSlots(n, true), 0, 2, 2)], 0, 0, false)
  }

  lemma TornBack(n: nat)
    requires n > 2
    ensures Again(TornStart(n)) == [ZERO, ZERO]
  {
    var x := TornStart(n).rs[0];
    var data := TornStart(n).pm;
    assert Undo(x.slots, 0, 1, data) == [ZERO, ONE];
    assert Undo(x.slots, 0, 2, data) == [ZERO, ZERO];
    assert BackAll([], data) == data;
    assert [x][..0] == [];
  }

  /**
   Without the guard a second crash can leave one word old and the other new.  The state of the first crash is one
   that a run reaches.
   */
  lemma TailOvertakesWords(n: nat) returns (st: St, r: Rec)
    requires n > 2
    ensures Reached(n, st) && LiteJournal.Shape(st) && Again(Mounted(st)) == [ZERO, ZERO]
    ensures Run(Mounted(st), [UndoNext, UndoNext, CloseRing, WordOut(0), TailOut], r)
    ensures Shape(r) && Again(r) == [ZERO, ONE]
  {
    hide Reached;
    st := TornReached(n);
    TornBack(n);
    var s := [UndoNext, UndoNext, CloseRing, WordOut(0), TailOut];
    var a := Apply(TornStart(n), s[0]);
    var b := Apply(a, s[1]);
    var c := Apply(b, s[2]);
    var d := Apply(c, s[3]);
    r := Apply(d, s[4]);
    assert r.pm == [ZERO, ONE];
    assert Back(r.rs[0], r.pm) == r.pm;
    assert BackAll([], r.pm) == r.pm;
    assert r.rs[..0] == [] && |r.rs| == 1;
    assert Run(d, s[4..], r);
    assert Run(c, s[3..], r);
    assert Run(b, s[2..], r);
    assert Run(a, s[1..], r);
  }
}
