/**
 The lite journals as a state machine over single stores, fences and evictions.

 Every CPU owns a ring of old 8-byte words and a pair of pointers sharing one cache line.  A
 transaction copies the words it will change, moves the tail over the copies, changes the words in
 place, and moves the head up to the tail.  `mem` and `vslots` are what the processor sees, `pm` and
 `pslots` what has reached the medium: any word, slot or pointer line may be evicted at any time, and a
 fence returns only once what was flushed before it is durable.

 `spec` is a history variable: the stores of a transaction enter it, all together, when the head that
 closes the transaction becomes durable.
 */
module LiteJournal {
  import opened Common

  type Word = w: seq<Byte> | |w| == 8 witness [0, 0, 0, 0, 0, 0, 0, 0]

  /** A store of some bytes of one aligned word. */
  datatype Store = Store(word: nat, at: nat, bytes: seq<Byte>)
  {
    predicate Fits() { at + |bytes| <= 8 }
  }

  datatype Entry = Entry(word: nat, value: Word)

  function Patch(w: Word, s: Store): Word
    requires s.Fits()
  {
    w[..s.at] + s.bytes + w[s.at + |s.bytes|..]
  }

  predicate AllFit(stores: seq<Store>) {
    forall i :: 0 <= i < |stores| ==> stores[i].Fits()
  }

  /** Word `a`, holding `w`, after `stores`. */
  function Value(w: Word, a: nat, stores: seq<Store>): Word
    requires AllFit(stores)
  {
    if stores == [] then w else
    var n := |stores| - 1;
    var v := Value(w, a, stores[..n]);
    if stores[n].word == a then Patch(v, stores[n]) else v
  }

  // ---------------------------------------------------------------- rolling back

  function Restore(data: seq<Word>, e: Entry): seq<Word> {
    if e.word < |data| then data[e.word := e.value] else data
  }

  /** Slot `k` places after `i` on a ring of `n`. */
  function At(i: nat, k: nat, n: nat): nat
    requires i < n && k <= n
  {
    if i + k < n then i + k else i + k - n
  }

  /** How many steps lead from `head` to `tail`. */
  function Count(head: nat, tail: nat, n: nat): nat
    requires head < n && tail < n
  {
    if head <= tail then tail - head else n - head + tail
  }

  /** The `c` entries from slot `i` on, restored in the order in which they were written. */
  function Undo(slots: seq<Entry>, i: nat, c: nat, data: seq<Word>): seq<Word>
    requires i < |slots| && c <= |slots|
  {
    if c == 0 then data else Restore(Undo(slots, i, c - 1, data), slots[At(i, c - 1, |slots|)])
  }

  ghost predicate InRange(slots: seq<Entry>, i: nat, c: nat, a: nat)
    requires i < |slots| && c <= |slots|
  {
    exists k :: 0 <= k < c && slots[At(i, k, |slots|)].word == a
  }

  /** If the entries for a word agree, their order does not matter. */
  lemma {:induction false} UndoAt(slots: seq<Entry>, i: nat, c: nat, data: seq<Word>, a: nat, v: Word)
    requires i < |slots| && c <= |slots| && a < |data|
    requires forall k :: 0 <= k < c && slots[At(i, k, |slots|)].word == a ==> slots[At(i, k, |slots|)].value == v
    ensures |Undo(slots, i, c, data)| == |data|
    ensures Undo(slots, i, c, data)[a] == if InRange(slots, i, c, a) then v else data[a]
  {
    if c > 0 {
      UndoAt(slots, i, c - 1, data, a, v);
      assert InRange(slots, i, c, a) <==> InRange(slots, i, c - 1, a) || slots[At(i, c - 1, |slots|)].word == a;
    }
  }

  lemma {:induction false} UndoLength(slots: seq<Entry>, i: nat, c: nat, data: seq<Word>)
    requires i < |slots| && c <= |slots|
    ensures |Undo(slots, i, c, data)| == |data|
  {
    if c > 0 { UndoLength(slots, i, c - 1, data); }
  }

  // ---------------------------------------------------------------- state

  datatype Phase = Idle | Logging | Logged | Opening | Active | Stored | Closing

  /**
   One CPU's journal.  The transaction in progress started at slot `base`; it journals `words`, whose
   contents at the start are kept in the history variable `before`, and will perform `stores`.
   */
  datatype Journal = Journal(
    head: nat, tail: nat, phead: nat, ptail: nat,
    vslots: seq<Entry>, pslots: seq<Entry>,
    phase: Phase, base: nat, words: seq<nat>, before: seq<Word>, logged: nat, stores: seq<Store>, done: nat)
  {
    predicate Shape() {
      && head < |vslots| == |pslots| && tail < |vslots| && phead < |vslots| && ptail < |vslots| && base < |vslots|
      && |before| == |words| < |vslots| && logged <= |words| && done <= |stores| && AllFit(stores)
    }

    /** The head closing the transaction is durable. */
    predicate Closed() { phase == Closing && phead == head }
  }

  datatype St = St(mem: seq<Word>, pm: seq<Word>, spec: seq<Word>, js: seq<Journal>)

  function RollBack(x: Journal, data: seq<Word>): seq<Word>
    requires x.Shape()
  {
    Undo(x.pslots, x.phead, Count(x.phead, x.ptail, |x.pslots|), data)
  }

  /** Recovery after a crash: every CPU's journal in turn. */
  function RollBackAll(js: seq<Journal>, data: seq<Word>): seq<Word>
    requires forall i :: 0 <= i < |js| ==> js[i].Shape()
  {
    if js == [] then data else RollBack(js[|js| - 1], RollBackAll(js[..|js| - 1], data))
  }

  ghost predicate Shape(st: St) {
    && |st.mem| == |st.pm| == |st.spec|
    && forall j :: 0 <= j < |st.js| ==> st.js[j].Shape()
  }

  function Recovered(st: St): seq<Word>
    requires Shape(st)
  {
    RollBackAll(st.js, st.pm)
  }

  // ---------------------------------------------------------------- steps

  datatype Step =
    | Begin(j: nat, words: seq<nat>, stores: seq<Store>)
    | Log(j: nat)
    | LogFence(j: nat)
    | SetTail(j: nat)
    | TailFence(j: nat)
    | DoStore(j: nat)
    | StoreFence(j: nat)
    | SetHead(j: nat)
    | HeadFence(j: nat)
    | EvictSlot(j: nat, i: nat)
    | EvictPair(j: nat)
    | EvictWord(a: nat)
    | Outside(s: Store)
    | Crash

  ghost predicate Held(st: St, a: nat) {
    exists j :: 0 <= j < |st.js| && a in st.js[j].words
  }

  /** What a transaction may ask for: it stores only to words that it journals. */
  ghost predicate Covered(words: seq<nat>, stores: seq<Store>) {
    forall i :: 0 <= i < |stores| ==> stores[i].Fits() && stores[i].word in words
  }

  ghost predicate Enabled(st: St, s: Step)
    requires Shape(st)
  {
    match s
    case Begin(j, words, stores) =>
      j < |st.js| && st.js[j].phase == Idle && 0 < |words| < |st.js[j].vslots| && Covered(words, stores) &&
      forall a <- words :: a < |st.mem| && !Held(st, a) && st.pm[a] == st.mem[a]
    case Log(j) =>
      j < |st.js| && var x := st.js[j];
      x.phase == Logging && x.logged < |x.words| && x.words[x.logged] < |st.mem|
    case LogFence(j) =>
      j < |st.js| && var x := st.js[j];
      x.phase == Logging && x.logged == |x.words| &&
      forall k: nat | k < x.logged :: var i := At(x.base, k, |x.vslots|); x.pslots[i] == x.vslots[i]
    case SetTail(j) => j < |st.js| && st.js[j].phase == Logged
    case TailFence(j) => j < |st.js| && st.js[j].phase == Opening && st.js[j].ptail == st.js[j].tail
    case DoStore(j) =>
      j < |st.js| && var x := st.js[j];
      x.phase == Active && x.done < |x.stores| && x.stores[x.done].word < |st.mem|
    case StoreFence(j) =>
      j < |st.js| && var x := st.js[j];
      x.phase == Active && x.done == |x.stores| &&
      forall a <- x.words :: a < |st.mem| && st.pm[a] == st.mem[a]
    case SetHead(j) => j < |st.js| && st.js[j].phase == Stored
    case HeadFence(j) => j < |st.js| && st.js[j].Closed()
    case EvictSlot(j, i) => j < |st.js| && i < |st.js[j].vslots|
    case EvictPair(j) => j < |st.js|
    case EvictWord(a) => a < |st.mem|
    case Outside(s) => s.word < |st.mem| && s.Fits() && !Held(st, s.word)
    case Crash => true
  }

  /** The stores of a transaction whose closing head becomes durable. */
  function Committed(spec: seq<Word>, x: Journal): seq<Word>
    requires x.Shape()
  {
    seq(|spec|, a requires 0 <= a < |spec| => if a in x.words then Value(spec[a], a, x.stores) else spec[a])
  }

  function Rest(x: Journal): Journal {
    x.(phase := Idle, words := [], before := [], stores := [], logged := 0, done := 0)
  }

  /** A journal as the next mount leaves it. */
  function Reset(x: Journal): Journal {
    Rest(x).(head := x.phead, tail := x.phead, ptail := x.phead, vslots := x.pslots, base := x.phead)
  }

  ghost function Apply(st: St, s: Step): St
    requires Shape(st) && Enabled(st, s)
  {
    match s
    case Begin(j, words, stores) =>
      var x := st.js[j];
      var before := seq(|words|, k requires 0 <= k < |words| => assert words[k] in words; st.mem[words[k]]);
      st.(js := st.js[j := x.(phase := Logging, base := x.head, words := words, stores := stores, logged := 0, done := 0, before := before)])
    case Log(j) =>
      var x := st.js[j];
      var i := At(x.base, x.logged, |x.vslots|);
      var e := Entry(x.words[x.logged], st.mem[x.words[x.logged]]);
      st.(js := st.js[j := x.(vslots := x.vslots[i := e], logged := x.logged + 1)])
    case LogFence(j) => st.(js := st.js[j := st.js[j].(phase := Logged)])
    case SetTail(j) =>
      var x := st.js[j];
      st.(js := st.js[j := x.(tail := At(x.base, x.logged, |x.vslots|), phase := Opening)])
    case TailFence(j) => st.(js := st.js[j := st.js[j].(phase := Active)])
    case DoStore(j) =>
      var x := st.js[j];
      var s := x.stores[x.done];
      st.(mem := st.mem[s.word := Patch(st.mem[s.word], s)], js := st.js[j := x.(done := x.done + 1)])
    case StoreFence(j) => st.(js := st.js[j := st.js[j].(phase := Stored)])
    case SetHead(j) =>
      var x := st.js[j];
      st.(js := st.js[j := x.(head := x.tail, phase := Closing)])
    case HeadFence(j) => st.(js := st.js[j := Rest(st.js[j])])
    case EvictSlot(j, i) =>
      var x := st.js[j];
      st.(js := st.js[j := x.(pslots := x.pslots[i := x.vslots[i]])])
    case EvictPair(j) =>
      var x := st.js[j];
      var x' := x.(phead := x.head, ptail := x.tail);
      st.(js := st.js[j := x'], spec := if x'.Closed() && !x.Closed() then Committed(st.spec, x) else st.spec)
    case EvictWord(a) =>
      st.(pm := st.pm[a := st.mem[a]], spec := if Held(st, a) then st.spec else st.spec[a := st.mem[a]])
    case Outside(s) => st.(mem := st.mem[s.word := Patch(st.mem[s.word], s)])
    case Crash =>
      var data := Recovered(st);
      St(data, data, st.spec, seq(|st.js|, j requires 0 <= j < |st.js| => Reset(st.js[j])))
  }

  // ---------------------------------------------------------------- invariant

  /** Where the pointers stand in each phase. */
  predicate PairOk(x: Journal)
    requires x.Shape()
  {
    var end := At(x.base, x.logged, |x.vslots|);
    match x.phase
    case Idle => x.head == x.tail == x.phead == x.ptail && x.words == []
    case Logging => x.head == x.tail == x.phead == x.ptail == x.base && 0 < |x.words|
    case Logged => x.head == x.tail == x.phead == x.ptail == x.base && x.logged == |x.words| > 0
    case Opening => x.head == x.phead == x.base && x.tail == end && (x.ptail == end || x.ptail == x.base) && x.logged == |x.words| > 0
    case Active => x.head == x.phead == x.base && x.tail == x.ptail == end && x.logged == |x.words| > 0
    case Stored => x.head == x.phead == x.base && x.tail == x.ptail == end && x.logged == |x.words| > 0
    case Closing => x.head == x.tail == x.ptail == end && (x.phead == end || x.phead == x.base) && x.logged == |x.words| > 0
  }

  /** The written slots hold the words as they were before the transaction. */
  ghost predicate EntriesOk(x: Journal)
    requires x.Shape()
  {
    forall k: nat | k < x.logged ::
      var i := At(x.base, k, |x.vslots|);
      && x.vslots[i] == Entry(x.words[k], x.before[k])
      && (x.phase == Idle || x.phase == Logging || x.pslots[i] == x.vslots[i])
  }

  /** The journaled words: in place so many stores, on the medium at the fences, before or after in `spec`. */
  ghost predicate WordOk(mem: seq<Word>, pm: seq<Word>, spec: seq<Word>, x: Journal, k: nat)
    requires x.Shape() && |mem| == |pm| == |spec| && k < |x.words|
  {
    var a := x.words[k];
    && a < |mem|
    && spec[a] == (if x.Closed() then Value(x.before[k], a, x.stores) else x.before[k])
    && mem[a] == Value(x.before[k], a, x.stores[..x.done])
    && (x.phase == Active || pm[a] == mem[a])
  }

  ghost predicate JournalOk(mem: seq<Word>, pm: seq<Word>, spec: seq<Word>, x: Journal)
    requires x.Shape() && |mem| == |pm| == |spec|
  {
    && PairOk(x) && EntriesOk(x) && Covered(x.words, x.stores)
    && (x.phase == Stored || x.phase == Closing ==> x.done == |x.stores|)
    && (x.phase == Active || x.phase == Stored || x.phase == Closing || x.done == 0)
    && forall k: nat | k < |x.words| :: WordOk(mem, pm, spec, x, k)
  }

  ghost predicate Disjoint(js: seq<Journal>) {
    forall i, j, a | 0 <= i < j < |js| :: !(a in js[i].words && a in js[j].words)
  }

  ghost predicate FreeOk(st: St)
    requires Shape(st)
  {
    forall a: nat | a < |st.pm| :: Held(st, a) || st.pm[a] == st.spec[a]
  }

  ghost predicate Inv(st: St) {
    && Shape(st)
    && (forall j :: 0 <= j < |st.js| ==> JournalOk(st.mem, st.pm, st.spec, st.js[j]))
    && Disjoint(st.js) && FreeOk(st)
  }

  /** Empty journals, as the first mount lays them out. */
  function Init(n: nat, at: seq<nat>, data: seq<Word>): St
    requires n > 0
  {
    var z := Entry(0, [0, 0, 0, 0, 0, 0, 0, 0]);
    var slots := seq(n, _ => z);
    St(data, data, data, seq(|at|, i requires 0 <= i < |at| =>
      var h := at[i] % n; Journal(h, h, h, h, slots, slots, Idle, h, [], [], 0, [], 0)))
  }

  lemma InitInv(n: nat, at: seq<nat>, data: seq<Word>)
    requires n > 0
    ensures Inv(Init(n, at, data))
  {
  }
}
