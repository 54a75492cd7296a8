/**
 The journaled sections of create, link, unlink and rename: what they journal, what they store, and the
 ring that holds the journal, addressed in bytes.
 */
module LiteJournalOps {
  import opened Common
  import opened LiteJournal
  import LiteAtomicity

  const PAGE: nat := 4096
  const ENTRY: nat := 32
  const SLOTS: nat := 128

  // ---------------------------------------------------------------- layout

  const VALID: nat := 1
  const LOG_TAIL: nat := 72
  const DELETE_EPOCH: nat := 104
  const REASSIGNED: nat := 2
  const INVALID: nat := 3
  const DENTRY_CSUM: nat := 12
  const DENTRY_INO: nat := 16

  /** The aligned word a field lies in. */
  function WordOf(addr: nat): nat { addr / 8 }

  function Put8(addr: nat, value: Word): Store { Store(WordOf(addr), addr % 8, value) }

  function Put1(addr: nat, value: Byte): Store { Store(WordOf(addr), addr % 8, [value]) }

  function Get8(data: seq<Word>, addr: nat): Word
    requires WordOf(addr) < |data|
  {
    data[WordOf(addr)]
  }

  function Get1(data: seq<Word>, addr: nat): Byte
    requires WordOf(addr) < |data|
  {
    data[WordOf(addr)][addr % 8]
  }

  predicate Aligned(addr: nat) { addr % 8 == 0 }

  // ---------------------------------------------------------------- the ring in bytes

  /** The next entry, starting over at the end of the page. */
  function NextLiteJournal(curr: nat): nat {
    if curr % PAGE + ENTRY >= PAGE then curr - curr % PAGE else curr + ENTRY
  }

  function SlotOf(curr: nat): (i: nat)
    ensures i < SLOTS
  {
    curr % PAGE / ENTRY
  }

  predicate EntryAddr(curr: nat) { curr % ENTRY == 0 }

  predicate SamePage(a: nat, b: nat) { a / PAGE == b / PAGE }

  /** Every slot of the page is used, and the successor of the last one is the first. */
  lemma NextSlot(curr: nat)
    requires EntryAddr(curr)
    ensures EntryAddr(NextLiteJournal(curr)) && SamePage(NextLiteJournal(curr), curr)
    ensures SlotOf(NextLiteJournal(curr)) == At(SlotOf(curr), 1, SLOTS)
  {
    var p, i := curr / PAGE, SlotOf(curr);
    assert curr == PAGE * p + curr % PAGE && curr % PAGE == ENTRY * i;
    if i + 1 == SLOTS {
      assert NextLiteJournal(curr) == PAGE * p;
    } else {
      assert NextLiteJournal(curr) == PAGE * p + ENTRY * (i + 1);
    }
  }

  lemma SlotDetermines(a: nat, b: nat)
    requires EntryAddr(a) && EntryAddr(b) && SamePage(a, b) && SlotOf(a) == SlotOf(b)
    ensures a == b
  {
    assert a % PAGE == ENTRY * SlotOf(a) && b % PAGE == ENTRY * SlotOf(b);
  }

  lemma AtNext(i: nat, k: nat)
    requires i < SLOTS && k < SLOTS
    ensures At(At(i, k, SLOTS), 1, SLOTS) == At(i, k + 1, SLOTS)
  {
  }

  /** A stretch of bytes handed to the cache flush. */
  datatype Stretch = Stretch(from: nat, len: nat)
  {
    predicate Has(b: nat) { from <= b < from + len }
  }

  /** The flushed stretches: straight on, or to the end of the page and from its start. */
  function FlushJournalInBatch(head: nat, tail: nat): seq<Stretch> {
    if head < tail then [Stretch(head, tail - head)]
    else [Stretch(head, PAGE - head % PAGE), Stretch(tail - tail % PAGE, tail % PAGE)]
  }

  ghost predicate Flushed(head: nat, tail: nat, b: nat) {
    exists s <- FlushJournalInBatch(head, tail) :: s.Has(b)
  }

  lemma InPage(x: nat)
    ensures PAGE * (x / PAGE) + ENTRY * SlotOf(x) <= x < PAGE * (x / PAGE) + ENTRY * (SlotOf(x) + 1)
    ensures EntryAddr(x) ==> x == PAGE * (x / PAGE) + ENTRY * SlotOf(x)
    ensures x - x % PAGE == PAGE * (x / PAGE)
  {
  }

  lemma FlushedSlots(head: nat, tail: nat, b: nat)
    requires EntryAddr(head) && EntryAddr(tail) && SamePage(head, tail) && SamePage(b, head)
    ensures Flushed(head, tail, b) <==>
      if SlotOf(head) < SlotOf(tail) then SlotOf(head) <= SlotOf(b) < SlotOf(tail)
      else SlotOf(head) <= SlotOf(b) || SlotOf(b) < SlotOf(tail)
  {
    InPage(head);
    InPage(tail);
    InPage(b);
    var f := FlushJournalInBatch(head, tail);
    if head < tail {
      assert f == [Stretch(head, tail - head)] && f[0] in f;
    } else {
      assert f[0] in f && f[1] in f;
      assert f == [f[0], f[1]];
    }
  }

  /** The flush before the tail moves reaches exactly the entries from head to tail. */
  lemma FlushCovers(head: nat, tail: nat, c: nat, b: nat)
    requires EntryAddr(head) && EntryAddr(tail) && SamePage(head, tail) && 0 < c < SLOTS
    requires SlotOf(tail) == At(SlotOf(head), c, SLOTS) && SamePage(b, head)
    ensures Flushed(head, tail, b) <==> exists k: nat :: k < c && SlotOf(b) == At(SlotOf(head), k, SLOTS)
  {
    hide SlotOf, EntryAddr, SamePage, Flushed;
    FlushedSlots(head, tail, b);
    var h, i := SlotOf(head), SlotOf(b);
    var k := Count(h, i, SLOTS);
    assert At(h, k, SLOTS) == i;
  }

  // ---------------------------------------------------------------- what is journaled

  function InodeWords(pi: nat, newInode: bool, invalidate: bool, isDir: bool): seq<nat> {
    if isDir then [WordOf(pi + LOG_TAIL)]
    else if newInode then [WordOf(pi + VALID)]
    else [WordOf(pi + LOG_TAIL)] + if invalidate then [WordOf(pi + VALID), WordOf(pi + DELETE_EPOCH)] else []
  }

  function DentryWords(de: nat): seq<nat> {
    [WordOf(de + DENTRY_INO), WordOf(de + DENTRY_CSUM), WordOf(de + REASSIGNED), WordOf(de + INVALID)]
  }

  function InodeTransactionWords(pi: nat, dir: nat, newInode: bool, invalidate: bool): seq<nat> {
    InodeWords(pi, newInode, invalidate, false) + InodeWords(dir, newInode, invalidate, true)
  }

  /** The inode a rename replaces: its dentry is retired, and it dies with its last link. */
  datatype Replaced = Replaced(pi: nat, dentry: nat, invalidate: bool, tail: Word)

  datatype Rename = Rename(
    oldPi: nat, oldTail: Word, oldDir: nat, oldDirTail: Word, newDir: nat, newDirTail: Word,
    oldDentry: nat, father: Option<nat>, newIno: Word, replaced: Option<Replaced>, epoch: Word)
  {
    predicate Placed() {
      && Aligned(oldPi) && Aligned(oldDir) && Aligned(newDir) && Aligned(oldDentry)
      && (father.Some? ==> Aligned(father.value))
      && (replaced.Some? ==> Aligned(replaced.value.pi) && Aligned(replaced.value.dentry))
    }
  }

  function ReplacedWords(x: Option<Replaced>): seq<nat> {
    if x.Some? then InodeWords(x.value.pi, false, x.value.invalidate, false) else []
  }

  function NewDirWords(oldDir: nat, newDir: nat): seq<nat> {
    if oldDir != newDir then InodeWords(newDir, false, false, true) else []
  }

  function FatherWords(father: Option<nat>): seq<nat> {
    if father.Some? then DentryWords(father.value) else []
  }

  function ReplacedDentryWords(x: Option<Replaced>): seq<nat> {
    if x.Some? then DentryWords(x.value.dentry) else []
  }

  function RenameWords(r: Rename): seq<nat> {
    InodeWords(r.oldPi, false, false, false)
    + InodeWords(r.oldDir, false, false, true)
    + ReplacedWords(r.replaced)
    + NewDirWords(r.oldDir, r.newDir)
    + FatherWords(r.father)
    + ReplacedDentryWords(r.replaced)
    + DentryWords(r.oldDentry)
  }

  // ---------------------------------------------------------------- what is stored

  function CreateStores(pi: nat, dir: nat, dirTail: Word): seq<Store> {
    [Put8(dir + LOG_TAIL, dirTail), Put1(pi + VALID, 1)]
  }

  function LinkStores(pi: nat, dir: nat, tail: Word, dirTail: Word, invalidate: bool, epoch: Word): seq<Store> {
    (if invalidate then [Put1(pi + VALID, 0), Put8(pi + DELETE_EPOCH, epoch)] else [])
    + [Put8(pi + LOG_TAIL, tail), Put8(dir + LOG_TAIL, dirTail)]
  }

  function RetireStores(x: Option<Replaced>): seq<Store> {
    if x.Some? then [Put1(x.value.dentry + REASSIGNED, 1)] else []
  }

  function NewDirStores(oldDir: nat, newDir: nat, tail: Word): seq<Store> {
    if oldDir != newDir then [Put8(newDir + LOG_TAIL, tail)] else []
  }

  function FatherStores(father: Option<nat>, ino: Word): seq<Store> {
    if father.Some? then [Put8(father.value + DENTRY_INO, ino)] else []
  }

  function ReplacedStores(x: Option<Replaced>, epoch: Word): seq<Store> {
    if x.None? then []
    else
      (if x.value.invalidate then [Put1(x.value.pi + VALID, 0), Put8(x.value.pi + DELETE_EPOCH, epoch)] else [])
      + [Put8(x.value.pi + LOG_TAIL, x.value.tail)]
  }

  function RenameStores(r: Rename): seq<Store> {
    RetireStores(r.replaced)
    + [Put1(r.oldDentry + REASSIGNED, 1)]
    + [Put8(r.oldPi + LOG_TAIL, r.oldTail)]
    + [Put8(r.oldDir + LOG_TAIL, r.oldDirTail)]
    + NewDirStores(r.oldDir, r.newDir, r.newDirTail)
    + FatherStores(r.father, r.newIno)
    + ReplacedStores(r.replaced, r.epoch)
  }

  // ---------------------------------------------------------------- stores stay within what is journaled

  lemma Both(w: seq<nat>, s: seq<Store>, s': seq<Store>)
    requires Covered(w, s) && Covered(w, s')
    ensures Covered(w, s + s')
  {
  }

  lemma Within(a: seq<nat>, w: seq<nat>, b: seq<nat>, s: seq<Store>)
    requires Covered(w, s)
    ensures Covered(a + w + b, s)
  {
  }

  lemma CreateCovered(pi: nat, dir: nat, dirTail: Word)
    requires Aligned(pi) && Aligned(dir)
    ensures Covered(InodeTransactionWords(pi, dir, true, false), CreateStores(pi, dir, dirTail))
    ensures |InodeTransactionWords(pi, dir, true, false)| == 2
  {
    var w := InodeTransactionWords(pi, dir, true, false);
    assert w[0] == WordOf(pi + VALID) && w[1] == WordOf(dir + LOG_TAIL);
  }

  lemma LinkCovered(pi: nat, dir: nat, tail: Word, dirTail: Word, invalidate: bool, epoch: Word)
    requires Aligned(pi) && Aligned(dir)
    ensures Covered(InodeTransactionWords(pi, dir, false, invalidate), LinkStores(pi, dir, tail, dirTail, invalidate, epoch))
    ensures 2 <= |InodeTransactionWords(pi, dir, false, invalidate)| <= 4
  {
    var w := InodeTransactionWords(pi, dir, false, invalidate);
    assert w[0] == WordOf(pi + LOG_TAIL) && w[|w| - 1] == WordOf(dir + LOG_TAIL);
    if invalidate {
      assert w[1] == WordOf(pi + VALID) && w[2] == WordOf(pi + DELETE_EPOCH);
    }
  }

  lemma DentryCovered(de: nat)
    requires Aligned(de)
    ensures Covered(DentryWords(de), [Put1(de + REASSIGNED, 1)]) && |DentryWords(de)| == 4
  {
    assert DentryWords(de)[2] == WordOf(de + REASSIGNED);
  }

  lemma RetireCovered(x: Option<Replaced>)
    requires x.Some? ==> Aligned(x.value.dentry)
    ensures Covered(ReplacedDentryWords(x), RetireStores(x)) && |ReplacedDentryWords(x)| <= 4
  {
    if x.Some? { DentryCovered(x.value.dentry); }
  }

  lemma FatherCovered(father: Option<nat>, ino: Word)
    requires father.Some? ==> Aligned(father.value)
    ensures Covered(FatherWords(father), FatherStores(father, ino)) && |FatherWords(father)| <= 4
  {
    if father.Some? { assert DentryWords(father.value)[0] == WordOf(father.value + DENTRY_INO); }
  }

  lemma TailCovered(pi: nat, tail: Word, isDir: bool)
    requires Aligned(pi)
    ensures Covered(InodeWords(pi, false, false, isDir), [Put8(pi + LOG_TAIL, tail)])
    ensures |InodeWords(pi, false, false, isDir)| == 1
  {
    assert InodeWords(pi, false, false, isDir)[0] == WordOf(pi + LOG_TAIL);
  }

  lemma NewDirCovered(oldDir: nat, newDir: nat, tail: Word)
    requires Aligned(newDir)
    ensures Covered(NewDirWords(oldDir, newDir), NewDirStores(oldDir, newDir, tail)) && |NewDirWords(oldDir, newDir)| <= 1
  {
    TailCovered(newDir, tail, true);
  }

  lemma ReplacedCovered(x: Option<Replaced>, epoch: Word)
    requires x.Some? ==> Aligned(x.value.pi)
    ensures Covered(ReplacedWords(x), ReplacedStores(x, epoch)) && |ReplacedWords(x)| <= 3
  {
    if x.Some? {
      var w := ReplacedWords(x);
      assert w[0] == WordOf(x.value.pi + LOG_TAIL);
      if x.value.invalidate { assert w[1] == WordOf(x.value.pi + VALID) && w[2] == WordOf(x.value.pi + DELETE_EPOCH); }
    }
  }

  /** Rename journals at least six and at most eighteen words, and stores to no other. */
  lemma RenameCovered(r: Rename)
    requires r.Placed()
    ensures Covered(RenameWords(r), RenameStores(r))
    ensures 6 <= |RenameWords(r)| <= 18
  {
    hide Covered, InodeWords, DentryWords, ReplacedWords, NewDirWords, FatherWords, ReplacedDentryWords, Put1, Put8,
         RetireStores, NewDirStores, FatherStores, ReplacedStores;
    TailCovered(r.oldPi, r.oldTail, false);
    TailCovered(r.oldDir, r.oldDirTail, true);
    ReplacedCovered(r.replaced, r.epoch);
    NewDirCovered(r.oldDir, r.newDir, r.newDirTail);
    FatherCovered(r.father, r.newIno);
    RetireCovered(r.replaced);
    DentryCovered(r.oldDentry);

    var x, y := InodeWords(r.oldPi, false, false, false), InodeWords(r.oldDir, false, false, true);
    var z, u := ReplacedWords(r.replaced), NewDirWords(r.oldDir, r.newDir);
    var f, d, e := FatherWords(r.father), ReplacedDentryWords(r.replaced), DentryWords(r.oldDentry);
    var w := RenameWords(r);
    assert w == [] + x + (y + z + u + f + d + e);
    assert w == x + y + (z + u + f + d + e);
    assert w == x + y + z + (u + f + d + e);
    assert w == x + y + z + u + (f + d + e);
    assert w == x + y + z + u + f + (d + e);
    assert w == x + y + z + u + f + d + e + [];
    Within([], x, y + z + u + f + d + e, [Put8(r.oldPi + LOG_TAIL, r.oldTail)]);
    Within(x, y, z + u + f + d + e, [Put8(r.oldDir + LOG_TAIL, r.oldDirTail)]);
    Within(x + y, z, u + f + d + e, ReplacedStores(r.replaced, r.epoch));
    Within(x + y + z, u, f + d + e, NewDirStores(r.oldDir, r.newDir, r.newDirTail));
    Within(x + y + z + u, f, d + e, FatherStores(r.father, r.newIno));
    Within(x + y + z + u + f, d, e, RetireStores(r.replaced));
    Within(x + y + z + u + f + d, e, [], [Put1(r.oldDentry + REASSIGNED, 1)]);

    var s := RetireStores(r.replaced);
    Both(w, s, [Put1(r.oldDentry + REASSIGNED, 1)]);
    s := s + [Put1(r.oldDentry + REASSIGNED, 1)];
    Both(w, s, [Put8(r.oldPi + LOG_TAIL, r.oldTail)]);
    s := s + [Put8(r.oldPi + LOG_TAIL, r.oldTail)];
    Both(w, s, [Put8(r.oldDir + LOG_TAIL, r.oldDirTail)]);
    s := s + [Put8(r.oldDir + LOG_TAIL, r.oldDirTail)];
    Both(w, s, NewDirStores(r.oldDir, r.newDir, r.newDirTail));
    s := s + NewDirStores(r.oldDir, r.newDir, r.newDirTail);
    Both(w, s, FatherStores(r.father, r.newIno));
    s := s + FatherStores(r.father, r.newIno);
    Both(w, s, ReplacedStores(r.replaced, r.epoch));
  }

  /** The words of a section are free, durable, and within the device. */
  ghost predicate Quiet(st: St, words: seq<nat>)
    requires Shape(st)
  {
    forall a <- words :: a < |st.mem| && !Held(st, a) && st.pm[a] == st.mem[a]
  }

  /** On an idle journal each of the three sections is a transaction the state machine admits. */
  lemma SectionsMayBegin(st: St, j: nat, r: Rename, tail: Word, invalidate: bool)
    requires Shape(st) && j < |st.js| && st.js[j].phase == Idle && |st.js[j].vslots| == SLOTS && r.Placed()
    ensures Quiet(st, RenameWords(r)) ==> Enabled(st, Begin(j, RenameWords(r), RenameStores(r)))
    ensures var w := InodeTransactionWords(r.oldPi, r.oldDir, true, false);
            Quiet(st, w) ==> Enabled(st, Begin(j, w, CreateStores(r.oldPi, r.oldDir, r.oldDirTail)))
    ensures var w := InodeTransactionWords(r.oldPi, r.oldDir, false, invalidate);
            Quiet(st, w) ==> Enabled(st, Begin(j, w, LinkStores(r.oldPi, r.oldDir, tail, r.oldDirTail, invalidate, r.epoch)))
  {
    hide RenameWords, RenameStores, InodeTransactionWords, CreateStores, LinkStores, Covered;
    RenameCovered(r);
    CreateCovered(r.oldPi, r.oldDir, r.oldDirTail);
    LinkCovered(r.oldPi, r.oldDir, tail, r.oldDirTail, invalidate, r.epoch);
  }
}
