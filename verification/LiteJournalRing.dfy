/** One CPU's lite journal, and the journaled sections of the directory operations, in place. */
module LiteJournalRing {
  import opened Common
  import opened LiteJournal
  import opened LiteJournalOps
  import LiteAtomicity

  // ---------------------------------------------------------------- stores

  function Performed(data: seq<Word>, stores: seq<Store>): (r: seq<Word>)
    requires AllFit(stores)
    ensures |r| == |data|
  {
    seq(|data|, a requires 0 <= a < |data| => Value(data[a], a, stores))
  }

  lemma PerformedSnoc(data: seq<Word>, stores: seq<Store>, s: Store)
    requires AllFit(stores) && s.Fits() && s.word < |data|
    ensures AllFit(stores + [s])
    ensures Performed(data, stores + [s]) == Performed(data, stores)[s.word := Patch(Performed(data, stores)[s.word], s)]
  {
    assert (stores + [s])[..|stores|] == stores;
  }

  predicate Touches(s: Store, a: nat, p: nat) { s.word == a && s.at <= p < s.at + |s.bytes| }

  lemma {:induction false} Unwritten(w: Word, a: nat, stores: seq<Store>, p: nat)
    requires AllFit(stores) && p < 8 && forall i :: 0 <= i < |stores| ==> !Touches(stores[i], a, p)
    ensures Value(w, a, stores)[p] == w[p]
  {
    if stores != [] {
      Unwritten(w, a, stores[..|stores| - 1], p);
    }
  }

  /** Where every store to a byte is the same, it decides the byte. */
  lemma {:induction false} OnlyWriter(w: Word, a: nat, stores: seq<Store>, s: Store, p: nat)
    requires AllFit(stores) && s in stores && p < 8 && Touches(s, a, p)
    requires forall t | t in stores && Touches(t, a, p) :: t == s
    ensures Value(w, a, stores)[p] == s.bytes[p - s.at]
  {
    var n := |stores| - 1;
    if !Touches(stores[n], a, p) {
      assert stores[n] != s;
      OnlyWriter(w, a, stores[..n], s, p);
    }
  }

  /** Byte `b` of the device is one that `s` stores. */
  predicate Stores(s: Store, b: nat) { Touches(s, WordOf(b), b % 8) }

  predicate Span(b: nat, addr: nat, len: nat) { addr <= b < addr + len }

  lemma FieldAligned(base: nat, field: nat)
    requires Aligned(base) && Aligned(field)
    ensures Aligned(base + field)
  {
  }

  /** The 8-byte field at `field` of an aligned inode or dentry. */
  lemma FieldStores(base: nat, field: nat, value: Word, b: nat)
    requires Aligned(base) && Aligned(field)
    ensures Put8(base + field, value).Fits() && (Stores(Put8(base + field, value), b) <==> Span(b, base + field, 8))
  {
    FieldAligned(base, field);
    Put8Stores(base + field, value, b);
  }

  lemma Put8Stores(addr: nat, value: Word, b: nat)
    requires Aligned(addr)
    ensures Put8(addr, value).Fits() && (Stores(Put8(addr, value), b) <==> Span(b, addr, 8))
  {
  }

  lemma Put1Stores(addr: nat, value: Byte, b: nat)
    ensures Put1(addr, value).Fits() && (Stores(Put1(addr, value), b) <==> b == addr)
  {
  }

  lemma Kept(data: seq<Word>, stores: seq<Store>, b: nat)
    requires AllFit(stores) && WordOf(b) < |data| && forall t | t in stores :: !Stores(t, b)
    ensures Get1(Performed(data, stores), b) == Get1(data, b)
  {
    assert forall i :: 0 <= i < |stores| ==> !Stores(stores[i], b);
    Unwritten(data[WordOf(b)], WordOf(b), stores, b % 8);
  }

  lemma Shows1(data: seq<Word>, stores: seq<Store>, addr: nat, value: Byte)
    requires AllFit(stores) && WordOf(addr) < |data| && Put1(addr, value) in stores
    requires forall t | t in stores && Stores(t, addr) :: t == Put1(addr, value)
    ensures Get1(Performed(data, stores), addr) == value
  {
    OnlyWriter(data[WordOf(addr)], WordOf(addr), stores, Put1(addr, value), addr % 8);
  }

  lemma Shows8(data: seq<Word>, stores: seq<Store>, addr: nat, value: Word)
    requires AllFit(stores) && Aligned(addr) && WordOf(addr) < |data| && Put8(addr, value) in stores
    requires forall t, b: nat | t in stores && Span(b, addr, 8) && Stores(t, b) :: t == Put8(addr, value)
    ensures Get8(Performed(data, stores), addr) == value
  {
    var v := Performed(data, stores)[WordOf(addr)];
    forall p: nat | p < 8 ensures v[p] == value[p] {
      assert WordOf(addr + p) == WordOf(addr) && (addr + p) % 8 == p && Span(addr + p, addr, 8);
      assert forall t | t in stores && Touches(t, WordOf(addr), p) :: Stores(t, addr + p);
      OnlyWriter(data[WordOf(addr)], WordOf(addr), stores, Put8(addr, value), p);
    }
  }

  predicate Clear(a: nat, n: nat, b: nat, m: nat) { a + n <= b || b + m <= a }

  const INODE: nat := 128

  /** The stores of a link or unlink, each with the bytes it stores. */
  lemma LinkStoresAre(pi: nat, dir: nat, tail: Word, dirTail: Word, invalidate: bool, epoch: Word, s: Store, b: nat)
    requires Aligned(pi) && Aligned(dir)
    ensures s in LinkStores(pi, dir, tail, dirTail, invalidate, epoch) <==>
      || s == Put8(pi + LOG_TAIL, tail) || s == Put8(dir + LOG_TAIL, dirTail)
      || (invalidate && (s == Put1(pi + VALID, 0) || s == Put8(pi + DELETE_EPOCH, epoch)))
    ensures Stores(Put8(pi + LOG_TAIL, tail), b) <==> Span(b, pi + LOG_TAIL, 8)
    ensures Stores(Put8(dir + LOG_TAIL, dirTail), b) <==> Span(b, dir + LOG_TAIL, 8)
    ensures Stores(Put1(pi + VALID, 0), b) <==> b == pi + VALID
    ensures Stores(Put8(pi + DELETE_EPOCH, epoch), b) <==> Span(b, pi + DELETE_EPOCH, 8)
  {
    hide Put1, Put8, Stores, Aligned;
    FieldsAligned();
    FieldStores(pi, LOG_TAIL, tail, b);
    FieldStores(dir, LOG_TAIL, dirTail, b);
    Put1Stores(pi + VALID, 0, b);
    FieldStores(pi, DELETE_EPOCH, epoch, b);
  }

  /** No byte is stored twice. */
  lemma LinkAlone(pi: nat, dir: nat, tail: Word, dirTail: Word, invalidate: bool, epoch: Word, s: Store, t: Store, b: nat)
    requires Aligned(pi) && Aligned(dir) && Clear(pi, INODE, dir, INODE) && Stores(s, b) && Stores(t, b)
    requires s in LinkStores(pi, dir, tail, dirTail, invalidate, epoch) && t in LinkStores(pi, dir, tail, dirTail, invalidate, epoch)
    ensures s == t
  {
    hide Put1, Put8, Stores, Aligned, LinkStores;
    LinkStoresAre(pi, dir, tail, dirTail, invalidate, epoch, s, b);
    LinkStoresAre(pi, dir, tail, dirTail, invalidate, epoch, t, b);
  }

  lemma LinkFits(pi: nat, dir: nat, tail: Word, dirTail: Word, invalidate: bool, epoch: Word, n: nat)
    requires Aligned(pi) && Aligned(dir) && WordOf(pi + DELETE_EPOCH) < n && WordOf(dir + LOG_TAIL) < n
    ensures AllFit(LinkStores(pi, dir, tail, dirTail, invalidate, epoch))
    ensures WordOf(pi + LOG_TAIL) < n && WordOf(pi + VALID) < n
  {
  }

  lemma LinkShows8(data: seq<Word>, pi: nat, dir: nat, tail: Word, dirTail: Word, invalidate: bool, epoch: Word, base: nat, field: nat, value: Word)
    requires Aligned(pi) && Aligned(dir) && Clear(pi, INODE, dir, INODE) && Aligned(base) && Aligned(field) && WordOf(base + field) < |data|
    requires AllFit(LinkStores(pi, dir, tail, dirTail, invalidate, epoch)) && Put8(base + field, value) in LinkStores(pi, dir, tail, dirTail, invalidate, epoch)
    ensures Get8(Performed(data, LinkStores(pi, dir, tail, dirTail, invalidate, epoch)), base + field) == value
  {
    hide Put8, Stores, Aligned, LinkStores;
    var stores := LinkStores(pi, dir, tail, dirTail, invalidate, epoch);
    FieldAligned(base, field);
    forall t, b: nat | t in stores && Span(b, base + field, 8) && Stores(t, b) ensures t == Put8(base + field, value) {
      FieldStores(base, field, value, b);
      LinkAlone(pi, dir, tail, dirTail, invalidate, epoch, Put8(base + field, value), t, b);
    }
    Shows8(data, stores, base + field, value);
  }

  /** Linking and unlinking: both logs are extended, with the last name the inode dies in this epoch, and nothing else changes. */
  lemma LinkResult(data: seq<Word>, pi: nat, dir: nat, tail: Word, dirTail: Word, invalidate: bool, epoch: Word)
    requires Aligned(pi) && Aligned(dir) && Clear(pi, INODE, dir, INODE)
    requires WordOf(pi + DELETE_EPOCH) < |data| && WordOf(dir + LOG_TAIL) < |data|
    ensures AllFit(LinkStores(pi, dir, tail, dirTail, invalidate, epoch))
    ensures WordOf(pi + LOG_TAIL) < |data| && WordOf(pi + VALID) < |data|
    ensures var end := Performed(data, LinkStores(pi, dir, tail, dirTail, invalidate, epoch));
            && Get8(end, pi + LOG_TAIL) == tail && Get8(end, dir + LOG_TAIL) == dirTail
            && (invalidate ==> Get1(end, pi + VALID) == 0 && Get8(end, pi + DELETE_EPOCH) == epoch)
            && forall b: nat | WordOf(b) < |data| && !Span(b, pi + LOG_TAIL, 8) && !Span(b, dir + LOG_TAIL, 8)
                               && (invalidate ==> b != pi + VALID && !Span(b, pi + DELETE_EPOCH, 8)) :: Get1(end, b) == Get1(data, b)
  {
    hide Put1, Put8, Stores, Performed, WordOf, Aligned, LinkStores, Clear, Span, Get1, Get8;
    LinkFits(pi, dir, tail, dirTail, invalidate, epoch, |data|);
    FieldsAligned();
    var s := LinkStores(pi, dir, tail, dirTail, invalidate, epoch);
    LinkStoresAre(pi, dir, tail, dirTail, invalidate, epoch, Put8(pi + LOG_TAIL, tail), 0);
    LinkShows8(data, pi, dir, tail, dirTail, invalidate, epoch, pi, LOG_TAIL, tail);
    LinkStoresAre(pi, dir, tail, dirTail, invalidate, epoch, Put8(dir + LOG_TAIL, dirTail), 0);
    LinkShows8(data, pi, dir, tail, dirTail, invalidate, epoch, dir, LOG_TAIL, dirTail);
    if invalidate {
      LinkStoresAre(pi, dir, tail, dirTail, invalidate, epoch, Put8(pi + DELETE_EPOCH, epoch), 0);
      LinkShows8(data, pi, dir, tail, dirTail, invalidate, epoch, pi, DELETE_EPOCH, epoch);
      var d := Put1(pi + VALID, 0);
      LinkStoresAre(pi, dir, tail, dirTail, invalidate, epoch, d, pi + VALID);
      forall t | t in s && Stores(t, pi + VALID) ensures t == d {
        LinkAlone(pi, dir, tail, dirTail, invalidate, epoch, d, t, pi + VALID);
      }
      Shows1(data, s, pi + VALID, 0);
    }
    forall b: nat | WordOf(b) < |data| && !Span(b, pi + LOG_TAIL, 8) && !Span(b, dir + LOG_TAIL, 8)
                    && (invalidate ==> b != pi + VALID && !Span(b, pi + DELETE_EPOCH, 8)) ensures Get1(Performed(data, s), b) == Get1(data, b)
    {
      forall t | t in s ensures !Stores(t, b) { LinkStoresAre(pi, dir, tail, dirTail, invalidate, epoch, t, b); }
      Kept(data, s, b);
    }
  }

  lemma FieldsAligned()
    ensures Aligned(LOG_TAIL) && Aligned(DELETE_EPOCH) && Aligned(DENTRY_INO)
  {
  }

  /** Creating: the directory's log grows by the new dentry, the inode becomes valid, and nothing else changes. */
  lemma CreateResult(data: seq<Word>, pi: nat, dir: nat, dirTail: Word)
    requires Aligned(pi) && Aligned(dir) && Clear(pi, INODE, dir, INODE)
    requires WordOf(pi + VALID) < |data| && WordOf(dir + LOG_TAIL) < |data|
    ensures AllFit(CreateStores(pi, dir, dirTail))
    ensures var end := Performed(data, CreateStores(pi, dir, dirTail));
            && Get1(end, pi + VALID) == 1 && Get8(end, dir + LOG_TAIL) == dirTail
            && forall b: nat | WordOf(b) < |data| && b != pi + VALID && !Span(b, dir + LOG_TAIL, 8) :: Get1(end, b) == Get1(data, b)
  {
    hide Put1, Put8, Stores, Performed, WordOf, Aligned;
    FieldsAligned();
    var s := CreateStores(pi, dir, dirTail);
    var x, y := Put8(dir + LOG_TAIL, dirTail), Put1(pi + VALID, 1);
    assert s == [x, y] && s[0] in s && s[1] in s;
    FieldStores(dir, LOG_TAIL, dirTail, 0);
    Put1Stores(pi + VALID, 1, 0);
    forall b: nat
      ensures (Stores(x, b) <==> Span(b, dir + LOG_TAIL, 8)) && (Stores(y, b) <==> b == pi + VALID)
    {
      FieldStores(dir, LOG_TAIL, dirTail, b);
      Put1Stores(pi + VALID, 1, b);
    }
    FieldAligned(dir, LOG_TAIL);
    Shows8(data, s, dir + LOG_TAIL, dirTail);
    Shows1(data, s, pi + VALID, 1);
    forall b: nat | WordOf(b) < |data| && b != pi + VALID && !Span(b, dir + LOG_TAIL, 8) ensures Get1(Performed(data, s), b) == Get1(data, b) {
      Kept(data, s, b);
    }
  }

  /** As far as the fields named here reach. */
  const DENTRY: nat := 24

  function Inodes(r: Rename): set<nat> {
    {r.oldPi, r.oldDir, r.newDir} + if r.replaced.Some? then {r.replaced.value.pi} else {}
  }

  function Dentries(r: Rename): set<nat> {
    {r.oldDentry} + (if r.father.Some? then {r.father.value} else {}) + if r.replaced.Some? then {r.replaced.value.dentry} else {}
  }

  /** The inodes and dentries of a rename are different ones, but for the two directories, and lie apart. */
  ghost predicate Separate(r: Rename) {
    && r.oldPi != r.oldDir && r.oldPi != r.newDir
    && (r.father.Some? ==> r.father.value != r.oldDentry)
    && (r.replaced.Some? ==> var x := r.replaced.value;
          && x.pi != r.oldPi && x.pi != r.oldDir && x.pi != r.newDir && x.dentry != r.oldDentry
          && (r.father.Some? ==> r.father.value != x.dentry))
    && (forall a, b | a in Inodes(r) && b in Inodes(r) && a != b :: Clear(a, INODE, b, INODE))
    && (forall a, b | a in Dentries(r) && b in Dentries(r) && a != b :: Clear(a, DENTRY, b, DENTRY))
    && (forall a, b | a in Inodes(r) && b in Dentries(r) :: Clear(a, INODE, b, DENTRY))
  }

  predicate Dies(r: Rename) { r.replaced.Some? && r.replaced.value.invalidate }

  /** The bytes a rename changes. */
  predicate Changed(r: Rename, b: nat) {
    || b == r.oldDentry + REASSIGNED || Span(b, r.oldPi + LOG_TAIL, 8) || Span(b, r.oldDir + LOG_TAIL, 8)
    || (r.oldDir != r.newDir && Span(b, r.newDir + LOG_TAIL, 8))
    || (r.father.Some? && Span(b, r.father.value + DENTRY_INO, 8))
    || (r.replaced.Some? && (b == r.replaced.value.dentry + REASSIGNED || Span(b, r.replaced.value.pi + LOG_TAIL, 8)))
    || (Dies(r) && (b == r.replaced.value.pi + VALID || Span(b, r.replaced.value.pi + DELETE_EPOCH, 8)))
  }

  /** One of the stores of a rename, and the bytes it stores. */
  ghost predicate StoreOf(r: Rename, s: Store) {
    || s == Put1(r.oldDentry + REASSIGNED, 1) || s == Put8(r.oldPi + LOG_TAIL, r.oldTail) || s == Put8(r.oldDir + LOG_TAIL, r.oldDirTail)
    || (r.oldDir != r.newDir && s == Put8(r.newDir + LOG_TAIL, r.newDirTail))
    || (r.father.Some? && s == Put8(r.father.value + DENTRY_INO, r.newIno))
    || (r.replaced.Some? && s == Put1(r.replaced.value.dentry + REASSIGNED, 1))
    || (r.replaced.Some? && s == Put8(r.replaced.value.pi + LOG_TAIL, r.replaced.value.tail))
    || (Dies(r) && s == Put1(r.replaced.value.pi + VALID, 0))
    || (Dies(r) && s == Put8(r.replaced.value.pi + DELETE_EPOCH, r.epoch))
  }

  lemma RenameStoresAre(r: Rename, s: Store)
    ensures s in RenameStores(r) <==> StoreOf(r, s)
  {
    hide Put1, Put8;
    assert s in RenameStores(r) <==>
      || s in RetireStores(r.replaced) || s in [Put1(r.oldDentry + REASSIGNED, 1)] || s in [Put8(r.oldPi + LOG_TAIL, r.oldTail)]
      || s in [Put8(r.oldDir + LOG_TAIL, r.oldDirTail)] || s in NewDirStores(r.oldDir, r.newDir, r.newDirTail)
      || s in FatherStores(r.father, r.newIno) || s in ReplacedStores(r.replaced, r.epoch);
  }

  /** The bytes stored by each. */
  lemma RenameSpans(r: Rename, b: nat)
    requires r.Placed()
    ensures Stores(Put1(r.oldDentry + REASSIGNED, 1), b) <==> b == r.oldDentry + REASSIGNED
    ensures Stores(Put8(r.oldPi + LOG_TAIL, r.oldTail), b) <==> Span(b, r.oldPi + LOG_TAIL, 8)
    ensures Stores(Put8(r.oldDir + LOG_TAIL, r.oldDirTail), b) <==> Span(b, r.oldDir + LOG_TAIL, 8)
    ensures Stores(Put8(r.newDir + LOG_TAIL, r.newDirTail), b) <==> Span(b, r.newDir + LOG_TAIL, 8)
    ensures r.father.Some? ==> (Stores(Put8(r.father.value + DENTRY_INO, r.newIno), b) <==> Span(b, r.father.value + DENTRY_INO, 8))
    ensures r.replaced.Some? ==> (Stores(Put1(r.replaced.value.dentry + REASSIGNED, 1), b) <==> b == r.replaced.value.dentry + REASSIGNED)
    ensures r.replaced.Some? ==> (Stores(Put8(r.replaced.value.pi + LOG_TAIL, r.replaced.value.tail), b) <==> Span(b, r.replaced.value.pi + LOG_TAIL, 8))
    ensures r.replaced.Some? ==> (Stores(Put1(r.replaced.value.pi + VALID, 0), b) <==> b == r.replaced.value.pi + VALID)
    ensures r.replaced.Some? ==> (Stores(Put8(r.replaced.value.pi + DELETE_EPOCH, r.epoch), b) <==> Span(b, r.replaced.value.pi + DELETE_EPOCH, 8))
  {
    hide Put1, Put8, Stores, Aligned;
    FieldsAligned();
    Put1Stores(r.oldDentry + REASSIGNED, 1, b);
    FieldStores(r.oldPi, LOG_TAIL, r.oldTail, b);
    FieldStores(r.oldDir, LOG_TAIL, r.oldDirTail, b);
    FieldStores(r.newDir, LOG_TAIL, r.newDirTail, b);
    if r.father.Some? { FieldStores(r.father.value, DENTRY_INO, r.newIno, b); }
    if r.replaced.Some? {
      Put1Stores(r.replaced.value.dentry + REASSIGNED, 1, b);
      FieldStores(r.replaced.value.pi, LOG_TAIL, r.replaced.value.tail, b);
      Put1Stores(r.replaced.value.pi + VALID, 0, b);
      FieldStores(r.replaced.value.pi, DELETE_EPOCH, r.epoch, b);
    }
  }

  /** No byte is stored twice. */
  lemma RenameAlone(r: Rename, s: Store, t: Store, b: nat)
    requires r.Placed() && Separate(r) && StoreOf(r, s) && StoreOf(r, t) && Stores(s, b) && Stores(t, b)
    ensures s == t && Changed(r, b)
  {
    hide Put1, Put8, Stores, Aligned;
    RenameSpans(r, b);
    assert r.oldPi in Inodes(r) && r.oldDir in Inodes(r) && r.newDir in Inodes(r) && r.oldDentry in Dentries(r);
    assert r.father.Some? ==> r.father.value in Dentries(r);
    assert r.replaced.Some? ==> r.replaced.value.pi in Inodes(r) && r.replaced.value.dentry in Dentries(r);
  }

  lemma StoreShows8(data: seq<Word>, r: Rename, base: nat, field: nat, value: Word)
    requires r.Placed() && Separate(r) && AllFit(RenameStores(r))
    requires StoreOf(r, Put8(base + field, value)) && Aligned(base) && Aligned(field) && WordOf(base + field) < |data|
    ensures Get8(Performed(data, RenameStores(r)), base + field) == value
  {
    hide RenameStores, StoreOf, Separate, Put8, Stores, Aligned;
    var s, addr := Put8(base + field, value), base + field;
    FieldAligned(base, field);
    RenameStoresAre(r, s);
    forall t, b: nat | t in RenameStores(r) && Span(b, addr, 8) && Stores(t, b) ensures t == s {
      RenameStoresAre(r, t);
      Put8Stores(addr, value, b);
      RenameAlone(r, s, t, b);
    }
    Shows8(data, RenameStores(r), addr, value);
  }

  lemma StoreShows1(data: seq<Word>, r: Rename, addr: nat, value: Byte)
    requires r.Placed() && Separate(r) && AllFit(RenameStores(r))
    requires StoreOf(r, Put1(addr, value)) && WordOf(addr) < |data|
    ensures Get1(Performed(data, RenameStores(r)), addr) == value
  {
    hide RenameStores, StoreOf, Separate, Put1, Stores;
    var s := Put1(addr, value);
    RenameStoresAre(r, s);
    Put1Stores(addr, value, addr);
    forall t | t in RenameStores(r) && Stores(t, addr) ensures t == s {
      RenameStoresAre(r, t);
      RenameAlone(r, s, t, addr);
    }
    Shows1(data, RenameStores(r), addr, value);
  }

  lemma StoreKeeps(data: seq<Word>, r: Rename, b: nat)
    requires r.Placed() && Separate(r) && AllFit(RenameStores(r)) && WordOf(b) < |data| && !Changed(r, b)
    ensures Get1(Performed(data, RenameStores(r)), b) == Get1(data, b)
  {
    hide RenameStores, StoreOf, Separate, Stores, Changed;
    forall t | t in RenameStores(r) ensures !Stores(t, b) {
      RenameStoresAre(r, t);
      if Stores(t, b) { RenameAlone(r, t, t, b); }
    }
    Kept(data, RenameStores(r), b);
  }

  /** The fields a rename stores to are on the device. */
  predicate FieldsIn(r: Rename, n: nat) {
    && WordOf(r.oldPi + LOG_TAIL) < n && WordOf(r.oldDir + LOG_TAIL) < n && WordOf(r.oldDentry + REASSIGNED) < n
    && (r.oldDir != r.newDir ==> WordOf(r.newDir + LOG_TAIL) < n)
    && (r.father.Some? ==> WordOf(r.father.value + DENTRY_INO) < n)
    && (r.replaced.Some? ==> WordOf(r.replaced.value.pi + LOG_TAIL) < n && WordOf(r.replaced.value.dentry + REASSIGNED) < n)
    && (Dies(r) ==> WordOf(r.replaced.value.pi + VALID) < n && WordOf(r.replaced.value.pi + DELETE_EPOCH) < n)
  }

  lemma StoresIn(r: Rename, n: nat)
    requires forall s | StoreOf(r, s) :: s.word < n
    ensures FieldsIn(r, n)
  {
    assert StoreOf(r, Put1(r.oldDentry + REASSIGNED, 1));
    assert StoreOf(r, Put8(r.oldPi + LOG_TAIL, r.oldTail)) && StoreOf(r, Put8(r.oldDir + LOG_TAIL, r.oldDirTail));
    if r.oldDir != r.newDir { assert StoreOf(r, Put8(r.newDir + LOG_TAIL, r.newDirTail)); }
    if r.father.Some? { assert StoreOf(r, Put8(r.father.value + DENTRY_INO, r.newIno)); }
    if r.replaced.Some? {
      assert StoreOf(r, Put1(r.replaced.value.dentry + REASSIGNED, 1));
      assert StoreOf(r, Put8(r.replaced.value.pi + LOG_TAIL, r.replaced.value.tail));
    }
    if Dies(r) {
      assert StoreOf(r, Put1(r.replaced.value.pi + VALID, 0)) && StoreOf(r, Put8(r.replaced.value.pi + DELETE_EPOCH, r.epoch));
    }
  }

  lemma FieldsFit(r: Rename, n: nat)
    requires r.Placed() && InBounds(RenameWords(r), n)
    ensures AllFit(RenameStores(r)) && FieldsIn(r, n)
  {
    hide RenameWords, RenameStores, StoreOf, FieldsIn;
    RenameCovered(r);
    CoveredFits(RenameWords(r), RenameStores(r), n);
    forall s | StoreOf(r, s) ensures s.word < n { RenameStoresAre(r, s); }
    StoresIn(r, n);
  }

  /** What a rename is to leave of `data`. */
  ghost predicate Renamed(data: seq<Word>, end: seq<Word>, r: Rename)
    requires |end| == |data| && FieldsIn(r, |data|)
  {
    && Get8(end, r.oldPi + LOG_TAIL) == r.oldTail && Get8(end, r.oldDir + LOG_TAIL) == r.oldDirTail
    && (r.oldDir != r.newDir ==> Get8(end, r.newDir + LOG_TAIL) == r.newDirTail)
    && Get1(end, r.oldDentry + REASSIGNED) == 1
    && (r.father.Some? ==> Get8(end, r.father.value + DENTRY_INO) == r.newIno)
    && (r.replaced.Some? ==> Get8(end, r.replaced.value.pi + LOG_TAIL) == r.replaced.value.tail
                             && Get1(end, r.replaced.value.dentry + REASSIGNED) == 1)
    && (Dies(r) ==> Get1(end, r.replaced.value.pi + VALID) == 0 && Get8(end, r.replaced.value.pi + DELETE_EPOCH) == r.epoch)
    && forall b: nat | WordOf(b) < |data| && !Changed(r, b) :: Get1(end, b) == Get1(data, b)
  }

  lemma ReplacedShows(data: seq<Word>, r: Rename)
    requires r.Placed() && Separate(r) && AllFit(RenameStores(r)) && FieldsIn(r, |data|) && r.replaced.Some?
    ensures var end := Performed(data, RenameStores(r));
            && Get8(end, r.replaced.value.pi + LOG_TAIL) == r.replaced.value.tail
            && Get1(end, r.replaced.value.dentry + REASSIGNED) == 1
            && (Dies(r) ==> Get1(end, r.replaced.value.pi + VALID) == 0 && Get8(end, r.replaced.value.pi + DELETE_EPOCH) == r.epoch)
  {
    hide RenameStores, Separate, Performed, WordOf, Get1, Get8, Put1, Put8, Aligned;
    FieldsAligned();
    StoreShows8(data, r, r.replaced.value.pi, LOG_TAIL, r.replaced.value.tail);
    StoreShows1(data, r, r.replaced.value.dentry + REASSIGNED, 1);
    if Dies(r) {
      StoreShows1(data, r, r.replaced.value.pi + VALID, 0);
      StoreShows8(data, r, r.replaced.value.pi, DELETE_EPOCH, r.epoch);
    }
  }

  /**
   A rename: each inode's log ends where it should, the dentries replaced are marked, the moved directory's parent
   entry names the new parent, an inode that lost its last name is dead as of this epoch, and nothing else changes.
   */
  lemma RenameResult(data: seq<Word>, r: Rename)
    requires r.Placed() && Separate(r) && InBounds(RenameWords(r), |data|)
    ensures AllFit(RenameStores(r)) && FieldsIn(r, |data|) && Renamed(data, Performed(data, RenameStores(r)), r)
  {
    hide RenameStores, RenameWords, Separate, InBounds, Performed, Changed, WordOf, Get1, Get8, Put1, Put8, Aligned;
    FieldsAligned();
    FieldsFit(r, |data|);
    StoreShows8(data, r, r.oldPi, LOG_TAIL, r.oldTail);
    StoreShows8(data, r, r.oldDir, LOG_TAIL, r.oldDirTail);
    StoreShows1(data, r, r.oldDentry + REASSIGNED, 1);
    if r.oldDir != r.newDir { StoreShows8(data, r, r.newDir, LOG_TAIL, r.newDirTail); }
    if r.father.Some? { StoreShows8(data, r, r.father.value, DENTRY_INO, r.newIno); }
    if r.replaced.Some? { ReplacedShows(data, r); }
    forall b: nat | WordOf(b) < |data| && !Changed(r, b) ensures Get1(Performed(data, RenameStores(r)), b) == Get1(data, b) {
      StoreKeeps(data, r, b);
    }
  }

  // ---------------------------------------------------------------- the journal's contents

  predicate InBounds(words: seq<nat>, n: nat) { forall k :: 0 <= k < |words| ==> words[k] < n }

  /** The ring once `words` are journaled from slot `i` on. */
  function Journaled(slots: seq<Entry>, i: nat, words: seq<nat>, data: seq<Word>): (r: seq<Entry>)
    requires |slots| == SLOTS && i < SLOTS && |words| <= SLOTS && InBounds(words, |data|)
    ensures |r| == SLOTS
  {
    if words == [] then slots else
    var n := |words| - 1;
    Journaled(slots, i, words[..n], data)[At(i, n, SLOTS) % SLOTS := Entry(words[n], data[words[n]])]
  }

  lemma {:induction false} JournaledAt(slots: seq<Entry>, i: nat, words: seq<nat>, data: seq<Word>, k: nat)
    requires |slots| == SLOTS && i < SLOTS && |words| <= SLOTS && InBounds(words, |data|) && k < SLOTS
    ensures Journaled(slots, i, words, data)[At(i, k, SLOTS)] ==
            if k < |words| then Entry(words[k], data[words[k]]) else slots[At(i, k, SLOTS)]
  {
    if words != [] {
      var n := |words| - 1;
      JournaledAt(slots, i, words[..n], data, k);
      if k != n { LiteAtomicity.AtInjective(i, k, n, SLOTS); }
    }
  }

  lemma {:induction false} JournaledMore(slots: seq<Entry>, i: nat, words: seq<nat>, more: seq<nat>, data: seq<Word>)
    requires |slots| == SLOTS && i < SLOTS && |words + more| < SLOTS && InBounds(words, |data|) && InBounds(more, |data|)
    ensures Journaled(Journaled(slots, i, words, data), At(i, |words|, SLOTS), more, data) == Journaled(slots, i, words + more, data)
  {
    if more == [] {
      assert words + more == words;
    } else {
      var n := |more| - 1;
      JournaledMore(slots, i, words, more[..n], data);
      assert (words + more)[..|words| + n] == words + more[..n];
    }
  }

  lemma {:induction false} UntouchedWord(w: Word, a: nat, stores: seq<Store>)
    requires AllFit(stores) && forall i :: 0 <= i < |stores| ==> stores[i].word != a
    ensures Value(w, a, stores) == w
  {
    if stores != [] { UntouchedWord(w, a, stores[..|stores| - 1]); }
  }

  /** However many of the stores were made, rolling the journal forward undoes them all. */
  lemma PrefixRollsBack(slots: seq<Entry>, i: nat, words: seq<nat>, stores: seq<Store>, m: nat, data: seq<Word>)
    requires |slots| == SLOTS && i < SLOTS && |words| < SLOTS && InBounds(words, |data|)
    requires Covered(words, stores) && m <= |stores|
    ensures AllFit(stores[..m])
    ensures Undo(Journaled(slots, i, words, data), i, |words|, Performed(data, stores[..m])) == data
  {
    var now := Performed(data, stores[..m]);
    var js := Journaled(slots, i, words, data);
    UndoLength(js, i, |words|, now);
    forall k | 0 <= k < |words| ensures js[At(i, k, SLOTS)] == Entry(words[k], data[words[k]]) {
      JournaledAt(slots, i, words, data, k);
    }
    forall a: nat | a < |data| ensures Undo(js, i, |words|, now)[a] == data[a] {
      UndoAt(js, i, |words|, now, a, data[a]);
      if a in words {
        var k :| 0 <= k < |words| && words[k] == a;
        assert js[At(i, k, SLOTS)].word == a;
      } else {
        UntouchedWord(data[a], a, stores[..m]);
      }
    }
  }

  // ---------------------------------------------------------------- the ring

  /** `words` have been journaled from `curr` on, and `next` is where the next entry goes. */
  predicate Holds(was: seq<Entry>, data: seq<Word>, curr: nat, words: seq<nat>, now: seq<Entry>, next: nat) {
    && |was| == SLOTS && |words| < SLOTS && InBounds(words, |data|)
    && EntryAddr(curr) && EntryAddr(next) && SamePage(next, curr)
    && SlotOf(next) == At(SlotOf(curr), |words|, SLOTS)
    && now == Journaled(was, SlotOf(curr), words, data)
  }

  lemma HoldsNone(was: seq<Entry>, data: seq<Word>, curr: nat)
    requires |was| == SLOTS && EntryAddr(curr)
    ensures Holds(was, data, curr, [], was, curr)
  {
  }

  lemma HoldsMore(was: seq<Entry>, data: seq<Word>, curr: nat, words: seq<nat>, mid: seq<Entry>, next: nat,
                  more: seq<nat>, now: seq<Entry>, end: nat)
    requires Holds(was, data, curr, words, mid, next) && Holds(mid, data, next, more, now, end) && |words| + |more| < SLOTS
    ensures Holds(was, data, curr, words + more, now, end)
  {
    JournaledMore(was, SlotOf(curr), words, more, data);
  }

  class Ring {
    var mem: array<Word>
    var slots: array<Entry>
    var head: nat
    var tail: nat

    ghost predicate Valid()
      reads this
    {
      slots.Length == SLOTS && EntryAddr(head) && EntryAddr(tail) && SamePage(tail, head)
    }

    method AppendEntryJournal(curr: nat, field: nat) returns (next: nat)
      requires Valid() && EntryAddr(curr) && WordOf(field) < mem.Length
      modifies slots
      ensures Holds(old(slots[..]), mem[..], curr, [WordOf(field)], slots[..], next)
    {
      var aligned := field - field % 8;
      NextSlot(curr);
      slots[SlotOf(curr)] := Entry(aligned / 8, mem[aligned / 8]);
      next := NextLiteJournal(curr);
      assert [WordOf(field)][..0] == [];
    }

    method AppendInodeJournal(curr: nat, pi: nat, newInode: bool, invalidate: bool, isDir: bool) returns (next: nat)
      requires Valid() && EntryAddr(curr) && InBounds(InodeWords(pi, newInode, invalidate, isDir), mem.Length)
      modifies slots
      ensures Holds(old(slots[..]), mem[..], curr, InodeWords(pi, newInode, invalidate, isDir), slots[..], next)
    {
      hide Journaled, SlotOf, SamePage, WordOf;
      ghost var was, data := slots[..], mem[..];
      ghost var w := InodeWords(pi, newInode, invalidate, isDir);
      if isDir {
        next := AppendEntryJournal(curr, pi + LOG_TAIL);
      } else if newInode {
        assert w[0] == WordOf(pi + VALID);
        next := AppendEntryJournal(curr, pi + VALID);
      } else {
        assert w[0] == WordOf(pi + LOG_TAIL);
        next := AppendEntryJournal(curr, pi + LOG_TAIL);
        if invalidate {
          assert w[1] == WordOf(pi + VALID) && w[2] == WordOf(pi + DELETE_EPOCH);
          ghost var s1, n1 := slots[..], next;
          next := AppendEntryJournal(next, pi + VALID);
          HoldsMore(was, data, curr, [w[0]], s1, n1, [w[1]], slots[..], next);
          ghost var s2, n2 := slots[..], next;
          next := AppendEntryJournal(next, pi + DELETE_EPOCH);
          HoldsMore(was, data, curr, [w[0]] + [w[1]], s2, n2, [w[2]], slots[..], next);
          assert w == [w[0]] + [w[1]] + [w[2]];
        } else {
          assert w == [w[0]];
        }
      }
    }

    method AppendDentryJournal(curr: nat, de: nat) returns (next: nat)
      requires Valid() && EntryAddr(curr) && InBounds(DentryWords(de), mem.Length)
      modifies slots
      ensures Holds(old(slots[..]), mem[..], curr, DentryWords(de), slots[..], next)
    {
      hide Journaled, SlotOf, SamePage, WordOf;
      ghost var was, data := slots[..], mem[..];
      ghost var w := DentryWords(de);
      assert w[0] == WordOf(de + DENTRY_INO) && w[1] == WordOf(de + DENTRY_CSUM) && w[2] == WordOf(de + REASSIGNED) && w[3] == WordOf(de + INVALID);
      next := AppendEntryJournal(curr, de + DENTRY_INO);
      ghost var s1, n1 := slots[..], next;
      next := AppendEntryJournal(next, de + DENTRY_CSUM);
      HoldsMore(was, data, curr, [w[0]], s1, n1, [w[1]], slots[..], next);
      ghost var s2, n2 := slots[..], next;
      next := AppendEntryJournal(next, de + REASSIGNED);
      HoldsMore(was, data, curr, [w[0]] + [w[1]], s2, n2, [w[2]], slots[..], next);
      ghost var s3, n3 := slots[..], next;
      next := AppendEntryJournal(next, de + INVALID);
      HoldsMore(was, data, curr, [w[0]] + [w[1]] + [w[2]], s3, n3, [w[3]], slots[..], next);
      assert w == [w[0]] + [w[1]] + [w[2]] + [w[3]];
    }

    method CreateInodeTransaction(pi: nat, dir: nat, newInode: bool, invalidate: bool) returns (end: nat)
      requires Valid() && head == tail && InBounds(InodeTransactionWords(pi, dir, newInode, invalidate), mem.Length)
      modifies slots, this`tail
      ensures Valid() && tail == end
      ensures Holds(old(slots[..]), mem[..], head, InodeTransactionWords(pi, dir, newInode, invalidate), slots[..], end)
    {
      ghost var was, data := slots[..], mem[..];
      ghost var x, y := InodeWords(pi, newInode, invalidate, false), InodeWords(dir, newInode, invalidate, true);
      BoundsSplit(x, y, mem.Length);
      end := AppendInodeJournal(head, pi, newInode, invalidate, false);
      ghost var s1, n1 := slots[..], end;
      end := AppendInodeJournal(end, dir, newInode, invalidate, true);
      HoldsMore(was, data, head, x, s1, n1, y, slots[..], end);
      tail := end;
    }

    method CreateRenameTransaction(r: Rename) returns (end: nat)
      requires Valid() && head == tail && InBounds(RenameWords(r), mem.Length) && r.Placed()
      modifies slots, this`tail
      ensures Valid() && tail == end
      ensures Holds(old(slots[..]), mem[..], head, RenameWords(r), slots[..], end)
    {
      hide InodeWords, DentryWords, InBounds, WordOf, Journaled, SlotOf, SamePage;
      ghost var was, data := slots[..], mem[..];
      RenameCovered(r);
      RenameBounds(r, mem.Length);
      end := AppendInodeJournal(head, r.oldPi, false, false, false);
      ghost var w, s, n := InodeWords(r.oldPi, false, false, false), slots[..], end;
      end := AppendInodeJournal(end, r.oldDir, false, false, true);
      HoldsMore(was, data, head, w, s, n, InodeWords(r.oldDir, false, false, true), slots[..], end);
      w, s, n := w + InodeWords(r.oldDir, false, false, true), slots[..], end;
      HoldsNone(s, data, n);
      if r.replaced.Some? {
        end := AppendInodeJournal(end, r.replaced.value.pi, false, r.replaced.value.invalidate, false);
      }
      HoldsMore(was, data, head, w, s, n, ReplacedWords(r.replaced), slots[..], end);
      w, s, n := w + ReplacedWords(r.replaced), slots[..], end;
      HoldsNone(s, data, n);
      if r.oldDir != r.newDir {
        end := AppendInodeJournal(end, r.newDir, false, false, true);
      }
      HoldsMore(was, data, head, w, s, n, NewDirWords(r.oldDir, r.newDir), slots[..], end);
      w, s, n := w + NewDirWords(r.oldDir, r.newDir), slots[..], end;
      HoldsNone(s, data, n);
      if r.father.Some? {
        end := AppendDentryJournal(end, r.father.value);
      }
      HoldsMore(was, data, head, w, s, n, FatherWords(r.father), slots[..], end);
      w, s, n := w + FatherWords(r.father), slots[..], end;
      HoldsNone(s, data, n);
      if r.replaced.Some? {
        end := AppendDentryJournal(end, r.replaced.value.dentry);
      }
      HoldsMore(was, data, head, w, s, n, ReplacedDentryWords(r.replaced), slots[..], end);
      w, s, n := w + ReplacedDentryWords(r.replaced), slots[..], end;
      end := AppendDentryJournal(end, r.oldDentry);
      HoldsMore(was, data, head, w, s, n, DentryWords(r.oldDentry), slots[..], end);
      tail := end;
    }

    method Put(s: Store, ghost before: seq<Word>, ghost made: seq<Store>)
      requires s.Fits() && s.word < mem.Length && AllFit(made) && mem[..] == Performed(before, made)
      modifies mem
      ensures AllFit(made + [s]) && mem[..] == Performed(before, made + [s])
    {
      PerformedSnoc(before, made, s);
      mem[s.word] := Patch(mem[s.word], s);
    }

    method CommitLiteTransaction(end: nat)
      requires Valid() && tail == end
      modifies this`head
      ensures Valid() && head == end
    {
      head := end;
    }

    /** What a finished transaction leaves: all its stores, an empty journal, and the old words in the ring. */
    twostate predicate Completed(words: seq<nat>, stores: seq<Store>)
      reads this, mem, slots
    {
      && Valid() && mem == old(mem) && slots == old(slots) && head == tail && AllFit(stores)
      && Holds(old(slots[..]), old(mem[..]), old(head), words, slots[..], head)
      && mem[..] == Performed(old(mem[..]), stores)
    }

    method TransactionForNewInode(pi: nat, dir: nat, dirTail: Word)
      requires Valid() && head == tail && Aligned(pi) && Aligned(dir)
      requires InBounds(InodeTransactionWords(pi, dir, true, false), mem.Length)
      modifies this`head, this`tail, mem, slots
      ensures Completed(InodeTransactionWords(pi, dir, true, false), CreateStores(pi, dir, dirTail))
    {
      hide Journaled, SlotOf, SamePage, WordOf, InodeTransactionWords;
      ghost var before := mem[..];
      CreateCovered(pi, dir, dirTail);
      assert CreateStores(pi, dir, dirTail)[0] == Put8(dir + LOG_TAIL, dirTail) && CreateStores(pi, dir, dirTail)[1] == Put1(pi + VALID, 1);
      CoveredFits(InodeTransactionWords(pi, dir, true, false), CreateStores(pi, dir, dirTail), mem.Length);
      var end := CreateInodeTransaction(pi, dir, true, false);
      NothingPerformed(before);
      ghost var made: seq<Store> := [];
      Put(Put8(dir + LOG_TAIL, dirTail), before, made);
      made := made + [Put8(dir + LOG_TAIL, dirTail)];
      Put(Put1(pi + VALID, 1), before, made);
      made := made + [Put1(pi + VALID, 1)];
      assert made == CreateStores(pi, dir, dirTail);
      CommitLiteTransaction(end);
    }

    method TransactionForTimeAndLink(pi: nat, dir: nat, inodeTail: Word, dirTail: Word, invalidate: bool, epoch: Word)
      requires Valid() && head == tail && Aligned(pi) && Aligned(dir)
      requires InBounds(InodeTransactionWords(pi, dir, false, invalidate), mem.Length)
      modifies this`head, this`tail, mem, slots
      ensures Completed(InodeTransactionWords(pi, dir, false, invalidate), LinkStores(pi, dir, inodeTail, dirTail, invalidate, epoch))
    {
      hide Journaled, SlotOf, SamePage, WordOf, InodeTransactionWords;
      ghost var before := mem[..];
      ghost var stores := LinkStores(pi, dir, inodeTail, dirTail, invalidate, epoch);
      LinkCovered(pi, dir, inodeTail, dirTail, invalidate, epoch);
      CoveredFits(InodeTransactionWords(pi, dir, false, invalidate), stores, mem.Length);
      var end := CreateInodeTransaction(pi, dir, false, invalidate);
      NothingPerformed(before);
      ghost var made: seq<Store> := [];
      if invalidate {
        assert stores[0] == Put1(pi + VALID, 0) && stores[1] == Put8(pi + DELETE_EPOCH, epoch);
        Put(Put1(pi + VALID, 0), before, made);
        made := made + [Put1(pi + VALID, 0)];
        Put(Put8(pi + DELETE_EPOCH, epoch), before, made);
        made := made + [Put8(pi + DELETE_EPOCH, epoch)];
      }
      assert stores == made + [Put8(pi + LOG_TAIL, inodeTail)] + [Put8(dir + LOG_TAIL, dirTail)];
      assert stores[|made|] == Put8(pi + LOG_TAIL, inodeTail) && stores[|made| + 1] == Put8(dir + LOG_TAIL, dirTail);
      Put(Put8(pi + LOG_TAIL, inodeTail), before, made);
      made := made + [Put8(pi + LOG_TAIL, inodeTail)];
      Put(Put8(dir + LOG_TAIL, dirTail), before, made);
      CommitLiteTransaction(end);
    }

    /** Rolls back a replaced inode's death, its tail and its dentry together with the rest. */
    method StoreReplaced(x: Option<Replaced>, epoch: Word, ghost before: seq<Word>, ghost made: seq<Store>)
      requires AllFit(made) && mem[..] == Performed(before, made) && StoresFit(ReplacedStores(x, epoch), mem.Length)
      modifies mem
      ensures AllFit(made + ReplacedStores(x, epoch)) && mem[..] == Performed(before, made + ReplacedStores(x, epoch))
    {
      hide Performed, WordOf;
      ghost var stores := ReplacedStores(x, epoch);
      ghost var done: seq<Store> := made;
      if x.Some? {
        if x.value.invalidate {
          assert stores[0] == Put1(x.value.pi + VALID, 0) && stores[1] == Put8(x.value.pi + DELETE_EPOCH, epoch);
          Put(Put1(x.value.pi + VALID, 0), before, done);
          done := done + [stores[0]];
          Put(Put8(x.value.pi + DELETE_EPOCH, epoch), before, done);
          done := done + [stores[1]];
        }
        assert stores[|stores| - 1] == Put8(x.value.pi + LOG_TAIL, x.value.tail);
        Put(Put8(x.value.pi + LOG_TAIL, x.value.tail), before, done);
        done := done + [stores[|stores| - 1]];
      }
      assert done == made + stores;
    }

    method RenameSection(r: Rename)
      requires Valid() && head == tail && r.Placed() && InBounds(RenameWords(r), mem.Length)
      modifies this`head, this`tail, mem, slots
      ensures Completed(RenameWords(r), RenameStores(r))
    {
      hide Journaled, SlotOf, SamePage, WordOf, Performed, Put1, Put8, ReplacedStores, RenameWords, InBounds;
      ghost var before, n := mem[..], mem.Length;
      RenameFits(r, n);
      var end := CreateRenameTransaction(r);
      NothingPerformed(before);
      ghost var made: seq<Store> := [];
      if r.replaced.Some? {
        Put(Put1(r.replaced.value.dentry + REASSIGNED, 1), before, made);
      }
      assert made + RetireStores(r.replaced) == RetireStores(r.replaced);
      made := RetireStores(r.replaced);
      Put(Put1(r.oldDentry + REASSIGNED, 1), before, made);
      made := made + [Put1(r.oldDentry + REASSIGNED, 1)];
      Put(Put8(r.oldPi + LOG_TAIL, r.oldTail), before, made);
      made := made + [Put8(r.oldPi + LOG_TAIL, r.oldTail)];
      Put(Put8(r.oldDir + LOG_TAIL, r.oldDirTail), before, made);
      made := made + [Put8(r.oldDir + LOG_TAIL, r.oldDirTail)];
      if r.oldDir != r.newDir {
        Put(Put8(r.newDir + LOG_TAIL, r.newDirTail), before, made);
      }
      assert made + [] == made;
      made := made + NewDirStores(r.oldDir, r.newDir, r.newDirTail);
      if r.father.Some? {
        Put(Put8(r.father.value + DENTRY_INO, r.newIno), before, made);
      }
      assert made + [] == made;
      made := made + FatherStores(r.father, r.newIno);
      StoreReplaced(r.replaced, r.epoch, before, made);
      CommitLiteTransaction(end);
    }

    method RecoverLiteJournal()
      requires Valid() && forall i :: 0 <= i < SLOTS ==> slots[i].word < mem.Length
      modifies mem, this`tail
      ensures Valid() && tail == head
      ensures mem[..] == Undo(old(slots[..]), SlotOf(head), Count(SlotOf(head), SlotOf(old(tail)), SLOTS), old(mem[..]))
    {
      hide SlotOf, EntryAddr;
      var temp := head;
      ghost var k: nat, c := 0, Count(SlotOf(head), SlotOf(tail), SLOTS);
      if temp != tail { SlotsDiffer(temp, tail); }
      while temp != tail
        invariant k <= c < SLOTS && EntryAddr(temp) && SamePage(temp, head) && SlotOf(temp) == At(SlotOf(head), k, SLOTS)
        invariant tail == old(tail) && slots == old(slots) && mem == old(mem)
        invariant temp == tail <==> k == c
        invariant mem[..] == Undo(old(slots[..]), SlotOf(head), k, old(mem[..]))
        decreases c - k
      {
        var e := slots[SlotOf(temp)];
        mem[e.word] := e.value;
        NextSlot(temp);
        temp := NextLiteJournal(temp);
        k := k + 1;
        SameSlot(temp, tail, head);
      }
      tail := head;
      SamePageSelf(head);
    }
  }

  lemma SlotsDiffer(a: nat, b: nat)
    requires EntryAddr(a) && EntryAddr(b) && SamePage(b, a) && a != b
    ensures SlotOf(a) != SlotOf(b)
  {
    if SlotOf(a) == SlotOf(b) { SlotDetermines(a, b); }
  }

  lemma SameSlot(a: nat, b: nat, page: nat)
    requires EntryAddr(a) && EntryAddr(b) && SamePage(a, page) && SamePage(b, page)
    ensures a == b <==> SlotOf(a) == SlotOf(b)
    ensures SamePage(a, page)
  {
    if SlotOf(a) == SlotOf(b) { SlotDetermines(a, b); }
  }

  lemma SamePageSelf(a: nat)
    ensures SamePage(a, a)
  {
  }

  lemma NothingPerformed(data: seq<Word>)
    ensures Performed(data, []) == data
  {
  }

  predicate StoresFit(stores: seq<Store>, n: nat) {
    forall i :: 0 <= i < |stores| ==> stores[i].Fits() && stores[i].word < n
  }

  lemma CoveredFits(words: seq<nat>, stores: seq<Store>, n: nat)
    requires Covered(words, stores) && InBounds(words, n)
    ensures StoresFit(stores, n)
  {
  }

  lemma FitsSplit(x: seq<Store>, y: seq<Store>, n: nat)
    requires StoresFit(x + y, n)
    ensures StoresFit(x, n) && StoresFit(y, n)
  {
    assert forall k :: 0 <= k < |x| ==> (x + y)[k] == x[k];
    assert forall k :: 0 <= k < |y| ==> (x + y)[|x| + k] == y[k];
  }

  predicate StoreFits(s: Store, n: nat) { s.Fits() && s.word < n }

  lemma RenameFits(r: Rename, n: nat)
    requires r.Placed() && InBounds(RenameWords(r), n)
    ensures r.replaced.Some? ==> StoreFits(Put1(r.replaced.value.dentry + REASSIGNED, 1), n)
    ensures StoreFits(Put1(r.oldDentry + REASSIGNED, 1), n)
    ensures StoreFits(Put8(r.oldPi + LOG_TAIL, r.oldTail), n) && StoreFits(Put8(r.oldDir + LOG_TAIL, r.oldDirTail), n)
    ensures r.oldDir != r.newDir ==> StoreFits(Put8(r.newDir + LOG_TAIL, r.newDirTail), n)
    ensures r.father.Some? ==> StoreFits(Put8(r.father.value + DENTRY_INO, r.newIno), n)
    ensures StoresFit(ReplacedStores(r.replaced, r.epoch), n)
  {
    hide Covered, InBounds, RenameWords, Put1, Put8, ReplacedStores;
    RenameCovered(r);
    CoveredFits(RenameWords(r), RenameStores(r), n);
    var a, b := RetireStores(r.replaced), [Put1(r.oldDentry + REASSIGNED, 1)];
    var c, d := [Put8(r.oldPi + LOG_TAIL, r.oldTail)], [Put8(r.oldDir + LOG_TAIL, r.oldDirTail)];
    var e, f, g := NewDirStores(r.oldDir, r.newDir, r.newDirTail), FatherStores(r.father, r.newIno), ReplacedStores(r.replaced, r.epoch);
    FitsSplit(a + b + c + d + e + f, g, n);
    FitsSplit(a + b + c + d + e, f, n);
    FitsSplit(a + b + c + d, e, n);
    FitsSplit(a + b + c, d, n);
    FitsSplit(a + b, c, n);
    FitsSplit(a, b, n);
    assert b[0] in b && c[0] in c && d[0] in d;
    if r.replaced.Some? { assert a[0] in a; }
    if r.oldDir != r.newDir { assert e[0] in e; }
    if r.father.Some? { assert f[0] in f; }
  }

  lemma BoundsSplit(x: seq<nat>, y: seq<nat>, n: nat)
    requires InBounds(x + y, n)
    ensures InBounds(x, n) && InBounds(y, n)
  {
    assert forall k :: 0 <= k < |x| ==> (x + y)[k] == x[k];
    assert forall k :: 0 <= k < |y| ==> (x + y)[|x| + k] == y[k];
  }

  lemma RenameBounds(r: Rename, n: nat)
    requires InBounds(RenameWords(r), n)
    ensures InBounds(InodeWords(r.oldPi, false, false, false), n) && InBounds(InodeWords(r.oldDir, false, false, true), n)
    ensures InBounds(ReplacedWords(r.replaced), n) && InBounds(NewDirWords(r.oldDir, r.newDir), n)
    ensures InBounds(FatherWords(r.father), n) && InBounds(ReplacedDentryWords(r.replaced), n) && InBounds(DentryWords(r.oldDentry), n)
  {
    hide InodeWords, DentryWords, ReplacedWords, NewDirWords, FatherWords, ReplacedDentryWords, InBounds;
    var x, y := InodeWords(r.oldPi, false, false, false), InodeWords(r.oldDir, false, false, true);
    var z, u := ReplacedWords(r.replaced), NewDirWords(r.oldDir, r.newDir);
    var f, d, e := FatherWords(r.father), ReplacedDentryWords(r.replaced), DentryWords(r.oldDentry);
    BoundsSplit(x + y + z + u + f + d, e, n);
    BoundsSplit(x + y + z + u + f, d, n);
    BoundsSplit(x + y + z + u, f, n);
    BoundsSplit(x + y + z, u, n);
    BoundsSplit(x + y, z, n);
    BoundsSplit(x, y, n);
  }
}
