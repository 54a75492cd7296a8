/**
 The positions of a 512-way tree over file blocks.

 `Pos(h, k)` is the `k`-th position at height `h`, counted from the left over the whole tree: the data
 blocks are at height 0, and position `(h, k)` stands for the file blocks from `k * 512^h` on.  A tree maps
 the positions it has to the blocks they are stored in, so growing it at the top renames nothing.
 */
module Radix {
  import opened Common
  import opened Arith

  const FAN: nat := 512

  datatype Pos = Pos(h: nat, k: nat)

  type Tree = map<Pos, nat>

  function Pow(h: nat): (r: nat)
    ensures r > 0
  {
    if h == 0 then 1 else FAN * Pow(h - 1)
  }

  function Child(p: Pos, i: nat): Pos
    requires p.h > 0
  {
    Pos(p.h - 1, p.k * FAN + i)
  }

  function Parent(p: Pos): Pos { Pos(p.h + 1, p.k / FAN) }

  lemma ParentOfChild(p: Pos, i: nat)
    requires p.h > 0 && i < FAN
    ensures Parent(Child(p, i)) == p && Child(p, i).k % FAN == i
  {
  }

  lemma ChildOfParent(p: Pos)
    ensures Child(Parent(p), p.k % FAN) == p
  {
  }

  /** The position above `q` at height `h`. */
  function Anc(q: Pos, h: nat): Pos
    requires q.h <= h
    decreases h - q.h
  {
    if q.h == h then q else Anc(Parent(q), h)
  }

  predicate Under(q: Pos, p: Pos) { q.h <= p.h && Anc(q, p.h) == p }

  predicate Below(q: Pos, p: Pos) { q.h < p.h && Anc(q, p.h) == p }

  lemma {:induction false} AncParent(q: Pos, h: nat)
    requires q.h <= h
    ensures Anc(q, h).h == h && Anc(q, h + 1) == Parent(Anc(q, h))
    decreases h - q.h
  {
    if q.h < h { AncParent(Parent(q), h); }
  }

  lemma {:induction false} AncAnc(q: Pos, g: nat, h: nat)
    requires q.h <= g <= h
    ensures Anc(q, g).h == g && Anc(Anc(q, g), h) == Anc(q, h)
    decreases h - g
  {
    AncParent(q, g);
    if g < h { AncAnc(q, g + 1, h); }
  }

  /** Which child of `p` a position below it belongs to. */
  function Branch(q: Pos, p: Pos): nat
    requires Below(q, p)
  {
    Anc(q, p.h - 1).k % FAN
  }

  lemma BranchIs(q: Pos, p: Pos)
    requires Below(q, p)
    ensures Branch(q, p) < FAN && Under(q, Child(p, Branch(q, p)))
  {
    AncParent(q, p.h - 1);
    ChildOfParent(Anc(q, p.h - 1));
  }

  lemma UnderChild(q: Pos, p: Pos, i: nat)
    requires p.h > 0 && i < FAN && Under(q, Child(p, i))
    ensures Below(q, p) && Branch(q, p) == i
  {
    AncParent(q, p.h - 1);
    ParentOfChild(p, i);
  }

  /** Two branches share nothing. */
  lemma BranchesApart(q: Pos, p: Pos, i: nat, j: nat)
    requires p.h > 0 && i < FAN && j < FAN && Under(q, Child(p, i)) && Under(q, Child(p, j))
    ensures i == j
  {
    UnderChild(q, p, i);
    UnderChild(q, p, j);
  }

  lemma ParentUnder(q: Pos, p: Pos)
    requires Below(q, p)
    ensures Under(Parent(q), p)
  {
  }

  // ---------------------------------------------------------------- the file blocks of a position

  function Base(p: Pos): nat { p.k * Pow(p.h) }

  predicate Touched(p: Pos, f: nat, l: nat) { Base(p) <= l && f < Base(p) + Pow(p.h) }

  lemma ChildBase(p: Pos, i: nat)
    requires p.h > 0
    ensures Base(Child(p, i)) == Base(p) + i * Pow(p.h - 1) && Pow(p.h) == FAN * Pow(p.h - 1)
  {
    var w := Pow(p.h - 1);
    assert (p.k * FAN + i) * w == p.k * (FAN * w) + i * w;
  }

  lemma ParentBase(q: Pos)
    ensures Base(Parent(q)) <= Base(q) && Base(q) + Pow(q.h) <= Base(Parent(q)) + Pow(q.h + 1)
  {
    ChildOfParent(q);
    ChildBase(Parent(q), q.k % FAN);
    MulMono(q.k % FAN + 1, FAN, Pow(q.h));
    assert (q.k % FAN + 1) * Pow(q.h) == q.k % FAN * Pow(q.h) + Pow(q.h);
  }

  lemma {:induction false} AncBase(q: Pos, h: nat)
    requires q.h <= h
    ensures Anc(q, h).h == h && Base(Anc(q, h)) <= Base(q) && Base(q) + Pow(q.h) <= Base(Anc(q, h)) + Pow(h)
    decreases h - q.h
  {
    if q.h < h {
      ParentBase(q);
      AncBase(Parent(q), h);
    }
  }

  lemma UnderTouched(q: Pos, p: Pos, f: nat, l: nat)
    requires Under(q, p) && Touched(q, f, l)
    ensures Touched(p, f, l)
  {
    AncBase(q, p.h);
  }

  /** A position is touched exactly if one of the blocks lies under it. */
  lemma TouchedMeans(p: Pos, f: nat, l: nat)
    requires f <= l
    ensures Touched(p, f, l) <==> exists b: nat :: f <= b <= l && Under(Pos(0, b), p)
  {
    hide Touched;
    if Touched(p, f, l) {
      var b := FirstTouched(p, f, l);
      SpanUnder(p, b);
    }
    if b: nat :| f <= b <= l && Under(Pos(0, b), p) {
      UnderTouched(Pos(0, b), p, f, l) by { LeafSpan(b, f, l); }
    }
  }

  lemma LeafSpan(b: nat, f: nat, l: nat)
    requires f <= b <= l
    ensures Touched(Pos(0, b), f, l)
  {
    assert Base(Pos(0, b)) == b;
  }

  lemma FirstTouched(p: Pos, f: nat, l: nat) returns (b: nat)
    requires f <= l && Touched(p, f, l)
    ensures f <= b <= l && Base(p) <= b < Base(p) + Pow(p.h)
  {
    b := Max(f, Base(p));
  }

  lemma SpanUnder(p: Pos, b: nat)
    requires Base(p) <= b < Base(p) + Pow(p.h)
    ensures Under(Pos(0, b), p)
  {
    var q := Anc(Pos(0, b), p.h);
    AncBase(Pos(0, b), p.h);
    assert Base(Pos(0, b)) == b;
    hide Anc, Pow;
    var w := Pow(p.h);
    MulDistr(p.k, 1, w);
    MulDistr(q.k, 1, w);
    MulLess(p.k, q.k + 1, w);
    MulLess(q.k, p.k + 1, w);
  }

  /** What of the blocks `f` to `l` lies at `p`, counted from its first block. */
  predicate Window(p: Pos, f: nat, l: nat, first: nat, last: nat) {
    first <= last < Pow(p.h) && Base(p) + first == Max(f, Base(p)) && Base(p) + last == Min(l, Base(p) + Pow(p.h) - 1)
  }

  /** The children that a window reaches are those its bounds fall in and what lies between. */
  lemma WindowTouches(p: Pos, f: nat, l: nat, first: nat, last: nat, i: nat)
    requires p.h > 0 && Window(p, f, l, first, last) && i < FAN
    ensures Touched(Child(p, i), f, l) <==> Div(first, Pow(p.h - 1)) <= i <= Div(last, Pow(p.h - 1))
  {
    hide Pow, Base, Child, Touched, Window, Div, Mod;
    var w := Pow(p.h - 1);
    var a, b := Div(first, w), Div(last, w);
    var aw, bw, iw := a * w, b * w, i * w;
    DivOrder(first, w, i);
    DivOrder(last, w, i);
    MulRoom(i, FAN, w);
    TouchAt(p, f, l, first, last, i, w, aw, bw, iw, a <= i, i <= b);
  }

  lemma TouchAt(p: Pos, f: nat, l: nat, first: nat, last: nat, i: nat, w: nat, aw: nat, bw: nat, iw: nat, low: bool, high: bool)
    requires p.h > 0 && Window(p, f, l, first, last) && w == Pow(p.h - 1) && iw == i * w && iw + w <= FAN * w
    requires aw <= first < aw + w && bw <= last < bw + w
    requires if low then aw <= iw else iw + w <= aw
    requires if high then iw <= bw else bw + w <= iw
    ensures Touched(Child(p, i), f, l) <==> low && high
  {
    hide Pow, Base, Child;
    ChildBase(p, i);
    ChildHeight(p, i);
    TouchLinear(Base(p), w, FAN * w, iw, first, aw, last, bw, f, l, low, high);
  }

  lemma ChildHeight(p: Pos, i: nat)
    requires p.h > 0
    ensures Child(p, i).h == p.h - 1
  {
  }

  lemma TouchLinear(base: nat, w: nat, span: nat, iw: nat, first: nat, aw: nat, last: nat, bw: nat, f: nat, l: nat, low: bool, high: bool)
    requires aw <= first < aw + w && bw <= last < bw + w && iw + w <= span
    requires if low then aw <= iw else iw + w <= aw
    requires if high then iw <= bw else bw + w <= iw
    requires first <= last < span && base + first == Max(f, base) && base + last == Min(l, base + span - 1)
    ensures (base + iw <= l && f < base + iw + w) <==> low && high
  {
  }

  lemma WindowIndices(p: Pos, f: nat, l: nat, first: nat, last: nat)
    requires p.h > 0 && Window(p, f, l, first, last)
    ensures Div(first, Pow(p.h - 1)) <= Div(last, Pow(p.h - 1)) < FAN
  {
    hide Pow, Base, Child, Div, Mod;
    ChildBase(p, 0);
    DivRoom(last, FAN, Pow(p.h - 1));
    DivMono(first, last, Pow(p.h - 1));
  }

  /** The part of a window that goes down to child `i`. */
  lemma ChildWindow(p: Pos, f: nat, l: nat, first: nat, last: nat, i: nat)
    requires p.h > 0 && Window(p, f, l, first, last)
    requires Div(first, Pow(p.h - 1)) <= i <= Div(last, Pow(p.h - 1)) && i < FAN
    ensures Window(Child(p, i), f, l,
                   if i == Div(first, Pow(p.h - 1)) then Mod(first, Pow(p.h - 1)) else 0,
                   if i == Div(last, Pow(p.h - 1)) then Mod(last, Pow(p.h - 1)) else Pow(p.h - 1) - 1)
  {
    hide Pow, Base, Child, Window, Div, Mod;
    var w := Pow(p.h - 1);
    var a, b := Div(first, w), Div(last, w);
    DivOrder(first, w, i);
    DivOrder(last, w, i);
    MulRoom(i, FAN, w);
    WindowAt(p, f, l, first, last, i, w, a * w, Mod(first, w), b * w, Mod(last, w), i * w, i == a, i == b);
  }

  lemma WindowAt(p: Pos, f: nat, l: nat, first: nat, last: nat, i: nat, w: nat, aw: nat, fr: nat, bw: nat, lr: nat, iw: nat,
                 isFirst: bool, isLast: bool)
    requires p.h > 0 && Window(p, f, l, first, last) && w == Pow(p.h - 1) && iw == i * w && iw + w <= FAN * w
    requires first == aw + fr && fr < w && last == bw + lr && lr < w
    requires if isFirst then iw == aw else aw + w <= iw
    requires if isLast then iw == bw else iw + w <= bw
    ensures Window(Child(p, i), f, l, if isFirst then fr else 0, if isLast then lr else w - 1)
  {
    hide Pow, Base, Child;
    ChildBase(p, i);
    ChildHeight(p, i);
    WindowLinear(Base(p), w, FAN * w, iw, first, aw, fr, last, bw, lr, f, l, isFirst, isLast);
  }

  lemma WindowLinear(base: nat, w: nat, span: nat, iw: nat, first: nat, aw: nat, fr: nat, last: nat, bw: nat, lr: nat,
                     f: nat, l: nat, isFirst: bool, isLast: bool)
    requires first == aw + fr && fr < w && last == bw + lr && lr < w && iw + w <= span
    requires if isFirst then iw == aw else aw + w <= iw
    requires if isLast then iw == bw else iw + w <= bw
    requires first <= last < span && base + first == Max(f, base) && base + last == Min(l, base + span - 1)
    ensures var x, y := if isFirst then fr else 0, if isLast then lr else w - 1;
            x <= y < w && base + iw + x == Max(f, base + iw) && base + iw + y == Min(l, base + iw + w - 1)
  {
  }

  // ---------------------------------------------------------------- trees

  function Slot(t: Tree, p: Pos): nat { if p in t then t[p] else 0 }

  /** A tree of this height: every position hangs below the top one. */
  ghost predicate Closed(t: Tree, height: nat) {
    forall p <- t :: p.h <= height && if p.h == height then p.k == 0 else Parent(p) in t
  }

  /** Each position has a block of its own. */
  ghost predicate Distinct(t: Tree) {
    forall p, q | p in t && q in t :: t[p] != 0 && (p != q ==> t[p] != t[q])
  }

  /** Every inner position has something below it. */
  ghost predicate Tidy(t: Tree) {
    forall p <- t :: p.h > 0 ==> HasChild(t, p)
  }

  ghost predicate HasChild(t: Tree, p: Pos) {
    p.h > 0 && exists i: nat :: i < FAN && Child(p, i) in t
  }

  lemma {:induction false} ClosedAnc(t: Tree, height: nat, q: Pos, h: nat)
    requires Closed(t, height) && q in t && q.h <= h <= height
    ensures Anc(q, h) in t
    decreases h - q.h
  {
    if q.h < h { ClosedAnc(t, height, Parent(q), h); }
  }

  lemma TopOnly(t: Tree, height: nat, p: Pos)
    requires Closed(t, height) && p in t && p.h == height
    ensures p == Pos(height, 0) && Base(p) == 0
  {
  }

  /** Positions of a tree lie within its span. */
  lemma WithinSpan(t: Tree, height: nat, q: Pos)
    requires Closed(t, height) && q in t && q.h <= height
    ensures Under(q, Pos(height, 0)) && Base(q) + Pow(q.h) <= Pow(height)
  {
    hide Closed, Anc;
    ClosedAnc(t, height, q, height);
    AncBase(q, height);
    TopOnly(t, height, Anc(q, height));
  }

  lemma {:induction false} SpanAnc(b: nat, height: nat, h: nat)
    requires b < Pow(height) && h <= height
    ensures Anc(Pos(0, b), h) == Pos(h, b / Pow(h))
    ensures Anc(Pos(0, b), height) == Pos(height, 0)
  {
    AncBase(Pos(0, b), h);
    AncBase(Pos(0, b), height);
    var a := Anc(Pos(0, b), h);
    assert (a.k + 1) * Pow(h) == a.k * Pow(h) + Pow(h);
    Multiples(b, a.k, Pow(h));
    var z := Anc(Pos(0, b), height);
    if z.k > 0 { MulMono(1, z.k, Pow(height)); }
  }

  // ---------------------------------------------------------------- truncation

  /** What is left of a position once the file blocks `f` to `l` are gone. */
  ghost predicate Keep(t: Tree, f: nat, l: nat, p: Pos)
    decreases p.h
  {
    p in t && (!Touched(p, f, l) || (p.h > 0 && exists i: nat :: i < FAN && Keep(t, f, l, Child(p, i))))
  }

  ghost predicate SameUnder(t: Tree, t': Tree, p: Pos) {
    forall q | Under(q, p) :: q in t <==> q in t'
  }

  lemma {:induction false} KeepSame(t: Tree, t': Tree, f: nat, l: nat, p: Pos)
    requires SameUnder(t, t', p)
    ensures Keep(t, f, l, p) == Keep(t', f, l, p)
    decreases p.h
  {
    assert Under(p, p);
    if p.h > 0 {
      forall i: nat | i < FAN ensures Keep(t, f, l, Child(p, i)) == Keep(t', f, l, Child(p, i)) {
        forall q | Under(q, Child(p, i)) ensures q in t <==> q in t' {
          UnderChild(q, p, i);
        }
        KeepSame(t, t', f, l, Child(p, i));
      }
    }
  }

  /** A position that lies in the range as a whole does not stay. */
  lemma {:induction false} WholeGone(t: Tree, f: nat, l: nat, p: Pos)
    requires f <= Base(p) && Base(p) + Pow(p.h) - 1 <= l
    ensures !Keep(t, f, l, p)
    decreases p.h
  {
    if p.h > 0 {
      forall i: nat | i < FAN ensures !Keep(t, f, l, Child(p, i)) {
        ChildBase(p, i);
        var w := Pow(p.h - 1);
        MulMono(i + 1, FAN, w);
        assert (i + 1) * w == i * w + w;
        WholeGone(t, f, l, Child(p, i));
      }
    }
  }

  /** Data stays exactly outside the range. */
  lemma DataKept(t: Tree, f: nat, l: nat, b: nat)
    ensures Keep(t, f, l, Pos(0, b)) <==> Pos(0, b) in t && !(f <= b <= l)
  {
    assert Base(Pos(0, b)) == b;
  }

  /** What is above something kept is kept. */
  lemma {:induction false} KeepUp(t: Tree, height: nat, f: nat, l: nat, q: Pos, p: Pos)
    requires Closed(t, height) && Keep(t, f, l, q) && Under(q, p) && p.h <= height
    ensures Keep(t, f, l, p)
    decreases p.h - q.h
  {
    if q != p {
      var r := Parent(q);
      ChildOfParent(q);
      assert r in t;
      KeepUp(t, height, f, l, r, p);
    }
  }

  /** The tree that truncation leaves: the top position stays if anything below it does. */
  ghost function Truncated(t: Tree, f: nat, l: nat): Tree {
    map p | p in t && Keep(t, f, l, p) :: t[p]
  }

  /** In a tidy tree what remains is tidy: emptied inner positions are all gone. */
  lemma TruncatedTidy(t: Tree, height: nat, f: nat, l: nat)
    requires Closed(t, height) && Tidy(t)
    ensures Closed(Truncated(t, f, l), height) && Tidy(Truncated(t, f, l))
  {
    var t' := Truncated(t, f, l);
    forall p | p in t' && p.h < height ensures Parent(p) in t' {
      assert Anc(p, p.h + 1) == Parent(p);
      KeepUp(t, height, f, l, p, Parent(p));
    }
    forall p | p in t' && p.h > 0 ensures HasChild(t', p) {
      if Touched(p, f, l) {
        var i: nat :| i < FAN && Keep(t, f, l, Child(p, i));
        assert Child(p, i) in t';
      } else {
        assert HasChild(t, p);
        var i: nat :| i < FAN && Child(p, i) in t;
        if Touched(Child(p, i), f, l) {
          ParentOfChild(p, i);
          UnderTouched(Child(p, i), p, f, l);
        }
        assert Child(p, i) in t';
      }
    }
  }

  /** In a tidy tree every position leads down to data. */
  lemma {:induction false} TidyData(t: Tree, p: Pos) returns (b: nat)
    requires Tidy(t) && p in t
    ensures Pos(0, b) in t && Under(Pos(0, b), p)
    decreases p.h
  {
    if p.h == 0 {
      b := p.k;
    } else {
      assert HasChild(t, p);
      var i: nat :| i < FAN && Child(p, i) in t;
      b := TidyData(t, Child(p, i));
      UnderChild(Pos(0, b), p, i);
    }
  }
}
