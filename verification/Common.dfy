/** Small datatypes and sequence facts shared by the models. */
module Common {

  datatype Option<+T> = None | Some(value: T)

  type Byte = bv8

  function Min(a: int, b: int): int { if a <= b then a else b }

  function Max(a: int, b: int): int { if a >= b then a else b }

  /** The sum of `f` over a sequence, as a multiset. */
  function Sum<T, R>(s: seq<T>, f: T -> multiset<R>): multiset<R> {
    if s == [] then multiset{} else Sum(s[..|s| - 1], f) + f(s[|s| - 1])
  }

  lemma SumSnoc<T, R>(s: seq<T>, x: T, f: T -> multiset<R>)
    ensures Sum(s + [x], f) == Sum(s, f) + f(x)
  {
    assert (s + [x])[..|s|] == s;
  }

  lemma {:induction false} SumConcat<T, R>(a: seq<T>, b: seq<T>, f: T -> multiset<R>)
    ensures Sum(a + b, f) == Sum(a, f) + Sum(b, f)
  {
    if b == [] {
      assert a + b == a;
    } else {
      var c := b[..|b| - 1];
      SumConcat(a, c, f);
      assert (a + b)[..|a + b| - 1] == a + c;
    }
  }

  lemma SumSplit<T, R>(s: seq<T>, i: nat, f: T -> multiset<R>)
    requires i < |s|
    ensures Sum(s, f) == Sum(s[..i], f) + f(s[i]) + Sum(s[i + 1..], f)
  {
    assert s == s[..i] + [s[i]] + s[i + 1..];
    SumConcat(s[..i] + [s[i]], s[i + 1..], f);
    SumSnoc(s[..i], s[i], f);
  }

  lemma SumUpdate<T, R>(s: seq<T>, i: nat, x: T, f: T -> multiset<R>)
    requires i < |s|
    ensures Sum(s[i := x], f) + f(s[i]) == Sum(s, f) + f(x)
  {
    SumSplit(s, i, f);
    SumSplit(s[i := x], i, f);
    assert s[i := x][..i] == s[..i];
    assert s[i := x][i + 1..] == s[i + 1..];
  }

  lemma SumContains<T, R>(s: seq<T>, x: T, f: T -> multiset<R>)
    requires x in s
    ensures f(x) <= Sum(s, f)
  {
    var i :| 0 <= i < |s| && s[i] == x;
    SumSplit(s, i, f);
  }

  /** If a sum shrinks at `r`, some summand does. */
  lemma {:induction false} SumWitness<T, R>(s: seq<T>, t: seq<T>, f: T -> multiset<R>, r: R) returns (i: nat)
    requires |s| == |t| && Sum(s, f)[r] > Sum(t, f)[r]
    ensures i < |s| && f(s[i])[r] > f(t[i])[r]
  {
    i := |s| - 1;
    if f(s[i])[r] <= f(t[i])[r] {
      i := SumWitness(s[..i], t[..i], f, r);
    }
  }

  lemma {:induction false} SumMember<T, R>(s: seq<T>, f: T -> multiset<R>, r: R) returns (i: nat)
    requires r in Sum(s, f)
    ensures i < |s| && r in f(s[i])
  {
    i := |s| - 1;
    if r !in f(s[i]) {
      i := SumMember(s[..i], f, r);
    }
  }

  /** A sum never grows when every summand stays the same or shrinks. */
  lemma {:induction false} SumMonotone<T, R>(s: seq<T>, t: seq<T>, f: T -> multiset<R>)
    requires |s| == |t| && forall i :: 0 <= i < |s| ==> f(s[i]) <= f(t[i])
    ensures Sum(s, f) <= Sum(t, f)
  {
    if s != [] {
      SumMonotone(s[..|s| - 1], t[..|s| - 1], f);
    }
  }

  lemma {:induction false} SumEmpty<T, R>(s: seq<T>, f: T -> multiset<R>)
    requires forall x | x in s :: f(x) == multiset{}
    ensures Sum(s, f) == multiset{}
  {
    if s != [] {
      SumEmpty(s[..|s| - 1], f);
      assert s[|s| - 1] in s;
    }
  }

  lemma MsCancel<R>(x: multiset<R>, y: multiset<R>, a: multiset<R>)
    requires x + a == y + a
    ensures x == y
  {
    forall r ensures x[r] == y[r] { assert (x + a)[r] == (y + a)[r]; }
  }

  lemma MsChain<R>(y: multiset<R>, y': multiset<R>, x: multiset<R>, x': multiset<R>, a: multiset<R>, b: multiset<R>)
    requires x' + a == x + b && y' + x == y + x'
    ensures y' + a == y + b
  {
    forall r ensures (y' + a)[r] == (y + b)[r] {
      assert (x' + a)[r] == (x + b)[r] && (y' + x)[r] == (y + x')[r];
    }
  }

  /** Adding summand by summand. */
  lemma {:induction false} SumZip<T, R>(s: seq<T>, t: seq<T>, u: seq<T>, f: T -> multiset<R>)
    requires |s| == |t| == |u|
    requires forall i :: 0 <= i < |u| ==> f(u[i]) == f(s[i]) + f(t[i])
    ensures Sum(u, f) == Sum(s, f) + Sum(t, f)
  {
    if s != [] {
      var n := |s| - 1;
      SumZip(s[..n], t[..n], u[..n], f);
      var x, y := Sum(s[..n], f), Sum(t[..n], f);
      assert (x + y) + (f(s[n]) + f(t[n])) == (x + f(s[n])) + (y + f(t[n]));
    }
  }

  lemma {:induction false} SumSame<T, R>(s: seq<T>, t: seq<T>, f: T -> multiset<R>)
    requires |s| == |t| && forall i :: 0 <= i < |s| ==> f(s[i]) == f(t[i])
    ensures Sum(s, f) == Sum(t, f)
  {
    if s != [] {
      SumSame(s[..|s| - 1], t[..|s| - 1], f);
    }
  }

  lemma MsAssoc<R>(a: multiset<R>, b: multiset<R>, c: multiset<R>)
    ensures a + b + c == a + (b + c)
  {
  }

  lemma {:induction false} RangeCard(lo: nat, n: nat, s: set<nat>)
    requires forall p: nat :: p in s <==> lo <= p < lo + n
    ensures |s| == n
  {
    if n == 0 {
      assert s == {};
    } else {
      RangeCard(lo, n - 1, s - {lo + n - 1});
    }
  }
}
