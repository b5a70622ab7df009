/** Sums and counts over sequences, and how they change when one element does. */
module Counting {

  function Bit(b: bool): nat { if b then 1 else 0 }

  function Sum<T>(s: seq<T>, w: T -> nat): nat {
    if s == [] then 0 else w(s[0]) + Sum(s[1..], w)
  }

  lemma {:induction false} SumUpdate<T>(s: seq<T>, i: nat, x: T, w: T -> nat)
    requires i < |s|
    ensures Sum(s[i := x], w) == Sum(s, w) - w(s[i]) + w(x)
    ensures w(s[i]) <= Sum(s, w)
  {
    if i > 0 {
      assert s[i := x][1..] == s[1..][i - 1 := x];
      SumUpdate(s[1..], i - 1, x, w);
    } else {
      assert s[i := x][1..] == s[1..];
    }
  }

  lemma {:induction false} SumBounds<T>(s: seq<T>, w: T -> nat, bound: nat)
    requires forall i :: 0 <= i < |s| ==> w(s[i]) <= bound
    ensures Sum(s, w) <= |s| * bound
    ensures Sum(s, w) == |s| * bound ==> forall i :: 0 <= i < |s| ==> w(s[i]) == bound
  {
    if s != [] {
      assert w(s[0]) <= bound;
      SumBounds(s[1..], w, bound);
      assert |s| * bound == bound + |s[1..]| * bound;
      if Sum(s, w) == |s| * bound {
        forall i | 0 <= i < |s| ensures w(s[i]) == bound {
          if i > 0 { assert s[i] == s[1..][i - 1]; }
        }
      }
    }
  }

  /** How many elements of s satisfy p. */
  function Count<T>(s: seq<T>, p: T -> bool): nat {
    if s == [] then 0 else Bit(p(s[0])) + Count(s[1..], p)
  }

  lemma {:induction false} CountUpdate<T>(s: seq<T>, i: nat, x: T, p: T -> bool)
    requires i < |s|
    ensures Count(s[i := x], p) == Count(s, p) - Bit(p(s[i])) + Bit(p(x))
    ensures Bit(p(s[i])) <= Count(s, p)
  {
    if i > 0 {
      assert s[i := x][1..] == s[1..][i - 1 := x];
      CountUpdate(s[1..], i - 1, x, p);
    } else {
      assert s[i := x][1..] == s[1..];
    }
  }

  lemma {:induction false} CountNone<T>(s: seq<T>, p: T -> bool)
    requires forall i :: 0 <= i < |s| ==> !p(s[i])
    ensures Count(s, p) == 0
  {
    if s != [] {
      assert !p(s[0]);
      CountNone(s[1..], p);
    }
  }

  lemma {:induction false} CountUnique<T>(s: seq<T>, p: T -> bool)
    requires forall i, j :: 0 <= i < j < |s| ==> !(p(s[i]) && p(s[j]))
    ensures Count(s, p) == Bit(exists i :: 0 <= i < |s| && p(s[i]))
  {
    if s != [] {
      CountUnique(s[1..], p);
      if p(s[0]) {
        forall i | 0 <= i < |s| - 1 ensures !p(s[1..][i]) {
          assert s[1..][i] == s[i + 1];
        }
      } else if i :| 0 <= i < |s| && p(s[i]) {
        assert s[1..][i - 1] == s[i];
      }
    }
  }

  lemma {:induction false} CountSome<T>(s: seq<T>, p: T -> bool) returns (i: nat)
    requires Count(s, p) > 0
    ensures i < |s| && p(s[i])
  {
    if p(s[0]) {
      i := 0;
    } else {
      i := CountSome(s[1..], p);
      i := i + 1;
    }
  }

  lemma {:induction false} CountAtMost<T>(s: seq<T>, p: T -> bool)
    ensures Count(s, p) <= |s|
  {
    if s != [] { CountAtMost(s[1..], p); }
  }

  lemma {:induction false} CountWithin<T(!new)>(s: seq<T>, p: T -> bool, q: T -> bool, r: T -> bool)
    requires forall x :: Bit(p(x)) + Bit(q(x)) <= Bit(r(x))
    ensures Count(s, p) + Count(s, q) <= Count(s, r)
  {
    if s != [] { CountWithin(s[1..], p, q, r); }
  }

  lemma {:induction false} CountConcat<T>(a: seq<T>, b: seq<T>, p: T -> bool)
    ensures Count(a + b, p) == Count(a, p) + Count(b, p)
  {
    if a == [] {
      assert a + b == b;
    } else {
      assert (a + b)[1..] == a[1..] + b;
      CountConcat(a[1..], b, p);
    }
  }

  lemma CountSnoc<T>(a: seq<T>, x: T, p: T -> bool)
    ensures Count(a + [x], p) == Count(a, p) + Bit(p(x))
  {
    CountConcat(a, [x], p);
    assert [x][1..] == [];
  }

  lemma CountMiddle<T>(a: seq<T>, x: T, b: seq<T>, p: T -> bool)
    ensures Count((a + [x]) + b, p) == Count(a + b, p) + Bit(p(x))
  {
    CountConcat(a + [x], b, p);
    CountSnoc(a, x, p);
    CountConcat(a, b, p);
  }

  lemma CountWithout<T>(s: seq<T>, i: nat, p: T -> bool)
    requires i < |s|
    ensures Count(s[..i] + s[i + 1..], p) == Count(s, p) - Bit(p(s[i]))
  {
    assert s == (s[..i] + [s[i]]) + s[i + 1..];
    CountMiddle(s[..i], s[i], s[i + 1..], p);
  }

  /** How often x occurs in s. */
  function Times<T(==)>(s: seq<T>, x: T): nat {
    if s == [] then 0 else Times(s[..|s| - 1], x) + Bit(s[|s| - 1] == x)
  }

  lemma TimesAppend<T>(s: seq<T>, y: T, x: T)
    ensures Times(s + [y], x) == Times(s, x) + Bit(y == x)
  {
    assert (s + [y])[..|s|] == s;
  }

  lemma {:induction false} TimesFirst<T>(s: seq<T>, x: T)
    requires s != []
    ensures Times(s, x) == Bit(s[0] == x) + Times(s[1..], x)
  {
    if |s| > 1 {
      TimesFirst(s[..|s| - 1], x);
      assert s[1..][..|s| - 2] == s[..|s| - 1][1..];
    }
  }

  lemma {:induction false} TimesConcat<T>(a: seq<T>, b: seq<T>, x: T)
    ensures Times(a + b, x) == Times(a, x) + Times(b, x)
  {
    if b == [] {
      assert a + b == a;
    } else {
      var front, y := b[..|b| - 1], b[|b| - 1];
      TimesConcat(a, front, x);
      assert a + b == (a + front) + [y];
      TimesAppend(a + front, y, x);
    }
  }

  lemma {:induction false} TimesPositive<T>(s: seq<T>, x: T)
    ensures Times(s, x) > 0 <==> x in s
  {
    if s != [] {
      var front, y := s[..|s| - 1], s[|s| - 1];
      TimesPositive(front, x);
      assert s == front + [y];
    }
  }

  lemma {:induction false} SumZero<T>(s: seq<T>, w: T -> nat)
    ensures Sum(s, w) == 0 <==> forall i :: 0 <= i < |s| ==> w(s[i]) == 0
  {
    if s != [] {
      SumZero(s[1..], w);
      if Sum(s, w) == 0 {
        forall i | 0 <= i < |s| ensures w(s[i]) == 0 {
          if i > 0 { assert s[i] == s[1..][i - 1]; }
        }
      } else {
        assert w(s[0]) != 0 || exists i :: 0 <= i < |s[1..]| && w(s[1..][i]) != 0;
        if w(s[0]) == 0 {
          var i :| 0 <= i < |s[1..]| && w(s[1..][i]) != 0;
          assert w(s[i + 1]) != 0;
        }
      }
    }
  }

  // Sizes of sets.

  ghost function Below(k: nat): (s: set<nat>)
    ensures |s| == k
    ensures forall i: nat :: i in s <==> i < k
  {
    if k == 0 then {} else Below(k - 1) + {k - 1}
  }

  lemma SubsetSize(a: set<nat>, b: set<nat>)
    requires a <= b
    ensures |a| <= |b|
    ensures |a| == |b| ==> a == b
  {
    assert b == a + (b - a);
    assert |b| == |a| + |b - a|;
  }

  ghost function Elements<T>(s: seq<T>): set<T> {
    set x | x in s
  }

  ghost predicate Distinct<T>(s: seq<T>) {
    forall i, j :: 0 <= i < j < |s| ==> s[i] != s[j]
  }

  lemma {:induction false} DistinctSize<T>(s: seq<T>)
    requires Distinct(s)
    ensures |Elements(s)| == |s|
  {
    if s != [] {
      var t := s[..|s| - 1];
      DistinctSize(t);
      assert s == t + [s[|s| - 1]];
      assert Elements(s) == Elements(t) + {s[|s| - 1]};
    } else {
      assert Elements(s) == {};
    }
  }
}
