/** Generic sequence facts: duplicate-freedom, first occurrences, and
    pandas' `drop_duplicates()` (keep the first occurrence of each value). */
module Seqs {

  predicate NoDup<T(==)>(xs: seq<T>)
  {
    forall i, j :: 0 <= i < j < |xs| ==> xs[i] != xs[j]
  }

  /** Index of the first occurrence of `x` in `xs`, or `|xs|` when absent. */
  function FirstIndex<T(==)>(xs: seq<T>, x: T): (k: nat)
    ensures k <= |xs|
    ensures k < |xs| <==> x in xs
    ensures k < |xs| ==> xs[k] == x
    ensures forall j :: 0 <= j < k ==> xs[j] != x
  {
    if |xs| == 0 then 0
    else if xs[0] == x then 0
    else 1 + FirstIndex(xs[1..], x)
  }

  /** Appending an element leaves every first occurrence in the prefix where
      it was, and the element itself, if new, first occurs at the end. */
  lemma FirstIndexSnoc<T>(xs: seq<T>, x: T, y: T)
    ensures y in xs ==> FirstIndex(xs + [x], y) == FirstIndex(xs, y)
    ensures y !in xs && y == x ==> FirstIndex(xs + [x], y) == |xs|
  {
    var k := FirstIndex(xs + [x], y);
    if y in xs {
      var j := FirstIndex(xs, y);
      assert (xs + [x])[j] == y;
    }
  }

  /** `Series.drop_duplicates()`: keeps the first occurrence of every value,
      in first-occurrence order. */
  function Dedup<T(==,!new)>(xs: seq<T>): (r: seq<T>)
    ensures NoDup(r)
    ensures forall x :: x in r <==> x in xs
    ensures forall i, j :: 0 <= i < j < |r| ==> FirstIndex(xs, r[i]) < FirstIndex(xs, r[j])
    decreases |xs|
  {
    if |xs| == 0 then []
    else
      var front := xs[..|xs| - 1];
      var x := xs[|xs| - 1];
      assert xs == front + [x];
      var d := Dedup(front);
      forall y | y in front ensures FirstIndex(xs, y) == FirstIndex(front, y) {
        FirstIndexSnoc(front, x, y);
      }
      if x in d then d
      else
        FirstIndexSnoc(front, x, x);
        d + [x]
  }

  lemma FirstIndexPrefix<T>(xs: seq<T>, k: nat, x: T)
    requires k <= |xs|
    requires FirstIndex(xs, x) < k || x !in xs[..k]
    ensures FirstIndex(xs[..k], x) == (if FirstIndex(xs, x) < k then FirstIndex(xs, x) else k)
  {
    var f := FirstIndex(xs, x);
    if f < k {
      assert xs[..k][f] == x;
    }
  }

  /** A duplicate-free sequence holds each value at most once. */
  lemma {:induction false} NoDupCount<T>(xs: seq<T>, x: T)
    requires NoDup(xs)
    ensures multiset(xs)[x] <= 1
    decreases |xs|
  {
    if |xs| > 0 {
      var t := xs[1..];
      assert xs == [xs[0]] + t;
      assert NoDup(t) by {
        forall i, j | 0 <= i < j < |t| ensures t[i] != t[j] {
          assert t[i] == xs[i + 1] && t[j] == xs[j + 1];
        }
      }
      NoDupCount(t, x);
      if xs[0] == x {
        assert x !in t by {
          forall k | 0 <= k < |t| ensures t[k] != x {
            assert t[k] == xs[k + 1];
          }
        }
      }
    }
  }

  /** A value at two positions is counted at least twice. */
  lemma TwiceCounted<T>(xs: seq<T>, i: nat, j: nat)
    requires i < j < |xs|
    ensures xs[i] == xs[j] ==> multiset(xs)[xs[i]] >= 2
  {
    var a, b := xs[..j], xs[j + 1..];
    assert xs == a + [xs[j]] + b;
    assert a[i] == xs[i];
    assert multiset(xs) == multiset(a) + multiset{xs[j]} + multiset(b);
  }

  /** Taking the element at `i` out of a sequence takes one copy of it out
      of its multiset. */
  lemma MultisetRemoveAt<T>(xs: seq<T>, i: nat)
    requires i < |xs|
    ensures xs == xs[..i] + [xs[i]] + xs[i + 1..]
    ensures multiset(xs[..i] + xs[i + 1..]) == multiset(xs) - multiset{xs[i]}
  {
    assert xs == xs[..i] + [xs[i]] + xs[i + 1..];
  }

  /** A permutation of a duplicate-free sequence is duplicate-free. */
  lemma NoDupPermutation<T>(a: seq<T>, b: seq<T>)
    requires NoDup(a) && multiset(a) == multiset(b)
    ensures NoDup(b)
  {
    forall i, j | 0 <= i < j < |b| ensures b[i] != b[j] {
      TwiceCounted(b, i, j);
      NoDupCount(a, b[i]);
    }
  }

  /** Two sequences joined are duplicate-free exactly when each is and
      they share no value. */
  lemma NoDupConcat<T>(a: seq<T>, b: seq<T>)
    ensures NoDup(a + b) <==> NoDup(a) && NoDup(b) && forall x :: x in a ==> x !in b
  {
    var c := a + b;
    if NoDup(c) {
      forall i, j | 0 <= i < j < |a| ensures a[i] != a[j] {
        assert a[i] == c[i] && a[j] == c[j];
      }
      forall i, j | 0 <= i < j < |b| ensures b[i] != b[j] {
        assert b[i] == c[|a| + i] && b[j] == c[|a| + j];
      }
      forall x | x in a ensures x !in b {
        var i :| 0 <= i < |a| && a[i] == x;
        forall j | 0 <= j < |b| ensures b[j] != x {
          assert c[i] == x && c[|a| + j] == b[j];
        }
      }
    } else if NoDup(a) && NoDup(b) && forall x :: x in a ==> x !in b {
      forall i, j | 0 <= i < j < |c| ensures c[i] != c[j] {
        if j < |a| {
          assert c[i] == a[i] && c[j] == a[j];
        } else if i >= |a| {
          assert c[i] == b[i - |a|] && c[j] == b[j - |a|];
        } else {
          assert c[i] == a[i] && c[j] == b[j - |a|];
          assert a[i] in a && b[j - |a|] in b;
        }
      }
    }
  }
}
