/** Python's ordering of `str` values (lexicographic by code point) and the
    `sorted()` of a list of strings.

    Python's `sorted` is one particular algorithm; the model uses an insertion
    sort and proves that a sorted permutation is unique, so any correct sort
    gives the same list. */
module LexOrder {
  import Seqs

  /** `a <= b` on Python strings. */
  predicate LexLe(a: string, b: string)
    decreases |a|
  {
    |a| == 0 || (|b| > 0 && (a[0] < b[0] || (a[0] == b[0] && LexLe(a[1..], b[1..]))))
  }

  lemma {:induction false} LexLeReflexive(a: string)
    ensures LexLe(a, a)
    decreases |a|
  {
    if |a| > 0 {
      LexLeReflexive(a[1..]);
    }
  }

  lemma {:induction false} LexLeTotal(a: string, b: string)
    ensures LexLe(a, b) || LexLe(b, a)
    decreases |a|
  {
    if |a| > 0 && |b| > 0 && a[0] == b[0] {
      LexLeTotal(a[1..], b[1..]);
    }
  }

  lemma {:induction false} LexLeAntisymmetric(a: string, b: string)
    requires LexLe(a, b) && LexLe(b, a)
    ensures a == b
    decreases |a|
  {
    if |a| > 0 {
      LexLeAntisymmetric(a[1..], b[1..]);
      assert a == [a[0]] + a[1..];
      assert b == [b[0]] + b[1..];
    }
  }

  lemma {:induction false} LexLeTransitive(a: string, b: string, c: string)
    requires LexLe(a, b) && LexLe(b, c)
    ensures LexLe(a, c)
    decreases |a|
  {
    if |a| > 0 && a[0] == b[0] && b[0] == c[0] {
      LexLeTransitive(a[1..], b[1..], c[1..]);
    }
  }

  /** Comparing two paths in the same directory compares the names: a common
      prefix does not change the order. */
  lemma {:induction false} LexLeCommonPrefix(p: string, a: string, b: string)
    ensures LexLe(p + a, p + b) <==> LexLe(a, b)
    decreases |p|
  {
    if |p| == 0 {
      assert p + a == a && p + b == b;
    } else {
      assert (p + a)[1..] == p[1..] + a;
      assert (p + b)[1..] == p[1..] + b;
      LexLeCommonPrefix(p[1..], a, b);
    }
  }

  predicate Sorted(xs: seq<string>)
  {
    forall i, j :: 0 <= i < j < |xs| ==> LexLe(xs[i], xs[j])
  }

  /** `y` is below every element of `ys`. */
  predicate Below(y: string, ys: seq<string>)
  {
    forall j :: 0 <= j < |ys| ==> LexLe(y, ys[j])
  }

  /** The rest of an ascending list is ascending and above its head. */
  lemma SortedTail(ys: seq<string>)
    requires Sorted(ys) && |ys| > 0
    ensures Sorted(ys[1..]) && Below(ys[0], ys[1..])
  {
    assert forall j :: 0 <= j < |ys| - 1 ==> ys[1..][j] == ys[j + 1];
  }

  /** An element below an ascending list can be put in front of it. */
  lemma SortedCons(y: string, ys: seq<string>)
    requires Sorted(ys) && Below(y, ys)
    ensures Sorted([y] + ys)
  {
    var r := [y] + ys;
    forall i, j | 0 <= i < j < |r| ensures LexLe(r[i], r[j]) {
      assert r[j] == ys[j - 1];
      if i > 0 {
        assert r[i] == ys[i - 1];
      }
    }
  }

  /** Below the head of an ascending list is below all of it. */
  lemma BelowHead(x: string, ys: seq<string>)
    requires Sorted(ys) && |ys| > 0 && LexLe(x, ys[0])
    ensures Below(x, ys)
  {
    forall j | 0 <= j < |ys| ensures LexLe(x, ys[j]) {
      if j > 0 {
        LexLeTransitive(x, ys[0], ys[j]);
      }
    }
  }

  /** A bound on the strings of a list and on `x` bounds every permutation
      of the list with `x` added. */
  lemma BelowPermutation(y: string, x: string, ys: seq<string>, zs: seq<string>)
    requires LexLe(y, x) && Below(y, ys)
    requires multiset(zs) == multiset(ys) + multiset{x}
    ensures Below(y, zs)
  {
    forall j | 0 <= j < |zs| ensures LexLe(y, zs[j]) {
      assert zs[j] in multiset(zs);
      if zs[j] != x {
        assert zs[j] in multiset(ys);
        var i :| 0 <= i < |ys| && ys[i] == zs[j];
      }
    }
  }

  /** Inserts `x` into the sorted list `ys` before the first element not
      below it. */
  function Insert(x: string, ys: seq<string>): (r: seq<string>)
    requires Sorted(ys)
    ensures Sorted(r)
    ensures multiset(r) == multiset(ys) + multiset{x}
    ensures |r| == |ys| + 1
  {
    if |ys| == 0 then [x]
    else if LexLe(x, ys[0]) then
      BelowHead(x, ys);
      SortedCons(x, ys);
      [x] + ys
    else
      SortedTail(ys);
      var tail := Insert(x, ys[1..]);
      LexLeTotal(x, ys[0]);
      BelowPermutation(ys[0], x, ys[1..], tail);
      SortedCons(ys[0], tail);
      assert ys == [ys[0]] + ys[1..];
      [ys[0]] + tail
  }

  /** `sorted(xs)` for a list of strings: an ascending permutation of `xs`. */
  function Sort(xs: seq<string>): (r: seq<string>)
    ensures Sorted(r)
    ensures multiset(r) == multiset(xs)
    ensures |r| == |xs|
  {
    if |xs| == 0 then []
    else
      assert xs == [xs[0]] + xs[1..];
      Insert(xs[0], Sort(xs[1..]))
  }

  /** The first element of an ascending list is below every element. */
  lemma SortedHeadIsLeast(a: seq<string>, x: string)
    requires Sorted(a) && x in a
    ensures LexLe(a[0], x)
  {
    var i :| 0 <= i < |a| && a[i] == x;
    if i == 0 {
      LexLeReflexive(x);
    }
  }

  /** Two ascending permutations of the same strings are equal: `sorted` has
      exactly one possible result, whatever order the input came in. */
  lemma {:induction false} SortedUnique(a: seq<string>, b: seq<string>)
    requires Sorted(a) && Sorted(b)
    requires multiset(a) == multiset(b)
    ensures a == b
    decreases |a|
  {
    assert |a| == |multiset(a)| == |multiset(b)| == |b|;
    if |a| > 0 {
      SortedHeadsEqual(a, b);
      SortedTail(a);
      SortedTail(b);
      TailsSameMultiset(a, b);
      SortedUnique(a[1..], b[1..]);
      SameHeadAndTail(a, b);
    }
  }

  /** Dropping the same first string from two permutations leaves
      permutations. */
  lemma TailsSameMultiset(a: seq<string>, b: seq<string>)
    requires multiset(a) == multiset(b) && |a| > 0 && |b| > 0 && a[0] == b[0]
    ensures multiset(a[1..]) == multiset(b[1..])
  {
    Seqs.MultisetRemoveAt(a, 0);
    Seqs.MultisetRemoveAt(b, 0);
    assert a[..0] + a[1..] == a[1..];
    assert b[..0] + b[1..] == b[1..];
  }

  /** Lists with the same first element and the same tail are equal. */
  lemma SameHeadAndTail(a: seq<string>, b: seq<string>)
    requires |a| > 0 && |b| > 0 && a[0] == b[0] && a[1..] == b[1..]
    ensures a == b
  {
    assert a == [a[0]] + a[1..];
    assert b == [b[0]] + b[1..];
  }

  /** Two ascending permutations of the same strings start alike. */
  lemma SortedHeadsEqual(a: seq<string>, b: seq<string>)
    requires Sorted(a) && Sorted(b) && multiset(a) == multiset(b) && |a| > 0
    ensures |b| > 0 && a[0] == b[0]
  {
    assert |a| == |multiset(a)| == |multiset(b)| == |b|;
    assert a[0] in multiset(b);
    assert b[0] in multiset(a);
    SortedHeadIsLeast(b, a[0]);
    SortedHeadIsLeast(a, b[0]);
    LexLeAntisymmetric(a[0], b[0]);
  }

  /** The order in which the input lists its strings does not change
      `sorted`'s result. */
  lemma SortIgnoresInputOrder(xs: seq<string>, ys: seq<string>)
    requires multiset(xs) == multiset(ys)
    ensures Sort(xs) == Sort(ys)
  {
    SortedUnique(Sort(xs), Sort(ys));
  }

  /** Every string of `names`, with `p` in front. */
  function Prefixed(p: string, names: seq<string>): (r: seq<string>)
    ensures |r| == |names|
    ensures forall k :: 0 <= k < |names| ==> r[k] == p + names[k]
  {
    seq(|names|, k requires 0 <= k < |names| => p + names[k])
  }

  /** Prefixing a list with one more name in front. */
  lemma PrefixedCons(p: string, n: string, names: seq<string>)
    ensures Prefixed(p, [n] + names) == [p + n] + Prefixed(p, names)
  {
    var r := [p + n] + Prefixed(p, names);
    assert forall k :: 0 <= k < |r| ==> r[k] == p + ([n] + names)[k];
  }

  /** The rest of a prefixed list is the prefixed rest. */
  lemma PrefixedTail(p: string, names: seq<string>)
    requires |names| > 0
    ensures Prefixed(p, names)[0] == p + names[0]
    ensures Prefixed(p, names)[1..] == Prefixed(p, names[1..])
  {
  }

  /** Sorting the names of one directory, and sorting the paths
      `dir + name`, agree on what is sorted. */
  lemma {:induction false} SortedUnderCommonPrefix(p: string, names: seq<string>)
    ensures Sorted(names) <==> Sorted(Prefixed(p, names))
  {
    var paths := Prefixed(p, names);
    forall i, j | 0 <= i < j < |names|
      ensures LexLe(paths[i], paths[j]) <==> LexLe(names[i], names[j])
    {
      LexLeCommonPrefix(p, names[i], names[j]);
    }
  }

  lemma {:induction false} InsertPrefixed(p: string, x: string, ys: seq<string>)
    requires Sorted(ys)
    ensures Sorted(Prefixed(p, ys))
    ensures Insert(p + x, Prefixed(p, ys)) == Prefixed(p, Insert(x, ys))
    decreases |ys|
  {
    SortedUnderCommonPrefix(p, ys);
    if |ys| > 0 {
      LexLeCommonPrefix(p, x, ys[0]);
      PrefixedTail(p, ys);
      if LexLe(x, ys[0]) {
        PrefixedCons(p, x, ys);
      } else {
        SortedTail(ys);
        InsertPrefixed(p, x, ys[1..]);
        PrefixedCons(p, ys[0], Insert(x, ys[1..]));
      }
    } else {
      PrefixedCons(p, x, ys);
      assert [x] + ys == [x];
    }
  }

  /** Sorting full paths of one directory is sorting the names: `sorted`
      over `dir/name` lists the names in `sorted(names)` order. */
  lemma {:induction false} SortPrefixed(p: string, names: seq<string>)
    ensures Sort(Prefixed(p, names)) == Prefixed(p, Sort(names))
    decreases |names|
  {
    if |names| > 0 {
      assert Prefixed(p, names)[1..] == Prefixed(p, names[1..]);
      SortPrefixed(p, names[1..]);
      InsertPrefixed(p, names[0], Sort(names[1..]));
    } else {
      assert Prefixed(p, names) == [];
    }
  }
}
