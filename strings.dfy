/**
 * Python's ordering of `str` values: lexicographic on code points, a proper
 * prefix sorting first. Both charts sort actor names by it, in reverse.
 */
module Strings {

  /** `a < b` on Python strings. */
  predicate LexLess(a: string, b: string)
  {
    if |a| == 0 then |b| > 0
    else if |b| == 0 then false
    else if a[0] != b[0] then a[0] < b[0]
    else LexLess(a[1..], b[1..])
  }

  lemma {:induction false} LexLessIrreflexive(a: string)
    ensures !LexLess(a, a)
  {
    if |a| > 0 {
      LexLessIrreflexive(a[1..]);
    }
  }

  lemma {:induction false} LexLessAsymmetric(a: string, b: string)
    ensures LexLess(a, b) ==> !LexLess(b, a)
  {
    if |a| > 0 && |b| > 0 && a[0] == b[0] {
      LexLessAsymmetric(a[1..], b[1..]);
    }
  }

  lemma {:induction false} LexLessTransitive(a: string, b: string, c: string)
    ensures LexLess(a, b) && LexLess(b, c) ==> LexLess(a, c)
  {
    if |a| > 0 && |b| > 0 && |c| > 0 && a[0] == b[0] == c[0] {
      LexLessTransitive(a[1..], b[1..], c[1..]);
    }
  }

  /** Two different strings are always ordered one way or the other. */
  lemma {:induction false} LexLessTotal(a: string, b: string)
    ensures a == b || LexLess(a, b) || LexLess(b, a)
  {
    if |a| > 0 && |b| > 0 && a[0] == b[0] {
      LexLessTotal(a[1..], b[1..]);
      if a[1..] == b[1..] {
        assert a == [a[0]] + a[1..] && b == [b[0]] + b[1..];
      }
    }
  }

  /** A common prefix does not change the order of two strings. */
  lemma {:induction false} LexLessPrefix(p: string, a: string, b: string)
    requires LexLess(a, b)
    ensures LexLess(p + a, p + b)
  {
    if p == [] {
      assert p + a == a && p + b == b;
    } else {
      LexLessPrefix(p[1..], a, b);
      assert (p + a)[1..] == p[1..] + a && (p + b)[1..] == p[1..] + b;
    }
  }

  /** `a >= b` on Python strings. */
  predicate LexAtLeast(a: string, b: string)
  {
    !LexLess(a, b)
  }

  /** `>=` is a total preorder that only ties equal strings. */
  lemma LexAtLeastFacts(a: string, b: string, c: string)
    ensures LexAtLeast(a, a)
    ensures LexAtLeast(a, b) || LexAtLeast(b, a)
    ensures LexAtLeast(a, b) && LexAtLeast(b, a) ==> a == b
    ensures LexAtLeast(a, b) && LexAtLeast(b, c) ==> LexAtLeast(a, c)
  {
    LexLessIrreflexive(a);
    LexLessAsymmetric(a, b);
    LexLessTotal(a, b);
    LexLessTotal(b, c);
    LexLessTransitive(b, a, c);
    LexLessTransitive(a, c, b);
    LexLessTransitive(c, a, b);
    LexLessTransitive(b, c, a);
  }

  /** `xs` is in strictly descending order: what `sorted(..., reverse=True)` gives for distinct names. */
  predicate StrictlyDescending(xs: seq<string>)
  {
    forall i, j :: 0 <= i < j < |xs| ==> LexLess(xs[j], xs[i])
  }

  /** `xs` is in descending order, ties allowed. */
  predicate Descending(xs: seq<string>)
  {
    forall i, j :: 0 <= i < j < |xs| ==> LexAtLeast(xs[i], xs[j])
  }

  /** The names occurring in `xs`. */
  function Elems(xs: seq<string>): set<string>
  {
    set x | x in xs
  }

  predicate Distinct(xs: seq<string>)
  {
    forall i, j :: 0 <= i < j < |xs| ==> xs[i] != xs[j]
  }

  /**
   * A strictly descending sequence is fixed by its set of elements: the
   * categories of the load chart are determined by which actors occur.
   */
  lemma {:induction false} StrictlyDescendingUnique(xs: seq<string>, ys: seq<string>)
    requires StrictlyDescending(xs) && StrictlyDescending(ys)
    requires Elems(xs) == Elems(ys)
    ensures xs == ys
  {
    var common := Elems(xs);
    if xs != [] && ys != [] {
      forall x | x in xs ensures x in ys {
        assert x in common;
      }
      forall y | y in ys ensures y in xs {
        assert y in common;
      }
      // the head of each is the largest element of the common set
      if xs[0] != ys[0] {
        assert xs[0] in ys;
        assert ys[0] in xs;
        assert LexLess(xs[0], ys[0]);
        assert LexLess(ys[0], xs[0]);
        LexLessAsymmetric(xs[0], ys[0]);
        assert false;
      }
      forall x | x in xs[1..] ensures x in ys[1..] {
        assert x in ys;
        LexLessIrreflexive(x);
      }
      forall y | y in ys[1..] ensures y in xs[1..] {
        assert y in xs;
        LexLessIrreflexive(y);
      }
      StrictlyDescendingUnique(xs[1..], ys[1..]);
      assert xs == [xs[0]] + xs[1..] && ys == [ys[0]] + ys[1..];
    } else {
      SameElementsEmpty(xs, ys);
      SameElementsEmpty(ys, xs);
    }
  }

  lemma SameElementsEmpty(xs: seq<string>, ys: seq<string>)
    requires Elems(xs) == Elems(ys)
    ensures xs != [] ==> ys != []
  {
    if xs != [] {
      assert xs[0] in Elems(xs);
    }
  }

  /** Descending and without repeats is strictly descending. */
  lemma DistinctDescendingIsStrict(xs: seq<string>)
    requires Descending(xs) && Distinct(xs)
    ensures StrictlyDescending(xs)
  {
    forall i, j | 0 <= i < j < |xs| ensures LexLess(xs[j], xs[i]) {
      LexLessTotal(xs[i], xs[j]);
    }
  }

  /** Reordering keeps the set of names, and keeps them free of repeats. */
  lemma PermutationFacts(xs: seq<string>, ys: seq<string>)
    requires multiset(xs) == multiset(ys)
    ensures Elems(xs) == Elems(ys)
    ensures Distinct(xs) ==> Distinct(ys)
  {
    forall x ensures x in xs <==> x in ys {
      assert x in xs <==> x in multiset(xs);
      assert x in ys <==> x in multiset(ys);
    }
    if Distinct(xs) {
      forall i, j | 0 <= i < j < |ys| ensures ys[i] != ys[j] {
        if ys[i] == ys[j] {
          DuplicateCounts(ys, i, j);
          DistinctCounts(xs, ys[i]);
          assert false;
        }
      }
    }
  }

  /** A name at two positions occurs at least twice. */
  lemma DuplicateCounts(xs: seq<string>, i: int, j: int)
    requires 0 <= i < j < |xs| && xs[i] == xs[j]
    ensures multiset(xs)[xs[i]] >= 2
  {
    assert xs == xs[..i] + [xs[i]] + xs[i + 1..j] + [xs[j]] + xs[j + 1..];
  }

  /** Without repeats, every name occurs at most once. */
  lemma {:induction false} DistinctCounts(xs: seq<string>, x: string)
    requires Distinct(xs)
    ensures multiset(xs)[x] <= 1
  {
    if xs != [] {
      var init := xs[..|xs| - 1];
      assert xs == init + [xs[|xs| - 1]];
      DistinctCounts(init, x);
      if xs[|xs| - 1] == x {
        assert x !in init;
      }
    }
  }
}
