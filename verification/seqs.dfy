/** Small facts about sequences shared by the draw and the registered-names list. */
module Seqs {

  function Min(a: int, b: int): (m: int)
  {
    if a < b then a else b
  }

  /** No element occurs twice. */
  predicate NoDuplicates<T(==)>(xs: seq<T>)
  {
    forall i, j :: 0 <= i < j < |xs| ==> xs[i] != xs[j]
  }

  /** A sequence has no duplicates exactly when every element occurs at most once in its multiset. */
  lemma {:induction false} NoDuplicatesMultiplicity<T>(xs: seq<T>)
    ensures NoDuplicates(xs) <==> forall x :: multiset(xs)[x] <= 1
  {
    if |xs| > 0 {
      var h, t := xs[0], xs[1..];
      assert xs == [h] + t;
      NoDuplicatesMultiplicity(t);
      if NoDuplicates(xs) {
        assert NoDuplicates(t) by {
          forall i, j | 0 <= i < j < |t| ensures t[i] != t[j] {
            assert t[i] == xs[i + 1] && t[j] == xs[j + 1];
          }
        }
        assert h !in t by {
          forall k | 0 <= k < |t| ensures t[k] != h {
            assert t[k] == xs[k + 1];
          }
        }
        forall x ensures multiset(xs)[x] <= 1 {
          assert multiset(xs)[x] == multiset([h])[x] + multiset(t)[x];
        }
      }
      if forall x :: multiset(xs)[x] <= 1 {
        assert multiset(xs)[h] == 1 + multiset(t)[h];
        assert h !in t;
        forall x ensures multiset(t)[x] <= 1 {
          assert multiset(xs)[x] == multiset([h])[x] + multiset(t)[x];
        }
        forall i, j | 0 <= i < j < |xs| ensures xs[i] != xs[j] {
          if i == 0 {
            assert xs[j] == t[j - 1];
          } else {
            assert xs[i] == t[i - 1] && xs[j] == t[j - 1];
          }
        }
      }
    }
  }

  /** Reordering keeps a duplicate-free sequence duplicate-free. */
  lemma NoDuplicatesPermutation<T>(a: seq<T>, b: seq<T>)
    requires multiset(a) == multiset(b)
    requires NoDuplicates(a)
    ensures NoDuplicates(b)
  {
    NoDuplicatesMultiplicity(a);
    NoDuplicatesMultiplicity(b);
  }

  /** The two parts of a duplicate-free concatenation are duplicate-free and share no element. */
  lemma NoDuplicatesConcat<T>(a: seq<T>, b: seq<T>)
    requires NoDuplicates(a + b)
    ensures NoDuplicates(a) && NoDuplicates(b)
    ensures forall x :: x in a ==> x !in b
  {
    forall i, j | 0 <= i < j < |a| ensures a[i] != a[j] {
      assert a[i] == (a + b)[i] && a[j] == (a + b)[j];
    }
    forall i, j | 0 <= i < j < |b| ensures b[i] != b[j] {
      assert b[i] == (a + b)[|a| + i] && b[j] == (a + b)[|a| + j];
    }
    forall i, j | 0 <= i < |a| && 0 <= j < |b| ensures a[i] != b[j] {
      assert a[i] == (a + b)[i] && b[j] == (a + b)[|a| + j];
    }
  }
}
