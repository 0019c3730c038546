/** sort.Slice: sorts in place by a comparator, promising nothing about ties. */
module Sorting {

  ghost predicate Sorted<T(!new)>(s: seq<T>, less: (T, T) -> bool) {
    forall i, j :: 0 <= i < j < |s| ==> !less(s[j], s[i])
  }

  /** What sort.Slice requires of its comparator. */
  ghost predicate StrictWeakOrder<T(!new)>(less: (T, T) -> bool) {
    && (forall a, b :: less(a, b) ==> !less(b, a))
    && (forall a, b, c :: !less(b, a) && !less(c, b) ==> !less(c, a))
  }

  /** The prefix up to and including n is ordered, except that element j may belong further left. */
  ghost predicate SortedExcept<T(!new)>(s: seq<T>, less: (T, T) -> bool, n: nat, j: nat)
    requires n < |s|
  {
    forall i, k :: 0 <= i < k <= n && k != j ==> !less(s[k], s[i])
  }

  function Swapped<T>(s: seq<T>, j: nat): (r: seq<T>)
    requires 0 < j < |s|
  {
    s[j - 1 := s[j]][j := s[j - 1]]
  }

  lemma SwapKeeps<T(!new)>(s: seq<T>, less: (T, T) -> bool, n: nat, j: nat)
    requires StrictWeakOrder(less) && 0 < j <= n < |s| && SortedExcept(s, less, n, j) && less(s[j], s[j - 1])
    ensures SortedExcept(Swapped(s, j), less, n, j - 1) && multiset(Swapped(s, j)) == multiset(s)
  {
  }

  lemma PlacedIsSorted<T(!new)>(s: seq<T>, less: (T, T) -> bool, n: nat, j: nat)
    requires StrictWeakOrder(less) && j <= n < |s| && SortedExcept(s, less, n, j)
    requires j == 0 || !less(s[j], s[j - 1])
    ensures Sorted(s[..n + 1], less)
  {
    forall i | 0 <= i < j ensures !less(s[j], s[i]) {
      if i < j - 1 {
        assert !less(s[j - 1], s[i]) && !less(s[j], s[j - 1]);
      }
    }
  }

  method SortSlice<T(!new)>(a: array<T>, less: (T, T) -> bool)
    requires StrictWeakOrder(less)
    modifies a
    ensures multiset(a[..]) == multiset(old(a[..])) && Sorted(a[..], less)
  {
    for n := 0 to a.Length
      invariant multiset(a[..]) == multiset(old(a[..]))
      invariant Sorted(a[..n], less)
    {
      var j := n;
      while j > 0 && less(a[j], a[j - 1])
        invariant 0 <= j <= n
        invariant multiset(a[..]) == multiset(old(a[..]))
        invariant SortedExcept(a[..], less, n, j)
      {
        ghost var s := a[..];
        SwapKeeps(s, less, n, j);
        a[j - 1], a[j] := a[j], a[j - 1];
        assert a[..] == Swapped(s, j);
        j := j - 1;
      }
      PlacedIsSorted(a[..], less, n, j);
      assert a[..][..n + 1] == a[..n + 1];
    }
    assert a[..a.Length] == a[..];
  }

  lemma SameElements<T>(xs: seq<T>, ys: seq<T>)
    requires multiset(xs) == multiset(ys)
    ensures |xs| == |ys| && forall x :: x in xs <==> x in ys
  {
    assert |multiset(xs)| == |multiset(ys)|;
    forall x ensures x in xs <==> x in ys {
      assert x in multiset(xs) <==> x in multiset(ys);
    }
  }

  /** A listing without repetition stays so when reordered. */
  lemma DistinctPermuted<T>(xs: seq<T>, ys: seq<T>)
    requires multiset(xs) == multiset(ys) && forall i, j :: 0 <= i < j < |xs| ==> xs[i] != xs[j]
    ensures forall i, j :: 0 <= i < j < |ys| ==> ys[i] != ys[j]
  {
    forall i, j | 0 <= i < j < |ys| ensures ys[i] != ys[j] {
      if ys[i] == ys[j] {
        assert ys == ys[..i] + [ys[i]] + ys[i + 1..j] + [ys[j]] + ys[j + 1..];
        assert multiset(ys)[ys[i]] >= 2;
        AtMostOnce(xs, ys[i]);
      }
    }
  }

  lemma {:induction false} AtMostOnce<T>(xs: seq<T>, x: T)
    requires forall i, j :: 0 <= i < j < |xs| ==> xs[i] != xs[j]
    ensures multiset(xs)[x] <= 1
  {
    if xs != [] {
      var n := |xs| - 1;
      assert xs == xs[..n] + [xs[n]];
      AtMostOnce(xs[..n], x);
    }
  }
}
