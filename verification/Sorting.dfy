/** Stand-ins for the two standard algorithms the program calls: std::sort and
    std::min_element. Clients use only the contracts, so every result about a sorted
    sequence holds for any sorting algorithm, stable or not. */
module Sorting {

  /** What std::sort demands of its comparator, on the elements of `s`. */
  ghost predicate StrictWeakOrder<T(!new)>(less: (T, T) -> bool, s: seq<T>) {
    && (forall x | x in s :: !less(x, x))
    && (forall x, y, z | x in s && y in s && z in s && less(x, y) && less(y, z) :: less(x, z))
    && (forall x, y, z | x in s && y in s && z in s && !less(x, y) && !less(y, x) && !less(y, z) && !less(z, y) ::
          !less(x, z))
  }

  ghost predicate Sorted<T>(less: (T, T) -> bool, s: seq<T>) {
    forall i, j | 0 <= i < j < |s| :: !less(s[j], s[i])
  }

  lemma {:induction false} NegativelyTransitive<T(!new)>(less: (T, T) -> bool, s: seq<T>, x: T, y: T, z: T)
    requires StrictWeakOrder(less, s)
    requires x in s && y in s && z in s
    requires !less(x, y) && !less(y, z)
    ensures !less(x, z)
  {
    // If less(x, z), then y is neither before x nor after z, and so incomparable to both.
  }

  method Sort<T(!new,==)>(s: seq<T>, less: (T, T) -> bool) returns (r: seq<T>)
    requires StrictWeakOrder(less, s)
    ensures multiset(r) == multiset(s)
    ensures Sorted(less, r)
  {
    r := [];
    for i := 0 to |s|
      invariant multiset(r) == multiset(s[..i])
      invariant Sorted(less, r)
    {
      assert s[..i + 1] == s[..i] + [s[i]];
      forall y | y in r
        ensures y in s
      {
        assert y in multiset(r);
        assert y in s[..i];
      }
      r := Insert(s, r, s[i], less);
    }
    assert s[..|s|] == s;
  }

  method Insert<T(!new,==)>(ghost s: seq<T>, r: seq<T>, x: T, less: (T, T) -> bool) returns (r': seq<T>)
    requires StrictWeakOrder(less, s)
    requires x in s && forall y | y in r :: y in s
    requires Sorted(less, r)
    ensures multiset(r') == multiset(r) + multiset{x}
    ensures Sorted(less, r')
  {
    hide StrictWeakOrder, Sorted;
    var j := |r|;
    while j > 0 && less(x, r[j - 1])
      invariant 0 <= j <= |r|
      invariant forall k | j <= k < |r| :: less(x, r[k])
    {
      j := j - 1;
    }
    assert r == r[..j] + r[j..];
    r' := r[..j] + [x] + r[j..];
    PlaceFits(s, r, x, j, less);
  }

  /** Between the elements that are not greater and those that are, the new element keeps the order. */
  lemma {:induction false} PlaceFits<T(!new)>(s: seq<T>, r: seq<T>, x: T, j: nat, less: (T, T) -> bool)
    requires StrictWeakOrder(less, s) && x in s && (forall y | y in r :: y in s) && Sorted(less, r) && j <= |r|
    requires j > 0 ==> !less(x, r[j - 1])
    requires forall k | j <= k < |r| :: less(x, r[k])
    ensures Sorted(less, r[..j] + [x] + r[j..])
  {
    forall k | 0 <= k < j
      ensures !less(x, r[k])
    {
      if k < j - 1 {
        NegativelyTransitive(less, s, x, r[j - 1], r[k]);
      }
    }
    forall k | j <= k < |r|
      ensures !less(r[k], x)
    {
      NotBoth(less, s, x, r[k]);
    }
    assert r == r[..j] + r[j..];
    hide StrictWeakOrder;
    SortedJoin(less, r[..j], x, r[j..]);
  }

  lemma {:induction false} NotBoth<T(!new)>(less: (T, T) -> bool, s: seq<T>, x: T, y: T)
    requires StrictWeakOrder(less, s) && x in s && y in s && less(x, y)
    ensures !less(y, x)
  {
  }

  lemma {:induction false} SortedJoin<T>(less: (T, T) -> bool, below: seq<T>, x: T, above: seq<T>)
    requires Sorted(less, below + above)
    requires forall k | 0 <= k < |below| :: !less(x, below[k])
    requires forall k | 0 <= k < |above| :: !less(above[k], x)
    ensures Sorted(less, below + [x] + above)
  {
    var r, r', n := below + above, below + [x] + above, |below|;
    forall i, j | 0 <= i < j < |r'|
      ensures !less(r'[j], r'[i])
    {
      assert r'[i] == if i < n then r[i] else if i == n then x else r[i - 1];
      assert r'[j] == if j < n then r[j] else if j == n then x else r[j - 1];
      if i == n {
        assert r'[j] == above[j - n - 1];
      } else if j == n {
        assert r'[i] == below[i];
      }
    }
  }

  /** The index of the first smallest element. */
  method MinElement(s: seq<nat>) returns (least: nat)
    requires |s| > 0
    ensures least < |s|
    ensures forall i | 0 <= i < |s| :: s[least] <= s[i]
    ensures forall i | 0 <= i < least :: s[least] < s[i]
  {
    least := 0;
    for i := 1 to |s|
      invariant least < i
      invariant forall j | 0 <= j < i :: s[least] <= s[j]
      invariant forall j | 0 <= j < least :: s[least] < s[j]
    {
      if s[i] < s[least] {
        least := i;
      }
    }
  }
}
