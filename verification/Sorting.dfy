/** `sort.Slice` over a comparison function.

    The library leaves the result open when the comparison has ties. `Sort` is the insertion sort it
    uses on short slices; `SortUnique` shows that where ties are between equal elements only, every
    sorted permutation is that same sequence, so nothing below depends on the algorithm. */
module Sorting {

  ghost predicate StrictWeakOrder<T(!new)>(less: (T, T) -> bool) {
    && (forall a :: !less(a, a))
    && (forall a, b, c :: less(a, b) && less(b, c) ==> less(a, c))
    && (forall a, b, c :: less(a, c) ==> less(a, b) || less(b, c))
  }

  ghost predicate Sorted<T>(less: (T, T) -> bool, s: seq<T>) {
    forall i, j :: 0 <= i < j < |s| ==> !less(s[j], s[i])
  }

  /** The comparison separates any two different elements of the collection. */
  ghost predicate Separates<T(!new)>(less: (T, T) -> bool, s: multiset<T>) {
    forall a, b :: a in s && b in s && a != b ==> less(a, b) || less(b, a)
  }

  function Insert<T>(less: (T, T) -> bool, x: T, s: seq<T>): (r: seq<T>)
    ensures |r| == |s| + 1
  {
    if s == [] then [x]
    else if less(x, s[|s| - 1]) then Insert(less, x, s[..|s| - 1]) + [s[|s| - 1]]
    else s + [x]
  }

  function Sort<T>(less: (T, T) -> bool, s: seq<T>): (r: seq<T>)
    ensures |r| == |s|
  {
    if s == [] then [] else Insert(less, s[|s| - 1], Sort(less, s[..|s| - 1]))
  }

  lemma {:induction false} InsertKeepsElements<T>(less: (T, T) -> bool, x: T, s: seq<T>)
    ensures multiset(Insert(less, x, s)) == multiset(s) + multiset{x}
  {
    if s == [] {
    } else if less(x, s[|s| - 1]) {
      InsertKeepsElements(less, x, s[..|s| - 1]);
      assert s == s[..|s| - 1] + [s[|s| - 1]];
    }
  }

  lemma {:induction false} InsertSorted<T(!new)>(less: (T, T) -> bool, x: T, s: seq<T>)
    requires StrictWeakOrder(less) && Sorted(less, s)
    ensures Sorted(less, Insert(less, x, s))
  {
    if s == [] {
    } else if less(x, s[|s| - 1]) {
      var init, last := s[..|s| - 1], s[|s| - 1];
      InsertSorted(less, x, init);
      InsertKeepsElements(less, x, init);
      var r := Insert(less, x, init);
      forall i | 0 <= i < |r| ensures !less(last, r[i]) {
        assert r[i] in multiset(r);
        if r[i] != x {
          assert r[i] in multiset(init);
          var k :| 0 <= k < |init| && init[k] == r[i];
        }
      }
    }
  }

  /** The result is a sorted permutation of the input. */
  lemma {:induction false} SortCorrect<T(!new)>(less: (T, T) -> bool, s: seq<T>)
    requires StrictWeakOrder(less)
    ensures Sorted(less, Sort(less, s))
    ensures multiset(Sort(less, s)) == multiset(s)
  {
    if s == [] {
    } else {
      var init := s[..|s| - 1];
      SortCorrect(less, init);
      InsertSorted(less, s[|s| - 1], Sort(less, init));
      InsertKeepsElements(less, s[|s| - 1], Sort(less, init));
      assert s == init + [s[|s| - 1]];
    }
  }

  lemma HeadsAgree<T(!new)>(less: (T, T) -> bool, s: seq<T>, t: seq<T>)
    requires s != [] && Sorted(less, s) && Sorted(less, t) && multiset(s) == multiset(t)
    requires Separates(less, multiset(s))
    ensures t != [] && s[0] == t[0]
  {
    assert s[0] in multiset(s) && s[0] in multiset(t);
    var j :| 0 <= j < |t| && t[j] == s[0];
    assert t[0] in multiset(t) && t[0] in multiset(s);
    var i :| 0 <= i < |s| && s[i] == t[0];
    assert i > 0 ==> !less(s[i], s[0]);
    assert j > 0 ==> !less(t[j], t[0]);
  }

  lemma TailElements<T(!new)>(less: (T, T) -> bool, s: seq<T>, t: seq<T>)
    requires s != [] && t != [] && s[0] == t[0] && multiset(s) == multiset(t) && Separates(less, multiset(s))
    ensures multiset(s[1..]) == multiset(t[1..]) && Separates(less, multiset(s[1..]))
  {
    assert s == [s[0]] + s[1..] && t == [t[0]] + t[1..];
    assert multiset(s[1..]) == multiset(s) - multiset{s[0]};
    assert multiset(t[1..]) == multiset(t) - multiset{s[0]};
  }

  /** Two sorted permutations of the same elements are equal when ties are between equal elements. */
  lemma {:induction false} SortedUnique<T(!new)>(less: (T, T) -> bool, s: seq<T>, t: seq<T>)
    requires Sorted(less, s) && Sorted(less, t) && multiset(s) == multiset(t)
    requires Separates(less, multiset(s))
    ensures s == t
  {
    if s == [] {
      assert |t| == |multiset(t)| == 0;
    } else {
      HeadsAgree(less, s, t);
      TailElements(less, s, t);
      SortedUnique(less, s[1..], t[1..]);
      assert s == [s[0]] + s[1..] && t == [t[0]] + t[1..];
    }
  }

  /** Every sorted permutation of `s` is `Sort(less, s)`: the sorting algorithm does not matter. */
  lemma SortUnique<T(!new)>(less: (T, T) -> bool, s: seq<T>, t: seq<T>)
    requires StrictWeakOrder(less) && Separates(less, multiset(s))
    requires Sorted(less, t) && multiset(t) == multiset(s)
    ensures t == Sort(less, s)
  {
    SortCorrect(less, s);
    SortedUnique(less, Sort(less, s), t);
  }

  /** Sorting forgets the order of its input. */
  lemma SortOfPermutation<T(!new)>(less: (T, T) -> bool, s: seq<T>, t: seq<T>)
    requires StrictWeakOrder(less) && Separates(less, multiset(s)) && multiset(s) == multiset(t)
    ensures Sort(less, s) == Sort(less, t)
  {
    SortCorrect(less, t);
    SortUnique(less, s, Sort(less, t));
  }

  /** A sorted sequence is left as it is. */
  lemma {:induction false} SortFixed<T>(less: (T, T) -> bool, s: seq<T>)
    requires Sorted(less, s)
    ensures Sort(less, s) == s
  {
    if s == [] {
    } else {
      SortFixed(less, s[..|s| - 1]);
      assert s == s[..|s| - 1] + [s[|s| - 1]];
    }
  }

  lemma SwapStep<T>(less: (T, T) -> bool, x: T, left: seq<T>, right: seq<T>)
    requires left != [] && less(x, left[|left| - 1])
    ensures Insert(less, x, left) + right == Insert(less, x, left[..|left| - 1]) + ([left[|left| - 1]] + right)
  {
  }

  lemma SwapSlices<T>(s: seq<T>, s': seq<T>, j: nat, i: nat)
    requires 0 < j <= i < |s| && s' == s[j - 1 := s[j]][j := s[j - 1]]
    ensures s'[..j - 1] == s[..j][..j - 1] && s'[j - 1] == s[j]
    ensures s'[j..i + 1] == [s[j - 1]] + s[j + 1..i + 1]
    ensures s'[i + 1..] == s[i + 1..]
  {
  }

  /** Where the insertion of `x` into the sorted part `done` stands: everything above `x` has moved up. */
  ghost predicate Inserting<T>(less: (T, T) -> bool, s: seq<T>, done: seq<T>, tail: seq<T>, x: T, j: nat) {
    && j <= |done| < |s| && s[j] == x && s[|done| + 1..] == tail
    && Insert(less, x, done) == Insert(less, x, s[..j]) + s[j + 1..|done| + 1]
  }

  lemma InsertingFurther<T>(less: (T, T) -> bool, s: seq<T>, s': seq<T>, done: seq<T>, tail: seq<T>, x: T, j: nat)
    requires Inserting(less, s, done, tail, x, j) && j > 0 && less(x, s[j - 1])
    requires s' == s[j - 1 := s[j]][j := s[j - 1]]
    ensures Inserting(less, s', done, tail, x, j - 1)
  {
    SwapSlices(s, s', j, |done|);
    SwapStep(less, x, s[..j], s[j + 1..|done| + 1]);
  }

  /** Moves element `i` down by adjacent swaps to its place among the elements before it. */
  method InsertInPlace<T>(less: (T, T) -> bool, a: array<T>, i: nat)
    requires i < a.Length
    modifies a
    ensures a[..i + 1] == Insert(less, old(a[i]), old(a[..i]))
    ensures a[i + 1..] == old(a[i + 1..])
  {
    ghost var x, done, tail := a[i], a[..i], a[i + 1..];
    assert a[..][..i] == done;
    var j := i;
    while j > 0 && less(a[j], a[j - 1])
      invariant Inserting(less, a[..], done, tail, x, j)
    {
      ghost var s := a[..];
      a[j], a[j - 1] := a[j - 1], a[j];
      InsertingFurther(less, s, a[..], done, tail, x, j);
      j := j - 1;
    }
    assert Insert(less, x, a[..][..j]) == a[..][..j] + [x];
    assert a[..i + 1] == a[..][..j] + [x] + a[..][j + 1..i + 1];
  }

  /** Insertion sort, in place. */
  method SortInPlace<T>(less: (T, T) -> bool, a: array<T>)
    modifies a
    ensures a[..] == Sort(less, old(a[..]))
  {
    ghost var was := a[..];
    for i := 0 to a.Length
      invariant a[..i] == Sort(less, was[..i])
      invariant a[i..] == was[i..]
    {
      assert was[..i + 1][..i] == was[..i] && was[..i + 1][i] == was[i..][0] == a[i];
      ghost var rest := a[i + 1..];
      assert rest == was[i..][1..] == was[i + 1..];
      InsertInPlace(less, a, i);
    }
    assert a[..] == a[..a.Length] && was == was[..a.Length];
  }

  /** Sorts a copy of `s`, as `append([]T(nil), s...)` followed by `sort.Slice` does. */
  method SortCopy<T>(less: (T, T) -> bool, s: seq<T>) returns (r: seq<T>)
    ensures r == Sort(less, s)
  {
    var a := new T[|s|](i requires 0 <= i < |s| => s[i]);
    assert a[..] == s;
    SortInPlace(less, a);
    r := a[..];
  }
}
