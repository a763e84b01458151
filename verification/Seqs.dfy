/** Sequences under mapping and filtering, up to the order of their elements. */
module Seqs {

  function Map<T, U>(f: T -> U, s: seq<T>): (r: seq<U>)
    ensures |r| == |s| && forall i :: 0 <= i < |s| ==> r[i] == f(s[i])
  {
    seq(|s|, i requires 0 <= i < |s| => f(s[i]))
  }

  /** The elements that pass the test, in their order. */
  function Filter<T>(ok: T -> bool, s: seq<T>): (r: seq<T>)
    ensures forall x :: x in r ==> x in s && ok(x)
    ensures |r| <= |s|
  {
    if s == [] then []
    else
      var rest := Filter(ok, s[..|s| - 1]);
      if ok(s[|s| - 1]) then rest + [s[|s| - 1]] else rest
  }

  lemma FilterSnoc<T>(ok: T -> bool, s: seq<T>, i: nat)
    requires i < |s|
    ensures Filter(ok, s[..i + 1]) == if ok(s[i]) then Filter(ok, s[..i]) + [s[i]] else Filter(ok, s[..i])
  {
    assert s[..i + 1][..i] == s[..i];
  }

  lemma {:induction false} FilterPrefix<T>(ok: T -> bool, s: seq<T>, i: nat)
    requires i <= |s|
    ensures Filter(ok, s[..i]) <= Filter(ok, s)
  {
    if i < |s| {
      FilterPrefix(ok, s[..|s| - 1], i);
      assert s[..|s| - 1][..i] == s[..i];
    } else {
      assert s[..i] == s;
    }
  }

  lemma {:induction false} FilterCounts<T>(ok: T -> bool, s: seq<T>, x: T)
    ensures multiset(Filter(ok, s))[x] == if ok(x) then multiset(s)[x] else 0
  {
    if s == [] {
    } else {
      FilterCounts(ok, s[..|s| - 1], x);
      assert s == s[..|s| - 1] + [s[|s| - 1]];
    }
  }

  /** Filtering commutes with permuting. */
  lemma FilterOfPermutation<T(!new)>(ok: T -> bool, s: seq<T>, t: seq<T>)
    requires multiset(s) == multiset(t)
    ensures multiset(Filter(ok, s)) == multiset(Filter(ok, t))
  {
    forall x ensures multiset(Filter(ok, s))[x] == multiset(Filter(ok, t))[x] {
      FilterCounts(ok, s, x);
      FilterCounts(ok, t, x);
    }
  }

  /** A filtered subsequence keeps every pairwise property of the sequence. */
  lemma {:induction false} FilterKeepsPairs<T(!new)>(ok: T -> bool, s: seq<T>, rel: (T, T) -> bool)
    requires forall i, j :: 0 <= i < j < |s| ==> rel(s[i], s[j])
    ensures forall i, j :: 0 <= i < j < |Filter(ok, s)| ==> rel(Filter(ok, s)[i], Filter(ok, s)[j])
  {
    if s == [] {
    } else {
      var init, last := s[..|s| - 1], s[|s| - 1];
      FilterKeepsPairs(ok, init, rel);
      var r, rest := Filter(ok, s), Filter(ok, init);
      forall i, j | 0 <= i < j < |r| ensures rel(r[i], r[j]) {
        if j < |rest| {
          assert rel(rest[i], rest[j]);
        } else {
          assert rest[i] in init;
          var k :| 0 <= k < |init| && init[k] == rest[i];
          assert rel(s[k], s[|s| - 1]);
        }
      }
    }
  }

  lemma RemoveAt<T>(s: seq<T>, k: nat)
    requires k < |s|
    ensures multiset(s[..k] + s[k + 1..]) == multiset(s) - multiset{s[k]}
  {
    assert s == s[..k] + ([s[k]] + s[k + 1..]);
    assert multiset(s) == multiset(s[..k]) + (multiset{s[k]} + multiset(s[k + 1..]));
  }

  lemma MapSplit<T, U>(f: T -> U, s: seq<T>, k: nat)
    requires k < |s|
    ensures multiset(Map(f, s)) == multiset(Map(f, s[..k] + s[k + 1..])) + multiset{f(s[k])}
  {
    RemoveAt(Map(f, s), k);
    assert Map(f, s[..k] + s[k + 1..]) == Map(f, s)[..k] + Map(f, s)[k + 1..];
  }

  function Without<T>(s: seq<T>, k: nat): seq<T>
    requires k < |s|
  {
    s[..k] + s[k + 1..]
  }

  lemma FindHead<T>(s: seq<T>, t: seq<T>) returns (k: nat)
    requires s != [] && multiset(s) == multiset(t)
    ensures k < |t| && t[k] == s[0] && multiset(Without(s, 0)) == multiset(Without(t, k))
  {
    assert s[0] in multiset(t);
    k :| 0 <= k < |t| && t[k] == s[0];
    RemoveAt(s, 0);
    RemoveAt(t, k);
  }

  lemma FindSame<T>(s: seq<T>, t: seq<T>, i: nat) returns (j: nat)
    requires i < |s| && multiset(s) == multiset(t)
    ensures j < |t| && t[j] == s[i]
  {
    assert s[i] in multiset(t);
    j :| 0 <= j < |t| && t[j] == s[i];
  }

  /** Mapping commutes with permuting. */
  lemma {:induction false} MapOfPermutation<T, U>(f: T -> U, s: seq<T>, t: seq<T>)
    requires multiset(s) == multiset(t)
    ensures multiset(Map(f, s)) == multiset(Map(f, t))
    decreases |s|
  {
    if s == [] {
      assert |t| == |multiset(t)| == 0;
    } else {
      var k := FindHead(s, t);
      MapOfPermutation(f, Without(s, 0), Without(t, k));
      MapSplit(f, s, 0);
      MapSplit(f, t, k);
    }
  }

  ghost predicate Distinct<T>(s: seq<T>) {
    forall i, j :: 0 <= i < j < |s| ==> s[i] != s[j]
  }

  lemma {:induction false} DistinctCounts<T>(s: seq<T>, x: T)
    requires Distinct(s)
    ensures multiset(s)[x] <= 1
  {
    if s == [] {
    } else {
      DistinctCounts(s[1..], x);
      assert s == [s[0]] + s[1..];
      assert s[0] !in s[1..];
    }
  }

  lemma RepeatCounts<T>(t: seq<T>, i: nat, j: nat)
    requires i < j < |t| && t[i] == t[j]
    ensures multiset(t)[t[i]] >= 2
  {
    RemoveAt(t, j);
    assert t[i] == (t[..j] + t[j + 1..])[i];
    assert t[i] in multiset(t[..j] + t[j + 1..]);
  }

  lemma MembersFit<T>(s: seq<T>, t: seq<T>)
    requires forall x :: x in s ==> multiset(s)[x] <= 1 && x in t
    ensures |s| <= |t|
  {
    var rest := multiset(t) - multiset(s);
    assert multiset(t) == multiset(s) + rest;
    assert |t| == |multiset(t)| == |s| + |rest|;
  }

  /** A permutation of a sequence without repetitions has none. */
  lemma DistinctPermutation<T>(s: seq<T>, t: seq<T>)
    requires Distinct(s) && multiset(s) == multiset(t)
    ensures Distinct(t)
  {
    forall i, j | 0 <= i < j < |t| ensures t[i] != t[j] {
      DistinctCounts(s, t[i]);
      if t[i] == t[j] {
        RepeatCounts(t, i, j);
        assert false;
      }
    }
  }

  /** Sequences without repetitions are permutations of each other when they have the same members. */
  lemma SameMembersPermute<T(!new)>(s: seq<T>, t: seq<T>)
    requires Distinct(s) && Distinct(t) && forall x :: x in s <==> x in t
    ensures multiset(s) == multiset(t)
  {
    forall x ensures multiset(s)[x] == multiset(t)[x] {
      DistinctCounts(s, x);
      DistinctCounts(t, x);
      assert x in multiset(s) <==> x in s;
      assert x in multiset(t) <==> x in t;
    }
  }

  /** When a part is as long as the whole, nothing is left over. */
  lemma NothingLeftOver<T>(part: seq<T>, rest: seq<T>, whole: seq<T>)
    requires multiset(part) + multiset(rest) == multiset(whole) && |part| == |whole|
    ensures multiset(part) == multiset(whole)
    ensures forall x :: x in part ==> x in whole
  {
    assert |part| + |rest| == |multiset(part) + multiset(rest)| == |multiset(whole)| == |whole|;
    assert rest == [];
    forall x | x in part ensures x in whole {
      assert x in multiset(part);
      assert x in multiset(whole);
    }
  }

  function Flatten<T>(ss: seq<seq<T>>): seq<T> {
    if ss == [] then [] else Flatten(ss[..|ss| - 1]) + ss[|ss| - 1]
  }

  lemma {:induction false} FlattenEmpty<T>(ss: seq<seq<T>>)
    ensures Flatten(ss) == [] <==> forall i :: 0 <= i < |ss| ==> ss[i] == []
  {
    if ss == [] {
    } else {
      var init := ss[..|ss| - 1];
      FlattenEmpty(init);
      assert forall i :: 0 <= i < |init| ==> init[i] == ss[i];
      assert |Flatten(ss)| == |Flatten(init)| + |ss[|ss| - 1]|;
    }
  }

  lemma {:induction false} FlattenMembers<T>(ss: seq<seq<T>>, x: T)
    ensures x in Flatten(ss) <==> exists i :: 0 <= i < |ss| && x in ss[i]
  {
    if ss == [] {
    } else {
      var init := ss[..|ss| - 1];
      FlattenMembers(init, x);
      if i :| 0 <= i < |init| && x in init[i] {
        assert x in ss[i];
      }
      if i :| 0 <= i < |ss| && x in ss[i] {
        assert i < |init| ==> x in init[i];
      }
    }
  }

  lemma FilterMember<T>(ok: T -> bool, s: seq<T>, x: T)
    ensures x in Filter(ok, s) <==> x in s && ok(x)
  {
  }

  lemma {:induction false} FilterAgree<T>(ok: T -> bool, ok': T -> bool, s: seq<T>)
    requires forall x :: x in s ==> ok(x) == ok'(x)
    ensures Filter(ok, s) == Filter(ok', s)
  {
    if s == [] {
    } else {
      FilterAgree(ok, ok', s[..|s| - 1]);
      assert s[|s| - 1] in s;
    }
  }

  /** Two filters in a row are one. */
  lemma {:induction false} FilterBoth<T>(a: T -> bool, b: T -> bool, both: T -> bool, s: seq<T>)
    requires forall x :: x in s ==> both(x) == (a(x) && b(x))
    ensures Filter(a, Filter(b, s)) == Filter(both, s)
  {
    if s == [] {
    } else {
      var init, last := s[..|s| - 1], s[|s| - 1];
      FilterBoth(a, b, both, init);
      var kept := Filter(b, init);
      assert last in s && (kept + [last])[..|kept|] == kept;
    }
  }

  /** Filtering by the weaker of two tests first changes nothing. */
  lemma FilterTwice<T>(ok: T -> bool, weaker: T -> bool, s: seq<T>)
    requires forall x :: x in s && ok(x) ==> weaker(x)
    ensures Filter(ok, Filter(weaker, s)) == Filter(ok, s)
  {
    FilterBoth(ok, weaker, ok, s);
  }

  /** Filtering after a map that keeps the test. */
  lemma {:induction false} FilterOfMap<T, U>(ok: U -> bool, ok': T -> bool, f: T -> U, s: seq<T>)
    requires forall x :: x in s ==> ok(f(x)) == ok'(x)
    ensures Filter(ok, Map(f, s)) == Map(f, Filter(ok', s))
  {
    if s == [] {
    } else {
      var i := |s| - 1;
      FilterOfMap(ok, ok', f, s[..i]);
      assert s[i] in s && s[..i + 1] == s;
      MapSnoc(f, s, i);
      assert (Map(f, s[..i]) + [f(s[i])])[..i] == Map(f, s[..i]);
    }
  }

  lemma {:induction false} FilterAll<T>(ok: T -> bool, s: seq<T>)
    requires forall x :: x in s ==> ok(x)
    ensures Filter(ok, s) == s
  {
    if s == [] {
    } else {
      FilterAll(ok, s[..|s| - 1]);
      assert s[|s| - 1] in s;
    }
  }

  lemma MapSnoc<T, U>(f: T -> U, s: seq<T>, i: nat)
    requires i < |s|
    ensures Map(f, s[..i + 1]) == Map(f, s[..i]) + [f(s[i])]
  {
  }
}
