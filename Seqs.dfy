/**
 * Sequence helpers shared by the blog model: an Option type, order-preserving
 * filtering (what a queryset `.filter(...)` does to an ordered result), the
 * subsequence relation, and sorting by an integer key (what `.order_by(...)`
 * does).
 */
module Seqs {

  datatype Option<+T> = None | Some(value: T)

  /** `r` can be obtained from `s` by deleting elements, keeping the order. */
  ghost predicate IsSubseq<T>(r: seq<T>, s: seq<T>)
    decreases |s|
  {
    r == [] || (s != [] && ((r[0] == s[0] && IsSubseq(r[1..], s[1..])) || IsSubseq(r, s[1..])))
  }

  /** Non-decreasing by `key` (pairwise, so it survives taking subsequences). */
  ghost predicate SortedBy<T>(s: seq<T>, key: T -> int)
  {
    forall i, j :: 0 <= i < j < |s| ==> key(s[i]) <= key(s[j])
  }

  /** Keeps exactly the elements satisfying `f`, in their original order. */
  function Filter<T(!new)>(s: seq<T>, f: T -> bool): (r: seq<T>)
    ensures |r| <= |s|
    ensures forall x :: x in r <==> x in s && f(x)
    ensures IsSubseq(r, s)
  {
    if s == [] then []
    else
      var rest := Filter(s[1..], f);
      if f(s[0]) then
        assert ([s[0]] + rest)[1..] == rest;
        [s[0]] + rest
      else
        rest
  }

  /** Filtering with two predicates that agree everywhere on `s` gives the same result. */
  lemma {:induction false} FilterAgrees<T(!new)>(s: seq<T>, f: T -> bool, g: T -> bool)
    requires forall x :: x in s ==> f(x) == g(x)
    ensures Filter(s, f) == Filter(s, g)
  {
    if s != [] {
      FilterAgrees(s[1..], f, g);
    }
  }

  lemma {:induction false} SubseqRefl<T>(s: seq<T>)
    ensures IsSubseq(s, s)
    decreases |s|
  {
    if s != [] {
      SubseqRefl(s[1..]);
    }
  }

  lemma {:induction false} SubseqMembers<T>(r: seq<T>, s: seq<T>)
    requires IsSubseq(r, s)
    ensures forall x :: x in r ==> x in s
    decreases |s|
  {
    if r != [] {
      if r[0] == s[0] && IsSubseq(r[1..], s[1..]) {
        SubseqMembers(r[1..], s[1..]);
        forall x | x in r ensures x in s {
          if x != r[0] { assert x in r[1..]; }
        }
      } else {
        SubseqMembers(r, s[1..]);
      }
    }
  }

  /** Deleting elements from a sorted sequence leaves it sorted. */
  lemma {:induction false} SubseqKeepsSorted<T>(r: seq<T>, s: seq<T>, key: T -> int)
    requires IsSubseq(r, s) && SortedBy(s, key)
    ensures SortedBy(r, key)
    decreases |s|
  {
    if r != [] {
      assert SortedBy(s[1..], key) by {
        forall i, j | 0 <= i < j < |s[1..]| ensures key(s[1..][i]) <= key(s[1..][j]) {
          assert s[1..][i] == s[i + 1] && s[1..][j] == s[j + 1];
        }
      }
      if r[0] == s[0] && IsSubseq(r[1..], s[1..]) {
        SubseqKeepsSorted(r[1..], s[1..], key);
        SubseqMembers(r[1..], s[1..]);
        forall i, j | 0 <= i < j < |r| ensures key(r[i]) <= key(r[j]) {
          if i == 0 {
            assert r[j] == r[1..][j - 1];
            assert r[j] in s[1..];
            var k :| 0 <= k < |s[1..]| && s[1..][k] == r[j];
            assert s[k + 1] == r[j];
          } else {
            assert r[i] == r[1..][i - 1] && r[j] == r[1..][j - 1];
          }
        }
      } else {
        SubseqKeepsSorted(r, s[1..], key);
      }
    }
  }

  lemma SortedTail<T>(s: seq<T>, key: T -> int)
    requires s != [] && SortedBy(s, key)
    ensures SortedBy(s[1..], key)
    ensures forall y :: y in multiset(s[1..]) ==> key(s[0]) <= key(y)
  {
    forall i, j | 0 <= i < j < |s[1..]| ensures key(s[1..][i]) <= key(s[1..][j]) {
      assert s[1..][i] == s[i + 1] && s[1..][j] == s[j + 1];
    }
    forall y | y in multiset(s[1..]) ensures key(s[0]) <= key(y) {
      var k :| 0 <= k < |s[1..]| && s[1..][k] == y;
      assert s[k + 1] == y;
    }
  }

  /** Putting an element no larger than every member in front keeps a sequence sorted. */
  lemma SortedCons<T>(y: T, s: seq<T>, key: T -> int)
    requires SortedBy(s, key)
    requires forall z :: z in multiset(s) ==> key(y) <= key(z)
    ensures SortedBy([y] + s, key)
  {
    var r := [y] + s;
    forall i, j | 0 <= i < j < |r| ensures key(r[i]) <= key(r[j]) {
      assert r[j] == s[j - 1];
      assert r[j] in multiset(s);
      if i > 0 {
        assert r[i] == s[i - 1];
      }
    }
  }

  /** Inserts `x` into a sorted sequence, before the first element with a larger-or-equal key. */
  function Insert<T>(x: T, s: seq<T>, key: T -> int): (r: seq<T>)
    requires SortedBy(s, key)
    ensures SortedBy(r, key)
    ensures multiset(r) == multiset(s) + multiset{x}
  {
    if s == [] then [x]
    else if key(x) <= key(s[0]) then
      SortedTail(s, key);
      assert s == [s[0]] + s[1..];
      SortedCons(x, s, key);
      [x] + s
    else
      SortedTail(s, key);
      var rest := Insert(x, s[1..], key);
      assert s == [s[0]] + s[1..];
      SortedCons(s[0], rest, key);
      [s[0]] + rest
  }

  /** Insertion sort: a non-decreasing permutation of `s`. */
  function SortBy<T>(s: seq<T>, key: T -> int): (r: seq<T>)
    ensures SortedBy(r, key)
    ensures multiset(r) == multiset(s)
  {
    if s == [] then []
    else
      assert s == [s[0]] + s[1..];
      Insert(s[0], SortBy(s[1..], key), key)
  }

  /** The first element satisfying `f`: a lookup by key in a table. */
  function First<T(!new)>(s: seq<T>, f: T -> bool): (r: Option<T>)
    ensures r.Some? ==> r.value in s && f(r.value)
    ensures r.None? ==> forall x :: x in s ==> !f(x)
  {
    if s == [] then None
    else if f(s[0]) then Some(s[0])
    else First(s[1..], f)
  }

  /** Applies `f` to every element. */
  function Map<T, U>(s: seq<T>, f: T -> U): (r: seq<U>)
    ensures |r| == |s|
    ensures forall i :: 0 <= i < |s| ==> r[i] == f(s[i])
  {
    if s == [] then [] else [f(s[0])] + Map(s[1..], f)
  }

  /** No element occurs twice. */
  ghost predicate NoDuplicates<T>(s: seq<T>)
  {
    forall i, j :: 0 <= i < j < |s| ==> s[i] != s[j]
  }

  /** Keeps the first occurrence of every element: one possible iteration order of a Python set built from `s`. */
  function Dedup<T(==,!new)>(s: seq<T>): (r: seq<T>)
    ensures forall x :: x in r <==> x in s
    ensures NoDuplicates(r)
  {
    if s == [] then []
    else
      var k := |s| - 1;
      var rest := Dedup(s[..k]);
      assert s == s[..k] + [s[k]];
      if s[k] in rest then rest else rest + [s[k]]
  }

  /** Two sequences with the same multiset have the same members. */
  lemma SameMultisetSameMembers<T>(r: seq<T>, s: seq<T>)
    requires multiset(r) == multiset(s)
    ensures forall x :: x in r <==> x in s
  {
    forall x ensures x in r <==> x in s {
      assert x in r <==> x in multiset(r);
      assert x in s <==> x in multiset(s);
    }
  }

  /** A sequence has no duplicates exactly when no element occurs twice in its multiset. */
  lemma {:induction false} NoDuplicatesMultiset<T>(s: seq<T>)
    ensures NoDuplicates(s) <==> forall x :: multiset(s)[x] <= 1
    decreases |s|
  {
    if s != [] {
      var h, t := s[0], s[1..];
      assert s == [h] + t;
      NoDuplicatesMultiset(t);
      if NoDuplicates(s) {
        assert NoDuplicates(t) by {
          forall i, j | 0 <= i < j < |t| ensures t[i] != t[j] {
            assert t[i] == s[i + 1] && t[j] == s[j + 1];
          }
        }
      }
      if forall x :: multiset(s)[x] <= 1 {
        forall x ensures multiset(t)[x] <= 1 {
          assert multiset(s)[x] >= multiset(t)[x];
        }
        assert multiset(s)[h] == 1 + multiset(t)[h];
        forall i, j | 0 <= i < j < |s| ensures s[i] != s[j] {
          assert s[j] == t[j - 1];
          if i > 0 {
            assert s[i] == t[i - 1];
          } else {
            assert s[j] in t;
          }
        }
      }
    }
  }

  /** A subsequence takes each element at most as often as its source holds it. */
  lemma {:induction false} SubseqMultiset<T>(r: seq<T>, s: seq<T>)
    requires IsSubseq(r, s)
    ensures multiset(r) <= multiset(s)
    decreases |s|
  {
    if r != [] {
      assert s == [s[0]] + s[1..];
      if r[0] == s[0] && IsSubseq(r[1..], s[1..]) {
        SubseqMultiset(r[1..], s[1..]);
        assert r == [r[0]] + r[1..];
      } else {
        SubseqMultiset(r, s[1..]);
      }
    }
  }

  /** A subsequence of a sequence without duplicates has none either. */
  lemma SubseqNoDuplicates<T>(r: seq<T>, s: seq<T>)
    requires IsSubseq(r, s) && NoDuplicates(s)
    ensures NoDuplicates(r)
  {
    SubseqMultiset(r, s);
    NoDuplicatesMultiset(s);
    NoDuplicatesMultiset(r);
    forall x ensures multiset(r)[x] <= 1 {
      assert multiset(r)[x] <= multiset(s)[x];
    }
  }

  /** Appending an element the sequence does not hold keeps it free of duplicates. */
  lemma AppendNoDuplicates<T>(s: seq<T>, x: T)
    requires NoDuplicates(s) && x !in s
    ensures NoDuplicates(s + [x])
  {
    var r := s + [x];
    forall i, j | 0 <= i < j < |r| ensures r[i] != r[j] {
      assert r[i] == s[i];
      if j < |s| {
        assert r[j] == s[j];
      } else {
        assert r[i] in s;
      }
    }
  }

  /** A permutation of a sequence without duplicates has none either. */
  lemma PermutationNoDuplicates<T>(r: seq<T>, s: seq<T>)
    requires multiset(r) == multiset(s) && NoDuplicates(s)
    ensures NoDuplicates(r)
  {
    NoDuplicatesMultiset(s);
    NoDuplicatesMultiset(r);
  }

  /** Filtering keeps every element that passes exactly as often as the source holds it, and no other. */
  lemma {:induction false} FilterMultiset<T(!new)>(s: seq<T>, f: T -> bool, x: T)
    ensures multiset(Filter(s, f))[x] == if f(x) then multiset(s)[x] else 0
    decreases |s|
  {
    if s != [] {
      FilterMultiset(s[1..], f, x);
      assert s == [s[0]] + s[1..];
    }
  }
}
