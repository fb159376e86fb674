/**
  Sorting a sequence by an integer key, as a table's `sort_values(by=...)` does.

  The model uses one concrete sort (a stable insertion sort), but every contract
  promises only what the pipeline relies on: the result is ordered by the key and
  is a permutation of the input. Nothing is promised about the relative order of
  elements whose keys are equal.
 */
module Sorting {

  /** `s` is ordered non-decreasingly by `key`. */
  ghost predicate SortedBy<T>(s: seq<T>, key: T -> int) {
    forall i, j :: 0 <= i < j < |s| ==> key(s[i]) <= key(s[j])
  }

  /** Putting an element no larger than the head in front of a sorted sequence keeps it sorted. */
  lemma ConsKeepsSorted<T>(y: T, r: seq<T>, key: T -> int)
    requires SortedBy(r, key) && (r == [] || key(y) <= key(r[0]))
    ensures SortedBy([y] + r, key)
  {
    var c := [y] + r;
    forall i, j | 0 <= i < j < |c| ensures key(c[i]) <= key(c[j]) {
      if i == 0 && j > 1 {
        assert key(r[0]) <= key(r[j - 1]);
      }
    }
  }

  /** The step of `InsertBy` past the head: the head stays in front of the insertion into the tail. */
  lemma InsertPastHead<T>(x: T, s: seq<T>, rest: seq<T>, key: T -> int)
    requires SortedBy(s, key) && s != [] && key(s[0]) < key(x)
    requires SortedBy(rest, key) && multiset(rest) == multiset(s[1..]) + multiset{x}
    requires |rest| == |s| && (rest[0] == x || (|s| > 1 && rest[0] == s[1]))
    ensures SortedBy([s[0]] + rest, key)
    ensures multiset([s[0]] + rest) == multiset(s) + multiset{x}
  {
    assert s == [s[0]] + s[1..];
    if rest[0] != x {
      assert key(s[0]) <= key(s[1]);
    }
    ConsKeepsSorted(s[0], rest, key);
  }

  /** Places `x` into the sorted sequence `s`, before the first element whose key is not smaller. */
  function InsertBy<T>(x: T, s: seq<T>, key: T -> int): (r: seq<T>)
    requires SortedBy(s, key)
    ensures SortedBy(r, key)
    ensures multiset(r) == multiset(s) + multiset{x}
    ensures |r| == |s| + 1
    ensures r[0] == x || (s != [] && r[0] == s[0])
  {
    if s == [] || key(x) <= key(s[0]) then
      ConsKeepsSorted(x, s, key);
      [x] + s
    else
      var rest := InsertBy(x, s[1..], key);
      InsertPastHead(x, s, rest, key);
      [s[0]] + rest
  }

  /** The sequence `s` reordered by `key`. */
  function SortBy<T>(s: seq<T>, key: T -> int): (r: seq<T>)
    ensures SortedBy(r, key)
    ensures multiset(r) == multiset(s)
    ensures |r| == |s|
  {
    if s == [] then
      []
    else
      assert s == [s[0]] + s[1..];
      InsertBy(s[0], SortBy(s[1..], key), key)
  }

  /** `s` is ordered strictly increasingly by `key`: no two elements share a key. */
  ghost predicate StrictlySortedBy<T>(s: seq<T>, key: T -> int) {
    forall i, j :: 0 <= i < j < |s| ==> key(s[i]) < key(s[j])
  }

  /** `s` and `t` have the same key at every position. */
  ghost predicate SameKeys<T>(s: seq<T>, t: seq<T>, key: T -> int) {
    |s| == |t| && forall k :: 0 <= k < |s| ==> key(s[k]) == key(t[k])
  }

  /** Dropping one element keeps a sequence sorted. */
  lemma RemoveKeepsSorted<T>(s: seq<T>, p: nat, key: T -> int)
    requires SortedBy(s, key) && p < |s|
    ensures SortedBy(s[..p] + s[p + 1..], key)
  {
    var r := s[..p] + s[p + 1..];
    forall i, j | 0 <= i < j < |r| ensures key(r[i]) <= key(r[j]) {
      var i', j' := if i < p then i else i + 1, if j < p then j else j + 1;
      assert r[i] == s[i'] && r[j] == s[j'];
    }
  }

  /** Dropping the element at `p` removes one occurrence of it. */
  lemma RemoveAtMultiset<T>(s: seq<T>, p: nat)
    requires p < |s|
    ensures multiset(s[..p] + s[p + 1..]) == multiset(s) - multiset{s[p]}
  {
    assert s == s[..p] + [s[p]] + s[p + 1..];
  }

  /**
    Of two key-ordered arrangements of the same elements, the first element of
    `t` sits at some position `p` of `s`, and the keys of `s` up to `p` are all
    the smallest key, which is also the key of `t`'s first element.
   */
  lemma HeadOfOtherArrangement<T>(s: seq<T>, t: seq<T>, key: T -> int) returns (p: nat)
    requires SortedBy(s, key) && SortedBy(t, key) && multiset(s) == multiset(t) && s != []
    ensures |s| == |t| && p < |s| && s[p] == t[0]
    ensures forall k :: 0 <= k <= p ==> key(s[k]) == key(t[0])
  {
    assert |s| == |multiset(s)| == |multiset(t)| == |t|;
    assert t[0] in multiset(s) && s[0] in multiset(t);
    p :| 0 <= p < |s| && s[p] == t[0];
    var q :| 0 <= q < |t| && t[q] == s[0];
    assert key(t[0]) <= key(t[q]);
  }

  /** Keys agree everywhere once they agree on the first position and after dropping `t`'s first element from `s`. */
  lemma KeysAgreeFromRest<T>(s: seq<T>, t: seq<T>, p: nat, key: T -> int)
    requires |s| == |t| && p < |s|
    requires forall k :: 0 <= k <= p ==> key(s[k]) == key(t[0])
    requires SameKeys(s[..p] + s[p + 1..], t[1..], key)
    ensures SameKeys(s, t, key)
  {
    var s' := s[..p] + s[p + 1..];
    forall k | 0 <= k < |s| ensures key(s[k]) == key(t[k]) {
      if 0 < k <= p {
        assert s'[k - 1] == s[k - 1];
      } else if p < k {
        assert s'[k - 1] == s[k];
      }
    }
  }

  /**
    Any two key-ordered arrangements of the same elements agree on the key at
    every position; they may differ only in the order of elements with equal
    keys. This is all that sorting by a key determines.
   */
  lemma {:induction false} SortedPermutationsAgreeOnKeys<T>(s: seq<T>, t: seq<T>, key: T -> int)
    requires SortedBy(s, key) && SortedBy(t, key) && multiset(s) == multiset(t)
    ensures SameKeys(s, t, key)
    decreases |s|
  {
    if s == [] {
      assert |t| == |multiset(t)| == 0;
    } else {
      var p := HeadOfOtherArrangement(s, t, key);
      var s' := s[..p] + s[p + 1..];
      RemoveAtMultiset(s, p);
      assert multiset(t[1..]) == multiset(t) - multiset{t[0]} by {
        assert t == [t[0]] + t[1..];
      }
      assert multiset(s') == multiset(t[1..]);
      RemoveKeepsSorted(s, p, key);
      assert SortedBy(t[1..], key);
      SortedPermutationsAgreeOnKeys(s', t[1..], key);
      KeysAgreeFromRest(s, t, p, key);
    }
  }

  /** Sorting a key-ordered sequence leaves its key at every position as it was. */
  lemma SortBySortedKeepsKeys<T>(s: seq<T>, key: T -> int)
    requires SortedBy(s, key)
    ensures SameKeys(SortBy(s, key), s, key)
  {
    SortedPermutationsAgreeOnKeys(SortBy(s, key), s, key);
  }

  /** Sorting a sequence whose keys strictly increase gives it back unchanged, whatever the tie order. */
  lemma SortByStrictlySortedIsIdentity<T>(s: seq<T>, key: T -> int)
    requires StrictlySortedBy(s, key)
    ensures SortBy(s, key) == s
  {
    var r := SortBy(s, key);
    SortBySortedKeepsKeys(s, key);
    forall k | 0 <= k < |s| ensures r[k] == s[k] {
      assert r[k] in multiset(s);
      var p :| 0 <= p < |s| && s[p] == r[k];
      assert key(s[p]) == key(s[k]);
    }
  }

  /** Sorting again changes nothing that sorting determines: the elements and the key at every position. */
  lemma SortByIdempotent<T>(s: seq<T>, key: T -> int)
    ensures multiset(SortBy(SortBy(s, key), key)) == multiset(SortBy(s, key))
    ensures SameKeys(SortBy(SortBy(s, key), key), SortBy(s, key), key)
  {
    SortBySortedKeepsKeys(SortBy(s, key), key);
  }

  /** No element occurs twice in `s`. */
  ghost predicate Distinct<T>(s: seq<T>) {
    forall i, j :: 0 <= i < j < |s| ==> s[i] != s[j]
  }

  lemma {:induction false} DistinctCountAtMostOne<T>(s: seq<T>, x: T)
    requires Distinct(s)
    ensures multiset(s)[x] <= 1
  {
    if s != [] {
      assert s == [s[0]] + s[1..];
      DistinctCountAtMostOne(s[1..], x);
      if s[0] == x {
        assert x !in s[1..];
      }
    }
  }

  lemma RepeatCountAtLeastTwo<T>(s: seq<T>, i: nat, j: nat)
    requires i < j < |s| && s[i] == s[j]
    ensures multiset(s)[s[i]] >= 2
  {
    assert s == s[..j] + s[j..];
    assert s[..j][i] == s[i];
    assert s[j..][0] == s[i];
    assert multiset(s) == multiset(s[..j]) + multiset(s[j..]);
  }

  /** A permutation of a sequence without repetitions has no repetitions either. */
  lemma PermutationKeepsDistinct<T>(s: seq<T>, t: seq<T>)
    requires Distinct(s) && multiset(t) == multiset(s)
    ensures Distinct(t)
  {
    forall i, j | 0 <= i < j < |t| ensures t[i] != t[j] {
      if t[i] == t[j] {
        RepeatCountAtLeastTwo(t, i, j);
        DistinctCountAtMostOne(s, t[i]);
        assert false;
      }
    }
  }
}
