/**
 Sorting a sequence by an integer key. Go's `sort.Slice` is a deterministic pattern-defeating
 quicksort that is not stable, so the only promises made about a sorted result are that it is
 ordered by key and is a permutation of the input. Up to 12 elements `sort.Slice` runs a stable
 insertion sort and agrees with this one; on longer inputs equal keys may be ordered differently.
 */
module Sorting {

  /** Keys never decrease from left to right. */
  ghost predicate SortedBy<T>(s: seq<T>, key: T -> int) {
    forall i, j | 0 <= i < j < |s| :: key(s[i]) <= key(s[j])
  }

  /** Places `x` before the first element of `s` whose key is not smaller. */
  function Insert<T>(x: T, s: seq<T>, key: T -> int): (r: seq<T>)
    requires SortedBy(s, key)
    ensures multiset(r) == multiset(s) + multiset{x}
    ensures SortedBy(r, key)
    decreases |s|
  {
    if |s| == 0 || key(x) <= key(s[0]) then
      [x] + s
    else
      var rest := Insert(x, s[1..], key);
      assert s == [s[0]] + s[1..];
      LowerBound(s[0], rest, x, s[1..], key);
      [s[0]] + rest
  }

  /** `head` may go in front of a sequence holding only `x` and elements of `tail`. */
  lemma LowerBound<T>(head: T, rest: seq<T>, x: T, tail: seq<T>, key: T -> int)
    requires SortedBy(rest, key) && SortedBy([head] + tail, key)
    requires multiset(rest) == multiset(tail) + multiset{x}
    requires key(head) < key(x)
    ensures SortedBy([head] + rest, key)
  {
    forall j | 0 <= j < |rest| ensures key(head) <= key(rest[j]) {
      assert rest[j] in multiset(rest);
      if rest[j] != x {
        assert rest[j] in multiset(tail);
        var k :| 0 <= k < |tail| && tail[k] == rest[j];
        var h := [head] + tail;
        assert h[0] == head && h[k + 1] == rest[j];
        assert key(h[0]) <= key(h[k + 1]);
      }
    }
    var r := [head] + rest;
    forall i, j | 0 <= i < j < |r| ensures key(r[i]) <= key(r[j]) {
      if i > 0 { assert r[i] == rest[i - 1] && r[j] == rest[j - 1]; }
    }
  }

  function Sort<T>(s: seq<T>, key: T -> int): (r: seq<T>)
    ensures multiset(r) == multiset(s)
    ensures SortedBy(r, key)
    decreases |s|
  {
    if |s| == 0 then []
    else
      assert s == [s[0]] + s[1..];
      Insert(s[0], Sort(s[1..], key), key)
  }

  /** Keys strictly increase from left to right. */
  ghost predicate StrictlySortedBy<T>(s: seq<T>, key: T -> int) {
    forall i, j | 0 <= i < j < |s| :: key(s[i]) < key(s[j])
  }

  /** Removing an equal first element from two permutations of each other leaves permutations. */
  lemma DropCommonHead<T>(r: seq<T>, s: seq<T>)
    requires |r| > 0 && |s| > 0 && r[0] == s[0]
    requires multiset(r) == multiset(s)
    ensures multiset(r[1..]) == multiset(s[1..])
  {
    assert r == [r[0]] + r[1..] && s == [s[0]] + s[1..];
    assert multiset(r[1..]) == multiset(r) - multiset{r[0]};
    assert multiset(s[1..]) == multiset(s) - multiset{s[0]};
  }

  /** Dropping the first element keeps a sequence sorted. */
  lemma SortedTail<T>(s: seq<T>, key: T -> int)
    requires |s| > 0
    ensures SortedBy(s, key) ==> SortedBy(s[1..], key)
    ensures StrictlySortedBy(s, key) ==> StrictlySortedBy(s[1..], key)
  {
    var t := s[1..];
    assert forall a | 0 <= a < |t| :: t[a] == s[a + 1];
  }

  /**
   When no two elements share a key, a sorted permutation is unique: every sort, stable or
   not, produces the same sequence. Only ties leave room for different orders.
   */
  lemma {:induction false} SortedPermutationUnique<T>(r: seq<T>, s: seq<T>, key: T -> int)
    requires StrictlySortedBy(s, key) && SortedBy(r, key)
    requires multiset(r) == multiset(s)
    ensures r == s
    decreases |s|
  {
    assert |r| == |multiset(r)| == |multiset(s)| == |s|;
    if |s| > 0 {
      assert r[0] in multiset(s) && s[0] in multiset(r);
      var i :| 0 <= i < |s| && s[i] == r[0];
      var j :| 0 <= j < |r| && r[j] == s[0];
      assert key(r[0]) <= key(r[j]);
      assert i == 0;
      DropCommonHead(r, s);
      SortedTail(r, key);
      SortedTail(s, key);
      SortedPermutationUnique(r[1..], s[1..], key);
      assert r == [r[0]] + r[1..] && s == [s[0]] + s[1..];
    }
  }

  lemma StrictlySortedThree<T>(a: T, b: T, c: T, key: T -> int)
    requires key(a) < key(b) < key(c)
    ensures StrictlySortedBy([a, b, c], key)
  {
  }
}
