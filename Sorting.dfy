/** `slice::sort_by`, the stable sort both note listings use, modelled as an
    insertion sort that places each element after every earlier element it
    does not precede. `leq(a, b)` holds when the comparator does not put `a`
    after `b` (it does not answer `Greater`). */
module Sorting {

  /** A comparator the sort can rely on: any two elements compare, and the
      order is transitive. */
  ghost predicate TotalPreorder<T(!new)>(leq: (T, T) -> bool) {
    && (forall a, b :: leq(a, b) || leq(b, a))
    && (forall a, b, c :: leq(a, b) && leq(b, c) ==> leq(a, c))
  }

  /** No element is placed after one it should precede. */
  ghost predicate Sorted<T>(s: seq<T>, leq: (T, T) -> bool) {
    forall i, j :: 0 <= i < j < |s| ==> leq(s[i], s[j])
  }

  /** `x` placed into `s` after the longest prefix of elements that do not
      come after it. */
  function Insert<T>(x: T, s: seq<T>, leq: (T, T) -> bool): (r: seq<T>)
    ensures |r| == |s| + 1
    decreases |s|
  {
    if s == [] then [x]
    else if leq(s[0], x) then [s[0]] + Insert(x, s[1..], leq)
    else [x] + s
  }

  /** The sorted sequence: the elements taken in order, each inserted into
      the sorted sequence of those before it. */
  function Sort<T>(s: seq<T>, leq: (T, T) -> bool): (r: seq<T>)
    ensures |r| == |s|
    decreases |s|
  {
    if s == [] then [] else Insert(s[|s| - 1], Sort(s[..|s| - 1], leq), leq)
  }

  lemma {:induction false} InsertPermutation<T>(x: T, s: seq<T>, leq: (T, T) -> bool)
    ensures multiset(Insert(x, s, leq)) == multiset(s) + multiset{x}
    decreases |s|
  {
    if s != [] && leq(s[0], x) {
      InsertPermutation(x, s[1..], leq);
      assert s == [s[0]] + s[1..];
    }
  }

  /** Sorting rearranges the elements and neither adds nor drops any. */
  lemma {:induction false} SortPermutation<T>(s: seq<T>, leq: (T, T) -> bool)
    ensures multiset(Sort(s, leq)) == multiset(s)
    decreases |s|
  {
    if s != [] {
      var init := s[..|s| - 1];
      SortPermutation(init, leq);
      InsertPermutation(s[|s| - 1], Sort(init, leq), leq);
      assert s == init + [s[|s| - 1]];
    }
  }

  /** Each element of the result is `x` or an element of `s`. */
  lemma {:induction false} InsertElements<T>(x: T, s: seq<T>, leq: (T, T) -> bool)
    ensures forall k :: 0 <= k < |s| + 1 ==> Insert(x, s, leq)[k] == x || Insert(x, s, leq)[k] in s
    decreases |s|
  {
    if s != [] && leq(s[0], x) {
      InsertElements(x, s[1..], leq);
      var r := Insert(x, s, leq);
      forall k | 0 <= k < |s| + 1 ensures r[k] == x || r[k] in s {
        if k > 0 {
          assert r[k] == Insert(x, s[1..], leq)[k - 1];
        }
      }
    }
  }

  /** Inserting into a sorted sequence keeps it sorted. */
  lemma {:induction false} InsertSorted<T(!new)>(x: T, s: seq<T>, leq: (T, T) -> bool)
    requires TotalPreorder(leq)
    requires Sorted(s, leq)
    ensures Sorted(Insert(x, s, leq), leq)
    decreases |s|
  {
    if s != [] {
      var r := Insert(x, s, leq);
      if leq(s[0], x) {
        var tail := Insert(x, s[1..], leq);
        InsertSorted(x, s[1..], leq);
        InsertElements(x, s[1..], leq);
        forall k | 0 <= k < |tail| ensures leq(s[0], tail[k]) {
          if tail[k] != x {
            var m :| 0 <= m < |s[1..]| && s[1..][m] == tail[k];
            assert s[1..][m] == s[m + 1];
          }
        }
        forall i, j | 0 <= i < j < |r| ensures leq(r[i], r[j]) {
          if i == 0 {
            assert r[j] == tail[j - 1];
          } else {
            assert r[i] == tail[i - 1] && r[j] == tail[j - 1];
          }
        }
      } else {
        forall j | 0 <= j < |s| ensures leq(x, s[j]) {
          assert leq(x, s[0]);
        }
        forall i, j | 0 <= i < j < |r| ensures leq(r[i], r[j]) {
          if i == 0 {
            assert r[j] == s[j - 1];
          } else {
            assert r[i] == s[i - 1] && r[j] == s[j - 1];
          }
        }
      }
    }
  }

  /** Under a comparator that is a total preorder the result is sorted. */
  lemma {:induction false} SortSorted<T(!new)>(s: seq<T>, leq: (T, T) -> bool)
    requires TotalPreorder(leq)
    ensures Sorted(Sort(s, leq), leq)
    decreases |s|
  {
    if s != [] {
      SortSorted(s[..|s| - 1], leq);
      InsertSorted(s[|s| - 1], Sort(s[..|s| - 1], leq), leq);
    }
  }
}
