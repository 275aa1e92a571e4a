/**
 * `List<string>.Sort()` under an abstract total order `le` on strings, which
 * stands for the culture-sensitive default comparer. Under an antisymmetric
 * total order the sorted permutation of a list is unique, so insertion sort
 * describes the result of any sorting algorithm.
 */
module StringOrder {

  ghost predicate TotalOrder(le: (string, string) -> bool) {
    && (forall a, b :: le(a, b) || le(b, a))
    && (forall a, b :: le(a, b) && le(b, a) ==> a == b)
    && (forall a, b, c :: le(a, b) && le(b, c) ==> le(a, c))
  }

  ghost predicate Sorted(s: seq<string>, le: (string, string) -> bool) {
    forall i, j :: 0 <= i < j < |s| ==> le(s[i], s[j])
  }

  function Insert(x: string, s: seq<string>, le: (string, string) -> bool): (r: seq<string>)
    ensures multiset(r) == multiset(s) + multiset{x}
    decreases |s|
  {
    if s == [] then [x]
    else if le(x, s[0]) then [x] + s
    else
      assert s == [s[0]] + s[1..];
      [s[0]] + Insert(x, s[1..], le)
  }

  /** The order in which `List<string>.Sort()` leaves the list. */
  function SortedList(s: seq<string>, le: (string, string) -> bool): (r: seq<string>)
    ensures multiset(r) == multiset(s)
    decreases |s|
  {
    if s == [] then []
    else
      assert s == [s[0]] + s[1..];
      Insert(s[0], SortedList(s[1..], le), le)
  }

  lemma {:induction false} InsertSorted(x: string, s: seq<string>, le: (string, string) -> bool)
    requires TotalOrder(le) && Sorted(s, le)
    ensures Sorted(Insert(x, s, le), le)
    decreases |s|
  {
    if s != [] && !le(x, s[0]) {
      TailSorted(s, le);
      InsertSorted(x, s[1..], le);
      assert le(s[0], x) by {
        assert le(x, s[0]) || le(s[0], x);
      }
      InsertAfterHead(x, s, le);
    }
  }

  /** The tail of a sorted list is sorted. */
  lemma TailSorted(s: seq<string>, le: (string, string) -> bool)
    requires s != [] && Sorted(s, le)
    ensures Sorted(s[1..], le)
  {
    assert forall i :: 0 <= i < |s| - 1 ==> s[1..][i] == s[i + 1];
  }

  /** The step of `InsertSorted` where `x` goes after the head. */
  lemma InsertAfterHead(x: string, s: seq<string>, le: (string, string) -> bool)
    requires s != [] && !le(x, s[0]) && le(s[0], x) && Sorted(s, le)
    requires Sorted(Insert(x, s[1..], le), le)
    ensures Sorted(Insert(x, s, le), le)
  {
    var t := s[1..];
    assert forall i :: 0 <= i < |t| ==> le(s[0], t[i]) by {
      assert forall i :: 0 <= i < |t| ==> t[i] == s[i + 1];
    }
    InsertBoundedBelow(x, t, le, s[0]);
    var r := Insert(x, t, le);
    var u := [s[0]] + r;
    forall i, j | 0 <= i < j < |u| ensures le(u[i], u[j]) {
      assert u[j] == r[j - 1];
      if i > 0 { assert u[i] == r[i - 1]; }
    }
    assert Insert(x, s, le) == u;
  }

  /** A lower bound of `x` and of every element of `t` bounds every element of the insertion. */
  lemma {:induction false} InsertBoundedBelow(x: string, t: seq<string>, le: (string, string) -> bool, b: string)
    requires le(b, x) && forall i :: 0 <= i < |t| ==> le(b, t[i])
    ensures forall k :: 0 <= k < |Insert(x, t, le)| ==> le(b, Insert(x, t, le)[k])
    decreases |t|
  {
    if t != [] && !le(x, t[0]) {
      assert forall i :: 0 <= i < |t| - 1 ==> t[1..][i] == t[i + 1];
      InsertBoundedBelow(x, t[1..], le, b);
      assert Insert(x, t, le) == [t[0]] + Insert(x, t[1..], le);
    }
  }

  /** Sorting yields a sorted permutation of the list. */
  lemma {:induction false} SortedListIsSorted(s: seq<string>, le: (string, string) -> bool)
    requires TotalOrder(le)
    ensures Sorted(SortedList(s, le), le) && multiset(SortedList(s, le)) == multiset(s)
    decreases |s|
  {
    if s != [] {
      SortedListIsSorted(s[1..], le);
      InsertSorted(s[0], SortedList(s[1..], le), le);
    }
  }

  /** The caller's list, a reference that `Sort()` rearranges in place. */
  class StringList {
    var Items: seq<string>

    constructor (items: seq<string>)
      ensures Items == items
    {
      Items := items;
    }

    /** `List<string>.Sort()`. */
    method Sort(le: (string, string) -> bool)
      modifies this
      ensures Items == SortedList(old(Items), le)
      ensures TotalOrder(le) ==> Sorted(Items, le) && multiset(Items) == multiset(old(Items))
    {
      if TotalOrder(le) {
        SortedListIsSorted(Items, le);
      }
      Items := SortedList(Items, le);
    }
  }
}
