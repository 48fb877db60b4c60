/** Python's `list.sort`/`sorted` as the modelled code uses them: a stable
    sort by a key, written as an insertion sort that places each item after
    every earlier item it does not precede. */
module Sorting {

  /** `le` orders any two items, transitively. */
  ghost predicate TotalPreorder<T(!new)>(le: (T, T) -> bool) {
    && (forall a, b :: le(a, b) || le(b, a))
    && (forall a, b, c :: le(a, b) && le(b, c) ==> le(a, c))
  }

  predicate Sorted<T>(s: seq<T>, le: (T, T) -> bool) {
    forall i, j | 0 <= i < j < |s| :: le(s[i], s[j])
  }

  /** `x` placed after every item it does not strictly precede. */
  function Insert<T>(s: seq<T>, x: T, le: (T, T) -> bool): (r: seq<T>)
    ensures |r| == |s| + 1
    decreases |s|
  {
    if |s| == 0 || le(s[|s| - 1], x) then s + [x]
    else Insert(s[..|s| - 1], x, le) + [s[|s| - 1]]
  }

  /** Inserting into a sorted sequence keeps it sorted and adds exactly
      `x`. */
  lemma {:induction false} InsertCorrect<T(!new)>(s: seq<T>, x: T, le: (T, T) -> bool)
    requires TotalPreorder(le) && Sorted(s, le)
    ensures Sorted(Insert(s, x, le), le) && multiset(Insert(s, x, le)) == multiset(s) + multiset{x}
    decreases |s|
  {
    if |s| > 0 && !le(s[|s| - 1], x) {
      var init, last := s[..|s| - 1], s[|s| - 1];
      InsertCorrect(init, x, le);
      assert s == init + [last];
      InsertBelow(Insert(init, x, le), init, x, last, le);
    }
  }

  /** Appending an item that every item of a sorted sequence precedes
      keeps it sorted. */
  lemma InsertBelow<T(!new)>(r: seq<T>, init: seq<T>, x: T, last: T, le: (T, T) -> bool)
    requires TotalPreorder(le) && Sorted(r, le) && multiset(r) == multiset(init) + multiset{x}
    requires forall i | 0 <= i < |init| :: le(init[i], last)
    requires le(x, last)
    ensures Sorted(r + [last], le)
  {
    forall i | 0 <= i < |r|
      ensures le(r[i], last)
    {
      var y := r[i];
      assert y in multiset(r);
      if y != x {
        assert y in multiset(init);
      }
    }
  }

  /** Insertion sort; items that `le` orders both ways keep their order. */
  function Sort<T>(s: seq<T>, le: (T, T) -> bool): (r: seq<T>)
    ensures |r| == |s|
  {
    if |s| == 0 then [] else Insert(Sort(s[..|s| - 1], le), s[|s| - 1], le)
  }

  /** The result is ordered and has exactly the items of the input. */
  lemma {:induction false} SortCorrect<T(!new)>(s: seq<T>, le: (T, T) -> bool)
    requires TotalPreorder(le)
    ensures Sorted(Sort(s, le), le) && multiset(Sort(s, le)) == multiset(s)
  {
    if |s| > 0 {
      SortCorrect(s[..|s| - 1], le);
      InsertCorrect(Sort(s[..|s| - 1], le), s[|s| - 1], le);
      assert s == s[..|s| - 1] + [s[|s| - 1]];
    }
  }

  /** Sorting what is already sorted changes nothing. */
  lemma {:induction false} SortSorted<T(!new)>(s: seq<T>, le: (T, T) -> bool)
    requires Sorted(s, le)
    ensures Sort(s, le) == s
  {
    if |s| > 0 {
      var init, last := s[..|s| - 1], s[|s| - 1];
      assert Sorted(init, le) by {
        forall i, j | 0 <= i < j < |init| ensures le(init[i], init[j]) {
          assert init[i] == s[i] && init[j] == s[j];
        }
      }
      SortSorted(init, le);
      if |init| > 0 {
        assert le(init[|init| - 1], last) by { assert init[|init| - 1] == s[|s| - 2]; }
      }
      assert s == init + [last];
    }
  }
}
