/**
 * The free comparison operators over two SimpleVectors. `==` and `<` are
 * read-only index loops with early return; `!=`, `<=`, `>` and `>=` are
 * written in terms of them. Element order is the parameter `lt`; the
 * element test `x > y` is `lt(y, x)`.
 */
module Comparisons {
  import opened Sequences
  import opened SimpleVectors

  /** `lhs == rhs`: equal sizes, then every pair of corresponding elements equal. */
  method Equal<T(0, ==)>(lhs: SimpleVector<T>, rhs: SimpleVector<T>) returns (r: bool)
    requires lhs.Valid() && rhs.Valid()
    ensures r <==> lhs.Elements() == rhs.Elements()
  {
    if lhs.GetSize() != rhs.GetSize() {
      return false;
    }
    for i := 0 to lhs.GetSize()
      invariant lhs.Elements()[..i] == rhs.Elements()[..i]
    {
      var x := lhs.Get(i);
      var y := rhs.Get(i);
      if x != y {
        return false;
      }
      assert lhs.Elements()[..i + 1] == lhs.Elements()[..i] + [x];
      assert rhs.Elements()[..i + 1] == rhs.Elements()[..i] + [y];
    }
    assert lhs.Elements() == lhs.Elements()[..lhs.size];
    assert rhs.Elements() == rhs.Elements()[..rhs.size];
    return true;
  }

  /** `lhs != rhs`: the negation of `==`. */
  method NotEqual<T(0, ==)>(lhs: SimpleVector<T>, rhs: SimpleVector<T>) returns (r: bool)
    requires lhs.Valid() && rhs.Valid()
    ensures r <==> lhs.Elements() != rhs.Elements()
  {
    var eq := Equal(lhs, rhs);
    r := !eq;
  }

  /**
   * `lhs < rhs`: walk the common length; the first pair of elements that the
   * order tells apart decides; if there is none, the shorter vector is less.
   */
  method Less<T(0)>(lhs: SimpleVector<T>, rhs: SimpleVector<T>, lt: (T, T) -> bool) returns (r: bool)
    requires lhs.Valid() && rhs.Valid()
    ensures r == LexLess(lhs.Elements(), rhs.Elements(), lt)
  {
    ghost var a, b := lhs.Elements(), rhs.Elements();
    var n := Min(lhs.GetSize(), rhs.GetSize());
    for i := 0 to n
      invariant forall j :: 0 <= j < i ==> Equivalent(a[j], b[j], lt)
    {
      var x := lhs.Get(i);
      var y := rhs.Get(i);
      if lt(x, y) {
        FirstDifferenceIs(a, b, lt, i);
        return true;
      } else if lt(y, x) {
        FirstDifferenceIs(a, b, lt, i);
        return false;
      }
    }
    FirstDifferenceIs(a, b, lt, n);
    return lhs.GetSize() < rhs.GetSize();
  }

  /** `lhs <= rhs`, written as `!(rhs < lhs)`: under a strict total order, "less or equal". */
  method LessOrEqual<T(0, !new)>(lhs: SimpleVector<T>, rhs: SimpleVector<T>, lt: (T, T) -> bool) returns (r: bool)
    requires lhs.Valid() && rhs.Valid()
    ensures r == !LexLess(rhs.Elements(), lhs.Elements(), lt)
    ensures StrictTotalOrder(lt) ==>
      (r <==> LexLess(lhs.Elements(), rhs.Elements(), lt) || lhs.Elements() == rhs.Elements())
  {
    var less := Less(rhs, lhs, lt);
    r := !less;
    if StrictTotalOrder(lt) {
      LexLessTrichotomy(lhs.Elements(), rhs.Elements(), lt);
    }
  }

  /** `lhs > rhs`, written as `rhs < lhs`. */
  method Greater<T(0)>(lhs: SimpleVector<T>, rhs: SimpleVector<T>, lt: (T, T) -> bool) returns (r: bool)
    requires lhs.Valid() && rhs.Valid()
    ensures r == LexLess(rhs.Elements(), lhs.Elements(), lt)
  {
    r := Less(rhs, lhs, lt);
  }

  /** `lhs >= rhs`, written as `!(lhs < rhs)`: under a strict total order, "greater or equal". */
  method GreaterOrEqual<T(0, !new)>(lhs: SimpleVector<T>, rhs: SimpleVector<T>, lt: (T, T) -> bool) returns (r: bool)
    requires lhs.Valid() && rhs.Valid()
    ensures r == !LexLess(lhs.Elements(), rhs.Elements(), lt)
    ensures StrictTotalOrder(lt) ==>
      (r <==> LexLess(rhs.Elements(), lhs.Elements(), lt) || lhs.Elements() == rhs.Elements())
  {
    var less := Less(lhs, rhs, lt);
    r := !less;
    if StrictTotalOrder(lt) {
      LexLessTrichotomy(lhs.Elements(), rhs.Elements(), lt);
    }
  }
}
