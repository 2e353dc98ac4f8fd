/**
 * The in-place path of `Insert`: the source moves the suffix up one slot with
 * `std::uninitialized_move_n` into a destination range that overlaps its source
 * by all but one slot. That call requires non-overlapping ranges, so the source
 * violates its precondition. This module follows the element-by-element loop
 * the C++ standard gives as the call's meaning, with each move read as a copy:
 * each step reads a slot that the previous step has just overwritten, so the
 * element at `index` is copied across the whole suffix instead of the suffix
 * being shifted. (A library may instead copy an `int` range as a block, and a
 * type whose move empties its source leaves emptied slots rather than copies.)
 * SimpleVectors.SimpleVector.Insert models the intended back-to-front shift.
 */
module InsertAsWritten {
  import opened Sequences

  /**
   * A forward move of `n` slots inside one buffer: slot `dst + i` receives the
   * current value of slot `src + i`, for i = 0, 1, ..., n - 1 in that order.
   * Only slots `dst..dst + n` change.
   */
  function ForwardMove<T>(buf: seq<T>, src: nat, dst: nat, n: nat): (r: seq<T>)
    requires src + n <= |buf| && dst + n <= |buf|
    ensures |r| == |buf|
    ensures forall k :: 0 <= k < |buf| && !(dst <= k < dst + n) ==> r[k] == buf[k]
    decreases n
  {
    if n == 0 then buf
    else ForwardMove(buf[dst := buf[src]], src + 1, dst + 1, n - 1)
  }

  /** Slots `lo` through `hi` of `s` all hold `v`. */
  ghost predicate AllEqual<T>(s: seq<T>, lo: nat, hi: nat, v: T)
    requires hi < |s|
  {
    forall k :: lo <= k <= hi ==> s[k] == v
  }

  /** With the destination one slot above the source, every moved slot ends up holding `buf[i]`. */
  lemma {:induction false} ForwardMoveByOneSmears<T>(buf: seq<T>, i: nat, n: nat)
    requires i + n + 1 <= |buf|
    ensures AllEqual(ForwardMove(buf, i, i + 1, n), i, i + n, buf[i])
    decreases n
  {
    if n > 0 {
      var next := buf[i + 1 := buf[i]];
      ForwardMoveByOneSmears(next, i + 1, n - 1);
    }
  }

  /**
   * The buffer after the in-place insertion under the forward loop, for a buffer with
   * `size` live elements and at least one spare slot.
   */
  function InPlaceInsert<T>(buf: seq<T>, size: nat, index: nat, value: T): (r: seq<T>)
    requires index <= size < |buf|
    ensures |r| == |buf|
    ensures r[index] == value
    ensures forall k :: index < k <= size ==> r[k] == buf[index]
    ensures forall k :: 0 <= k < |r| && !(index <= k <= size) ==> r[k] == buf[k]
  {
    ForwardMoveByOneSmears(buf, index, size - index);
    ForwardMove(buf, index, index + 1, size - index)[index := value]
  }

  /**
   * Inserting 9 at position 1 of [1, 2, 3] with one spare slot yields
   * [1, 9, 2, 2] under the forward loop, where the intended result is [1, 9, 2, 3].
   */
  lemma InPlaceInsertCounterexample()
    ensures InPlaceInsert([1, 2, 3, 0], 3, 1, 9) == [1, 9, 2, 2]
    ensures InsertAt([1, 2, 3], 1, 9) == [1, 9, 2, 3]
    ensures InPlaceInsert([1, 2, 3, 0], 3, 1, 9) != InsertAt([1, 2, 3], 1, 9)
  {
  }

  /**
   * Under the forward loop, the insertion loses the old last live element whenever the
   * element at `index` (which then lies before the end) differs from it.
   */
  lemma {:induction false} InPlaceInsertLosesLastElement<T>(buf: seq<T>, size: nat, index: nat, value: T)
    requires index < size < |buf|
    requires buf[index] != buf[size - 1]
    ensures InPlaceInsert(buf, size, index, value)[..size + 1] != InsertAt(buf[..size], index, value)
  {
    var r := InPlaceInsert(buf, size, index, value);
    var intended := InsertAt(buf[..size], index, value);
    assert r[size] == buf[index];
    assert intended[size] == buf[size - 1];
    assert r[..size + 1][size] != intended[size];
  }
}
