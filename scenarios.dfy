/**
 * Client code that relies only on the contracts of SimpleVector: round trips
 * (push then pop, insert then erase), isolation of a copy, the state a move
 * leaves behind, and worked examples of Resize and of equality.
 */
module Scenarios {
  import opened Sequences
  import opened SimpleVectors
  import opened Comparisons

  /** PushBack followed by PopBack restores the element sequence. */
  method PushThenPop<T(0)>(v: SimpleVector<T>, x: T)
    requires v.Valid()
    modifies v, v.data
    ensures v.Valid() && v.Elements() == old(v.Elements())
  {
    v.PushBack(x);
    v.PopBack();
  }

  /** Insert at `p` followed by Erase at `p` restores the element sequence. */
  method InsertThenErase<T(0)>(v: SimpleVector<T>, p: nat, x: T)
    requires v.Valid() && p <= v.size
    modifies v, v.data
    ensures v.Valid() && v.Elements() == old(v.Elements())
  {
    var at := v.Insert(p, x);
    var next := v.Erase(at);
    RemoveAtInsertAt(old(v.Elements()), p, x);
  }

  /** Appending to a copy leaves the original untouched. */
  method CopyThenPush<T(0)>(a: SimpleVector<T>, x: T) returns (b: SimpleVector<T>)
    requires a.Valid()
    ensures fresh(b) && b.Valid() && a.Valid()
    ensures b.Elements() == a.Elements() + [x]
    ensures a.Elements() == old(a.Elements()) && a.Capacity() == old(a.Capacity())
  {
    b := new SimpleVector.Copy(a);
    b.PushBack(x);
  }

  /** Moving out of a vector leaves it empty and the destination with its old contents. */
  method MoveOut<T(0)>(a: SimpleVector<T>) returns (b: SimpleVector<T>)
    requires a.Valid()
    modifies a
    ensures fresh(b) && a.Valid() && b.Valid()
    ensures b.Elements() == old(a.Elements()) && b.Capacity() == old(a.Capacity())
    ensures a.Elements() == [] && a.Capacity() == 0
  {
    b := new SimpleVector.Move(a);
  }

  /** Checked access past the end fails for every size, including an empty vector. */
  method AtPastEndFails<T(0)>(v: SimpleVector<T>, extra: nat) returns (r: AtResult<T>)
    requires v.Valid()
    ensures r == OutOfRange
  {
    r := v.At(v.GetSize() + extra);
  }

  /**
   * Growing [1, 2] to 5 exposes three zeros; shrinking to 3 and growing to 5
   * again yields zeros at positions 3 and 4, not the values that were cut off.
   */
  method ResizeExample() returns (v: SimpleVector<int>)
    ensures fresh(v) && v.Valid()
    ensures v.Elements() == [1, 2, 0, 0, 0]
  {
    v := new SimpleVector.FromList([1, 2]);
    v.Resize(5, 0);
    assert v.Elements() == [1, 2, 0, 0, 0];
    v.Set(3, 7);
    v.Set(4, 8);
    v.Resize(3, 0);
    v.Resize(5, 0);
  }

  /** Reserving no more than the current capacity keeps the very same buffer. */
  method ReserveBelowCapacityKeepsBuffer<T(0)>(v: SimpleVector<T>, n: nat)
    requires v.Valid() && n <= v.Capacity()
    modifies v
    ensures v.Valid() && v.data == old(v.data) && v.Elements() == old(v.Elements())
  {
    v.Reserve(n);
  }

  /** Worked equality examples: equal contents compare equal; length and order matter. */
  method EqualityExamples() returns (same: bool, shorter: bool, reversed: bool)
    ensures same && !shorter && !reversed
  {
    var a := new SimpleVector<int>.FromList([1, 2, 3]);
    var b := new SimpleVector<int>.FromList([1, 2, 3]);
    var c := new SimpleVector<int>.FromList([1, 2]);
    var d := new SimpleVector<int>.FromList([3, 2, 1]);
    same := Equal(a, b);
    shorter := Equal(c, a);
    reversed := Equal(a, d);
    assert a.Elements()[0] != d.Elements()[0];
  }
}
