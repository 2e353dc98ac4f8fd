/**
 * SimpleVector<Type>: a growable array that owns one buffer. The buffer is a
 * Dafny array whose length is the capacity; the first `size` slots hold the
 * live elements. A C++ null buffer is an array of length 0.
 */
module SimpleVectors {
  import opened Sequences

  /** The one-shot request object that carries a capacity to the reserving constructor. */
  datatype ReserveProxyObj = ReserveProxyObj(capacityToReserve: nat)
  {
    /** The requested capacity, which is all the proxy carries. */
    function GetCapacity(): (c: nat)
      ensures this == ReserveProxyObj(c)
    {
      capacityToReserve
    }
  }

  /** Factory for the proxy: `SimpleVector<T> v(Reserve(n))`. */
  function Reserve(capacityToReserve: nat): (proxy: ReserveProxyObj)
    ensures proxy.GetCapacity() == capacityToReserve
  {
    ReserveProxyObj(capacityToReserve)
  }

  /** Outcome of the checked access `At`: the element, or the out-of-range error. */
  datatype AtResult<T> = Found(value: T) | OutOfRange

  // ---------------------------------------------------------------------------
  // Element moves between and within buffers
  // ---------------------------------------------------------------------------

  /**
   * Moves `n` elements from `src[from..]` into `dst[to..]` of a different buffer,
   * front to back; every other slot of `dst` keeps its value.
   */
  method MoveN<T>(src: array<T>, from: nat, dst: array<T>, to: nat, n: nat)
    requires src != dst
    requires from + n <= src.Length && to + n <= dst.Length
    modifies dst
    ensures forall k :: 0 <= k < dst.Length ==>
      dst[k] == if to <= k < to + n then src[from + (k - to)] else old(dst[k])
  {
    for i := 0 to n
      invariant forall k :: 0 <= k < dst.Length ==>
        dst[k] == if to <= k < to + i then src[from + (k - to)] else old(dst[k])
    {
      dst[to + i] := src[from + i];
    }
  }

  /** Writes `value` into the `n` slots `dst[to..to + n]`; every other slot keeps its value. */
  method FillN<T>(dst: array<T>, to: nat, n: nat, value: T)
    requires to + n <= dst.Length
    modifies dst
    ensures forall k :: 0 <= k < dst.Length ==>
      dst[k] == if to <= k < to + n then value else old(dst[k])
  {
    for i := 0 to n
      invariant forall k :: 0 <= k < dst.Length ==>
        dst[k] == if to <= k < to + i then value else old(dst[k])
    {
      dst[to + i] := value;
    }
  }

  /**
   * Moves `a[lo..hi]` up one slot to `a[lo + 1..hi + 1]`, working from the back
   * so that no element is overwritten before it has been moved; `a[lo]` keeps
   * its value and no slot outside `lo..hi` changes.
   */
  method ShiftUp<T>(a: array<T>, lo: nat, hi: nat)
    requires lo <= hi < a.Length
    modifies a
    ensures forall k :: 0 <= k < a.Length ==>
      a[k] == if lo < k <= hi then old(a[k - 1]) else old(a[k])
  {
    var i := hi;
    while i > lo
      invariant lo <= i <= hi
      invariant forall k :: 0 <= k < a.Length ==>
        a[k] == if i < k <= hi then old(a[k - 1]) else old(a[k])
    {
      a[i] := a[i - 1];
      i := i - 1;
    }
  }

  /**
   * Moves `a[lo + 1..hi]` down one slot to `a[lo..hi - 1]`, working from the
   * front; slot `hi - 1` keeps its value and no slot outside `lo..hi` changes.
   */
  method ShiftDown<T>(a: array<T>, lo: nat, hi: nat)
    requires lo < hi <= a.Length
    modifies a
    ensures forall k :: 0 <= k < a.Length ==>
      a[k] == if lo <= k < hi - 1 then old(a[k + 1]) else old(a[k])
  {
    for i := lo to hi - 1
      invariant forall k :: 0 <= k < a.Length ==>
        a[k] == if lo <= k < i then old(a[k + 1]) else old(a[k])
    {
      a[i] := a[i + 1];
    }
  }

  // ---------------------------------------------------------------------------
  // The container
  // ---------------------------------------------------------------------------

  class SimpleVector<T(0)> {
    var data: array<T>
    var size: nat

    /** The live elements fit in the buffer. */
    ghost predicate Valid()
      reads this
    {
      size <= data.Length
    }

    /** The live elements `data[0..size]`, in order. */
    ghost function Elements(): seq<T>
      reads this, data
      requires Valid()
    {
      data[..size]
    }

    /** The number of slots in the buffer; never below the number of live elements. */
    function Capacity(): (c: nat)
      reads this, data
      requires Valid()
      ensures c >= |Elements()|
    {
      data.Length
    }

    function GetSize(): (n: nat)
      reads this, data
      requires Valid()
      ensures n == |Elements()|
    {
      size
    }

    function IsEmpty(): (empty: bool)
      reads this, data
      requires Valid()
      ensures empty <==> Elements() == []
    {
      size == 0
    }

    /** Default construction: no elements and no buffer. */
    constructor ()
      ensures Valid() && fresh(data)
      ensures Elements() == [] && Capacity() == 0
    {
      data := new T[0];
      size := 0;
    }

    /**
     * `n` copies of `value`, in a buffer of exactly `n` slots. With `value` the
     * value-initialised `Type{}` this is also the one-argument constructor, taken
     * as the value-initialised buffer it allocates before default-constructing
     * over the same slots.
     */
    constructor Filled(n: nat, value: T)
      ensures Valid() && fresh(data)
      ensures |Elements()| == n && Capacity() == n
      ensures forall k :: 0 <= k < n ==> Elements()[k] == value
    {
      data := new T[n];
      size := n;
      new;
      FillN(data, 0, n, value);
    }

    /** The elements of an initializer list, in order, in a buffer of exactly that size. */
    constructor FromList(init: seq<T>)
      ensures Valid() && fresh(data)
      ensures Elements() == init && Capacity() == |init|
    {
      var buffer := new T[|init|];
      for i := 0 to |init|
        invariant forall k :: 0 <= k < i ==> buffer[k] == init[k]
      {
        buffer[i] := init[i];
      }
      data := buffer;
      size := |init|;
    }

    /** An empty vector that starts as the default one and then reserves the proxy's capacity. */
    constructor FromReserve(proxy: ReserveProxyObj)
      ensures Valid() && fresh(data)
      ensures Elements() == [] && Capacity() == proxy.GetCapacity()
    {
      data := new T[0];
      size := 0;
      new;
      Reserve(proxy.GetCapacity());
    }

    /** Copy construction: the same elements, and a fresh buffer of the same capacity. */
    constructor Copy(other: SimpleVector<T>)
      requires other.Valid()
      ensures Valid() && fresh(data)
      ensures Elements() == other.Elements() && Capacity() == other.Capacity()
    {
      data := new T[other.data.Length];
      size := other.size;
      new;
      MoveN(other.data, 0, data, 0, size);
    }

    /** Move construction: takes over `other`'s buffer and leaves `other` empty with no buffer. */
    constructor Move(other: SimpleVector<T>)
      requires other.Valid()
      modifies other
      ensures Valid() && other.Valid()
      ensures data == old(other.data)
      ensures Elements() == old(other.Elements()) && Capacity() == old(other.Capacity())
      ensures other.Elements() == [] && other.Capacity() == 0
    {
      data := other.data;
      size := other.size;
      new;
      other.data := new T[0];
      other.size := 0;
    }

    /** Copy assignment: copy `rhs` into a temporary and swap it in; assigning to itself changes nothing. */
    method CopyAssign(rhs: SimpleVector<T>)
      requires Valid() && rhs.Valid()
      modifies this
      ensures Valid()
      ensures Elements() == old(rhs.Elements()) && Capacity() == old(rhs.Capacity())
      ensures rhs == this ==> data == old(data) && size == old(size)
      ensures rhs != this ==> fresh(data)
    {
      if this != rhs {
        var tmp := new SimpleVector.Copy(rhs);
        tmp.Swap(this);
      }
    }

    /**
     * Move assignment: drop the own elements, take over `rhs`'s buffer and leave
     * `rhs` empty with no buffer; assigning to itself changes nothing.
     */
    method MoveAssign(rhs: SimpleVector<T>)
      requires Valid() && rhs.Valid()
      modifies this, rhs
      ensures Valid() && rhs.Valid()
      ensures rhs == this ==> data == old(data) && size == old(size)
      ensures rhs != this ==>
        && data == old(rhs.data)
        && Elements() == old(rhs.Elements()) && Capacity() == old(rhs.Capacity())
        && rhs.Elements() == [] && rhs.Capacity() == 0
    {
      if this != rhs {
        Clear();
        data := rhs.data;
        size := rhs.size;
        rhs.data := new T[0];
        rhs.size := 0;
      }
    }

    /** Exchanges buffer, size and capacity with `other`; no element is touched. */
    method Swap(other: SimpleVector<T>)
      requires Valid() && other.Valid()
      modifies this, other
      ensures Valid() && other.Valid()
      ensures data == old(other.data) && other.data == old(data)
      ensures Elements() == old(other.Elements()) && Capacity() == old(other.Capacity())
      ensures other.Elements() == old(Elements()) && other.Capacity() == old(Capacity())
    {
      var d, s := data, size;
      data, size := other.data, other.size;
      other.data, other.size := d, s;
    }

    /** Appends `item`; a full buffer first grows by the doubling rule. */
    method PushBack(item: T)
      requires Valid()
      modifies this, data
      ensures Valid() && (data == old(data) || fresh(data))
      ensures Elements() == old(Elements()) + [item]
      ensures old(size) < old(Capacity()) ==> data == old(data)
      ensures Capacity() ==
        if old(size) == old(Capacity()) then NextCapacity(old(Capacity())) else old(Capacity())
    {
      if size == data.Length {
        var newData := new T[NextCapacity(data.Length)];
        MoveN(data, 0, newData, 0, size);
        data := newData;
      }
      data[size] := item;
      size := size + 1;
    }

    /**
     * Inserts `value` before position `index` and returns that position. A full
     * buffer is replaced by one grown by the doubling rule, assembled from the
     * prefix, the new value and the suffix. Otherwise the suffix is moved up one
     * slot in place; the source does that with a forward move into an
     * overlapping range, which this model replaces by the back-to-front move
     * the operation needs (see module InsertAsWritten).
     */
    method Insert(index: nat, value: T) returns (pos: nat)
      requires Valid() && index <= size
      modifies this, data
      ensures Valid() && (data == old(data) || fresh(data))
      ensures pos == index
      ensures Elements() == InsertAt(old(Elements()), index, value)
      ensures old(size) < old(Capacity()) ==> data == old(data)
      ensures Capacity() ==
        if old(size) == old(Capacity()) then NextCapacity(old(Capacity())) else old(Capacity())
    {
      ghost var before := Elements();
      if size == data.Length {
        var newData := new T[NextCapacity(data.Length)];
        MoveN(data, 0, newData, 0, index);
        newData[index] := value;
        MoveN(data, index, newData, index + 1, size - index);
        data := newData;
      } else {
        ShiftUp(data, index, size);
        data[index] := value;
      }
      size := size + 1;
      pos := index;
      assert forall k :: 0 <= k < size ==> Elements()[k] == InsertAt(before, index, value)[k];
    }

    /** Drops the last element; the buffer stays. */
    method PopBack()
      requires Valid() && size > 0
      modifies this
      ensures Valid() && data == old(data)
      ensures Elements() == old(Elements())[..old(size) - 1]
    {
      size := size - 1;
    }

    /**
     * Removes the element at `index`, moving the later ones down one slot, and
     * returns `index`, where the next element now stands. The buffer stays.
     */
    method Erase(index: nat) returns (pos: nat)
      requires Valid() && index < size
      modifies this, data
      ensures Valid() && data == old(data)
      ensures pos == index
      ensures Elements() == RemoveAt(old(Elements()), index)
    {
      ghost var before := Elements();
      ShiftDown(data, index, size);
      size := size - 1;
      pos := index;
      assert forall k :: 0 <= k < size ==> Elements()[k] == RemoveAt(before, index)[k];
    }

    /** Drops every element; the buffer and its capacity stay. */
    method Clear()
      requires Valid()
      modifies this
      ensures Valid() && data == old(data)
      ensures Elements() == []
    {
      size := 0;
    }

    /**
     * Sets the size to `newSize`. A buffer that is too small is replaced by one of
     * exactly `newSize` slots; slots that become live hold `zero`, the model of
     * the value-initialised `Type{}`.
     */
    method Resize(newSize: nat, zero: T)
      requires Valid()
      modifies this, data
      ensures Valid() && (data == old(data) || fresh(data))
      ensures Elements() == Resized(old(Elements()), newSize, zero)
      ensures newSize <= old(Capacity()) ==> data == old(data)
      ensures Capacity() == if newSize > old(Capacity()) then newSize else old(Capacity())
    {
      ghost var before := Elements();
      if newSize > data.Length {
        var newData := new T[newSize];
        MoveN(data, 0, newData, 0, size);
        data := newData;
      }
      if newSize > size {
        FillN(data, size, newSize - size, zero);
      }
      size := newSize;
      assert forall k :: 0 <= k < size ==> Elements()[k] == Resized(before, newSize, zero)[k];
    }

    /**
     * Makes room for `newCapacity` elements: nothing happens when the buffer is
     * already that large, otherwise the elements move to a buffer of exactly
     * `newCapacity` slots.
     */
    method Reserve(newCapacity: nat)
      requires Valid()
      modifies this
      ensures Valid() && Elements() == old(Elements())
      ensures newCapacity <= old(Capacity()) ==> data == old(data) && size == old(size)
      ensures newCapacity > old(Capacity()) ==> fresh(data) && Capacity() == newCapacity
    {
      if newCapacity <= data.Length {
        return;
      }
      var newData := new T[newCapacity];
      MoveN(data, 0, newData, 0, size);
      data := newData;
    }

    /** Unchecked read access `v[index]`; the caller guarantees `index < size`. */
    method Get(index: nat) returns (x: T)
      requires Valid() && index < size
      ensures x == Elements()[index]
    {
      x := data[index];
    }

    /** Write through the reference `v[index]`; the caller guarantees `index < size`. */
    method Set(index: nat, x: T)
      requires Valid() && index < size
      modifies data
      ensures Valid() && Elements() == old(Elements())[index := x]
    {
      data[index] := x;
    }

    /** Checked access: out of range exactly when `index >= size`; the vector is not changed. */
    method At(index: nat) returns (r: AtResult<T>)
      requires Valid()
      ensures r.OutOfRange? <==> index >= |Elements()|
      ensures index < |Elements()| ==> r == Found(Elements()[index])
    {
      if index >= size {
        return OutOfRange;
      }
      return Found(data[index]);
    }
  }
}
