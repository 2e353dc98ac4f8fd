/**
 * The abstract view of a SimpleVector: its live elements as a sequence, and the
 * pure operations on that sequence that the class methods are proved against.
 * Also the lexicographic order that the free comparison operators implement.
 */
module Sequences {

  /** Capacity after a full buffer has to grow: 0 becomes 1, anything else doubles. */
  function NextCapacity(cap: nat): (r: nat)
    ensures r > cap
    ensures r <= 2 * cap + 1
  {
    if cap == 0 then 1 else 2 * cap
  }

  function Min(x: nat, y: nat): nat
  {
    if x <= y then x else y
  }

  /** `s` with `v` placed at position `i`; elements from `i` on move up one slot. */
  function InsertAt<T>(s: seq<T>, i: nat, v: T): (r: seq<T>)
    requires i <= |s|
    ensures |r| == |s| + 1
    ensures forall k :: 0 <= k < i ==> r[k] == s[k]
    ensures r[i] == v
    ensures forall k :: i < k < |r| ==> r[k] == s[k - 1]
  {
    s[..i] + [v] + s[i..]
  }

  /** `s` without its element at position `i`; later elements move down one slot. */
  function RemoveAt<T>(s: seq<T>, i: nat): (r: seq<T>)
    requires i < |s|
    ensures |r| == |s| - 1
    ensures forall k :: 0 <= k < i ==> r[k] == s[k]
    ensures forall k :: i <= k < |r| ==> r[k] == s[k + 1]
  {
    s[..i] + s[i + 1..]
  }

  /** `s` cut or extended to length `n`; new trailing slots hold `zero`. */
  function Resized<T>(s: seq<T>, n: nat, zero: T): (r: seq<T>)
    ensures |r| == n
    ensures forall k :: 0 <= k < Min(|s|, n) ==> r[k] == s[k]
    ensures forall k :: |s| <= k < n ==> r[k] == zero
  {
    if n <= |s| then s[..n] else s + seq(n - |s|, _ => zero)
  }

  /** Erasing at the position just inserted at gives back the original sequence. */
  lemma RemoveAtInsertAt<T>(s: seq<T>, i: nat, v: T)
    requires i <= |s|
    ensures RemoveAt(InsertAt(s, i, v), i) == s
  {
  }

  /** Inserting the element that was erased, at the same place, restores the sequence. */
  lemma InsertAtRemoveAt<T>(s: seq<T>, i: nat)
    requires i < |s|
    ensures InsertAt(RemoveAt(s, i), i, s[i]) == s
  {
  }

  /**
   * Shrinking and growing again fills the regrown tail with `zero`: a value
   * cut off by a shrink never comes back.
   */
  lemma ResizedForgetsCutTail<T>(s: seq<T>, m: nat, n: nat, zero: T)
    requires m <= |s| && m <= n
    ensures Resized(Resized(s, m, zero), n, zero) == s[..m] + seq(n - m, _ => zero)
  {
  }

  // ---------------------------------------------------------------------------
  // Lexicographic order over an element order `lt`. The element test `a > b`
  // of the source is read as `lt(b, a)`.
  // ---------------------------------------------------------------------------

  /** Neither element is below the other: the order cannot tell them apart. */
  predicate Equivalent<T>(x: T, y: T, lt: (T, T) -> bool)
  {
    !lt(x, y) && !lt(y, x)
  }

  /**
   * The first index at or after `from` where `a` and `b` are not equivalent,
   * or the length of the shorter one when they agree that far.
   */
  function FirstDifference<T>(a: seq<T>, b: seq<T>, lt: (T, T) -> bool, from: nat): (k: nat)
    requires from <= |a| && from <= |b|
    ensures from <= k <= Min(|a|, |b|)
    ensures forall j :: from <= j < k ==> Equivalent(a[j], b[j], lt)
    ensures k < Min(|a|, |b|) ==> !Equivalent(a[k], b[k], lt)
    decreases |a| - from
  {
    if from == |a| || from == |b| then from
    else if !Equivalent(a[from], b[from], lt) then from
    else FirstDifference(a, b, lt, from + 1)
  }

  /**
   * `a` sorts before `b`: at the first position where they differ `a` holds the
   * smaller element, or, when one is a prefix of the other, `a` is shorter.
   */
  predicate LexLess<T>(a: seq<T>, b: seq<T>, lt: (T, T) -> bool)
  {
    var k := FirstDifference(a, b, lt, 0);
    if k < Min(|a|, |b|) then lt(a[k], b[k]) else |a| < |b|
  }

  ghost predicate Irreflexive<T(!new)>(lt: (T, T) -> bool)
  {
    forall x :: !lt(x, x)
  }

  /** `lt` is a strict total order: irreflexive, transitive, and any two distinct values are related. */
  ghost predicate StrictTotalOrder<T(!new)>(lt: (T, T) -> bool)
  {
    && Irreflexive(lt)
    && (forall x, y, z :: lt(x, y) && lt(y, z) ==> lt(x, z))
    && (forall x, y :: x != y ==> lt(x, y) || lt(y, x))
  }

  /** Any index with the defining properties is the first difference. */
  lemma FirstDifferenceIs<T>(a: seq<T>, b: seq<T>, lt: (T, T) -> bool, k: nat)
    requires k <= Min(|a|, |b|)
    requires forall j :: 0 <= j < k ==> Equivalent(a[j], b[j], lt)
    requires k < Min(|a|, |b|) ==> !Equivalent(a[k], b[k], lt)
    ensures FirstDifference(a, b, lt, 0) == k
  {
  }

  /** The first difference does not depend on which side is which. */
  lemma FirstDifferenceSymmetric<T>(a: seq<T>, b: seq<T>, lt: (T, T) -> bool)
    ensures FirstDifference(a, b, lt, 0) == FirstDifference(b, a, lt, 0)
  {
  }

  /** A differing element decides the order: the smaller one sorts first. */
  lemma FirstDifferingElementDecides<T>(a: seq<T>, b: seq<T>, lt: (T, T) -> bool, k: nat)
    requires k < |a| && k < |b|
    requires forall j :: 0 <= j < k ==> Equivalent(a[j], b[j], lt)
    requires lt(a[k], b[k]) || lt(b[k], a[k])
    ensures LexLess(a, b, lt) == lt(a[k], b[k])
  {
  }

  /** Under an irreflexive order a proper prefix sorts first, and never the other way round. */
  lemma ShorterPrefixSortsFirst<T(!new)>(a: seq<T>, b: seq<T>, lt: (T, T) -> bool)
    requires Irreflexive(lt)
    requires |a| < |b| && a == b[..|a|]
    ensures LexLess(a, b, lt) && !LexLess(b, a, lt)
  {
  }

  lemma LexLessIrreflexive<T(!new)>(a: seq<T>, lt: (T, T) -> bool)
    requires Irreflexive(lt)
    ensures !LexLess(a, a, lt)
  {
  }

  /** If `lt` is asymmetric, `a < b` and `b < a` cannot both hold. */
  lemma LexLessAsymmetric<T>(a: seq<T>, b: seq<T>, lt: (T, T) -> bool)
    requires forall x, y :: lt(x, y) ==> !lt(y, x)
    requires LexLess(a, b, lt)
    ensures !LexLess(b, a, lt)
  {
  }

  /** Under a strict total order, exactly one of `a < b`, `a == b`, `b < a` holds. */
  lemma LexLessTrichotomy<T(!new)>(a: seq<T>, b: seq<T>, lt: (T, T) -> bool)
    requires StrictTotalOrder(lt)
    ensures LexLess(a, b, lt) || a == b || LexLess(b, a, lt)
    ensures !(LexLess(a, b, lt) && a == b)
    ensures !(LexLess(a, b, lt) && LexLess(b, a, lt))
  {
  }

  /** Under a strict total order the lexicographic order is transitive. */
  lemma LexLessTransitive<T(!new)>(a: seq<T>, b: seq<T>, c: seq<T>, lt: (T, T) -> bool)
    requires StrictTotalOrder(lt)
    requires LexLess(a, b, lt) && LexLess(b, c, lt)
    ensures LexLess(a, c, lt)
  {
  }

  /** Order examples on integers: a shorter equal prefix sorts first, the first differing element decides. */
  lemma IntegerOrderExamples()
    ensures LexLess([1, 2], [1, 2, 3], (x: int, y: int) => x < y)
    ensures !LexLess([1, 3], [1, 2, 9], (x: int, y: int) => x < y)
    ensures !LexLess([1, 2, 3], [1, 2, 3], (x: int, y: int) => x < y)
  {
  }
}
