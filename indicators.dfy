/**
 * The indicator-array builders of `Utils`: sort the caller's position list
 * in place, then lay the positions out as a dense array of ones and zeroes.
 * The `int[]` and `double[]` versions differ only in the two values they
 * write, so both are one generic method here.
 */
module Indicators {
  import opened Wrappers

  /** Why `intListOfPositionsToIntArrayOfPositionalIndicators` throws. */
  datatype IndicatorError =
    | EmptyList                   // `list.get(-1)`: IndexOutOfBoundsException
    | NegativeLength(length: int) // `new int[length]`: NegativeArraySizeException

  predicate Sorted(s: seq<int>)
  {
    forall i, j :: 0 <= i < j < |s| ==> s[i] <= s[j]
  }

  /** The largest element of a non-empty list. */
  function Max(s: seq<int>): (m: int)
    requires |s| > 0
    ensures m in s && forall x :: x in s ==> x <= m
  {
    if |s| == 1 then s[0]
    else
      var m := Max(s[1..]);
      assert forall x :: x in s ==> x == s[0] || x in s[1..];
      if s[0] >= m then s[0] else m
  }

  /** In a sorted non-empty list the last element is the largest. */
  lemma {:induction false} SortedLastIsMax(s: seq<int>)
    requires |s| > 0 && Sorted(s)
    ensures s[|s| - 1] == Max(s)
  {
    if |s| > 1 {
      var t := s[1..];
      assert Sorted(t);
      SortedLastIsMax(t);
      assert t[|t| - 1] == s[|s| - 1] && s[0] <= s[|s| - 1];
    }
  }

  /** Lists with the same elements have the same largest element. */
  lemma MaxOfPermutation(s: seq<int>, t: seq<int>)
    requires |s| > 0 && multiset(s) == multiset(t)
    ensures |t| > 0 && Max(s) == Max(t)
  {
    var ms := Max(s);
    assert ms in multiset(s);
    assert ms in t;
    var mt := Max(t);
    assert mt in multiset(t);
    assert mt in s;
  }

  method Swap(a: array<int>, i: int, j: int)
    requires 0 <= i < a.Length && 0 <= j < a.Length
    modifies a
    ensures a[..] == old(a[..])[i := old(a[j])][j := old(a[i])]
    ensures multiset(a[..]) == multiset(old(a[..]))
  {
    a[i], a[j] := a[j], a[i];
  }

  /** `Collections.sort` on the caller's list: ascending, the same elements. */
  method Sort(list: array<int>)
    modifies list
    ensures Sorted(list[..])
    ensures multiset(list[..]) == multiset(old(list[..]))
  {
    var i := 0;
    while i < list.Length
      invariant 0 <= i <= list.Length
      invariant Sorted(list[..i])
      invariant multiset(list[..]) == multiset(old(list[..]))
    {
      var j := i;
      while j > 0 && list[j - 1] > list[j]
        invariant 0 <= j <= i
        invariant multiset(list[..]) == multiset(old(list[..]))
        invariant forall a, b :: 0 <= a < b <= i && b != j ==> list[a] <= list[b]
        invariant 0 < j < i ==> list[j - 1] <= list[j + 1]
      {
        Swap(list, j - 1, j);
        j := j - 1;
      }
      i := i + 1;
    }
  }

  /**
   * `cells` lays `positions` out densely over the indices `0 .. length - 1`:
   * `one` where the index occurs in the list, `zero` elsewhere.
   */
  ghost predicate MarksPositions<T>(cells: seq<T>, positions: seq<int>, length: int, one: T, zero: T)
  {
    |cells| == length &&
    forall i :: 0 <= i < |cells| ==> cells[i] == if i in positions then one else zero
  }

  /** Lists with the same elements in any order have the same members. */
  lemma SameMembers(s: seq<int>, t: seq<int>)
    requires multiset(s) == multiset(t)
    ensures forall x :: x in s <==> x in t
  {
    forall x
      ensures x in s <==> x in t
    {
      assert x in s <==> x in multiset(s);
      assert x in t <==> x in multiset(t);
    }
  }

  /** The filling loop: a fresh array whose cell `i` is `one` exactly when `i` is a position. */
  method MarkPositions<T>(positions: seq<int>, length: nat, one: T, zero: T) returns (cells: array<T>)
    ensures fresh(cells) && MarksPositions(cells[..], positions, length, one, zero)
  {
    cells := new T[length](_ => zero);
    var i := 0;
    while i < cells.Length
      invariant 0 <= i <= cells.Length
      invariant forall k :: 0 <= k < i ==> cells[k] == if k in positions then one else zero
    {
      cells[i] := if i in positions then one else zero;
      i := i + 1;
    }
  }

  /**
   * `intListOfPositionsToIntArrayOfPositionalIndicators` (with `one = 1`,
   * `zero = 0`) and its `double[]` twin (with `1.0` and `0.0`): sorts the
   * caller's list, then sizes the array by the largest position, so that
   * position itself gets no cell. An empty list and a negative largest
   * position are the two ways the Java code throws.
   */
  method BuildIndicators<T>(list: array<int>, one: T, zero: T) returns (r: Result<array<T>, IndicatorError>)
    modifies list
    ensures Sorted(list[..]) && multiset(list[..]) == multiset(old(list[..]))
    ensures list.Length == 0 ==> r == Failure(EmptyList)
    ensures list.Length > 0 && Max(old(list[..])) < 0 ==> r == Failure(NegativeLength(Max(old(list[..]))))
    ensures list.Length > 0 && Max(old(list[..])) >= 0 ==>
              r.Success? && fresh(r.value) &&
              MarksPositions(r.value[..], old(list[..]), Max(old(list[..])), one, zero)
  {
    Sort(list);
    if list.Length == 0 {
      return Failure(EmptyList);
    }
    var length := list[list.Length - 1];
    SortedLastIsMax(list[..]);
    MaxOfPermutation(old(list[..]), list[..]);
    if length < 0 {
      return Failure(NegativeLength(length));
    }
    var cells := MarkPositions(list[..], length, one, zero);
    SameMembers(list[..], old(list[..]));
    return Success(cells);
  }

  /**
   * The same builder with the array sized one past the largest position,
   * so that every listed non-negative position gets its cell.
   */
  method BuildIndicatorsInclusive<T>(list: array<int>, one: T, zero: T) returns (r: Result<array<T>, IndicatorError>)
    modifies list
    ensures Sorted(list[..]) && multiset(list[..]) == multiset(old(list[..]))
    ensures list.Length == 0 ==> r == Failure(EmptyList)
    ensures list.Length > 0 && Max(old(list[..])) < 0 ==> r == Failure(NegativeLength(Max(old(list[..]))))
    ensures list.Length > 0 && Max(old(list[..])) >= 0 ==>
              r.Success? && fresh(r.value) &&
              MarksPositions(r.value[..], old(list[..]), Max(old(list[..])) + 1, one, zero)
  {
    Sort(list);
    if list.Length == 0 {
      return Failure(EmptyList);
    }
    var largest := list[list.Length - 1];
    SortedLastIsMax(list[..]);
    MaxOfPermutation(old(list[..]), list[..]);
    if largest < 0 {
      return Failure(NegativeLength(largest));
    }
    var cells := MarkPositions(list[..], largest + 1, one, zero);
    SameMembers(list[..], old(list[..]));
    return Success(cells);
  }

  /**
   * Sized by the largest position, the array has no cell for that
   * position: the list `[0, 3]` comes out as `[1, 0, 0]`, and the 1 at
   * offset 3 is lost.
   */
  lemma LargestPositionDropped(cells: seq<int>)
    requires MarksPositions(cells, [0, 3], Max([0, 3]), 1, 0)
    ensures cells == [1, 0, 0]
  {
    assert Max([0, 3]) == 3 by {
      assert [0, 3][1..] == [3];
    }
    assert cells[0] == 1 && cells[1] == 0 && cells[2] == 0;
  }

  /** Sized one past the largest position, the list `[0, 3]` comes out as `[1, 0, 0, 1]`. */
  lemma LargestPositionKept(cells: seq<int>)
    requires MarksPositions(cells, [0, 3], Max([0, 3]) + 1, 1, 0)
    ensures cells == [1, 0, 0, 1]
  {
    assert Max([0, 3]) == 3 by {
      assert [0, 3][1..] == [3];
    }
    assert cells[0] == 1 && cells[1] == 0 && cells[2] == 0 && cells[3] == 1;
  }
}
