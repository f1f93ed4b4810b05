/** `ArrayUtils.expandArray` and `ArrayUtils.prepend`.

    A Java array is its sequence of elements. Java fills a new array with the
    default value of its component type, so every operation takes that value
    as `zero`: `None` (null) for an object array `seq<Option<T>>`, `0` for the
    numeric primitive arrays, `false` for `boolean[]` and `'\0'` for `char[]`.
    The nine Java overloads of each method differ only in that default, so
    one generic definition serves all of them. */
module ArrayUtils {

  import opened Wrappers
  import opened JavaLang

  /** `n` copies of `zero`: a freshly allocated Java array of length `n`. */
  function Fill<T>(n: nat, zero: T): (r: seq<T>)
    ensures |r| == n
    ensures forall i :: 0 <= i < n ==> r[i] == zero
  {
    seq(n, _ => zero)
  }

  /** `expandArray(array, back, front)`: a new array of length
      `array.length + back + front` (computed in 32-bit `int` arithmetic)
      with `array` copied to offset `back` by `System.arraycopy`. A negative
      length makes the allocation throw `NegativeArraySizeException`; a copy
      that would leave the new array makes `System.arraycopy` throw
      `IndexOutOfBoundsException`. */
  function ExpandArray<T>(a: seq<T>, back: int, front: int, zero: T): (r: Result<seq<T>>)
    requires |a| <= INT_MAX && IsInt32(back) && IsInt32(front)
    ensures r.Ok? <==> 0 <= back && 0 <= front && |a| + back + front <= INT_MAX
    ensures r.Ok? ==> |r.value| == |a| + back + front
    ensures r.Ok? ==> forall i :: 0 <= i < |a| ==> r.value[back + i] == a[i]
    ensures r.Ok? ==> forall i :: 0 <= i < |r.value| && !(back <= i < back + |a|) ==> r.value[i] == zero
    ensures r == Err(NegativeArraySize) <==> Wrap32(|a| + back + front) < 0
    ensures r.Err? ==> r.error == NegativeArraySize || r.error == IndexOutOfBounds
  {
    var length := Wrap32(|a| + back + front);
    if length < 0 then Err(NegativeArraySize)
    else if back < 0 || back + |a| > length then Err(IndexOutOfBounds)
    else Ok(Fill(back, zero) + a + Fill(length - back - |a|, zero))
  }

  /** `prepend(element, array)`: `expandArray(array, 1, 0)` with `element`
      stored in the new first slot. */
  function Prepend<T>(element: T, a: seq<T>, zero: T): (r: Result<seq<T>>)
    requires |a| <= INT_MAX
    ensures r.Ok? <==> |a| < INT_MAX
    ensures r.Ok? ==> r.value == [element] + a
    ensures r.Err? ==> r.error == NegativeArraySize
  {
    var expanded :- ExpandArray(a, 1, 0, zero);
    Ok(expanded[0 := element])
  }

  /** Expanding an empty array yields `back + front` default values. */
  lemma ExpandEmpty<T>(back: int, front: int, zero: T)
    requires 0 <= back && 0 <= front && back + front <= INT_MAX
    ensures ExpandArray([], back, front, zero) == Ok(Fill(back + front, zero))
  {
    var r := ExpandArray([], back, front, zero).value;
    assert r == Fill(back + front, zero);
  }

  /** Expanding never loses or reorders the original elements: the window
      `[back, back + |a|)` of the result is `a` itself, and the padding on
      either side is all defaults. */
  lemma ExpandArrayDecomposes<T>(a: seq<T>, back: int, front: int, zero: T)
    requires |a| <= INT_MAX && IsInt32(back) && IsInt32(front)
    requires 0 <= back && 0 <= front && |a| + back + front <= INT_MAX
    ensures ExpandArray(a, back, front, zero).Ok?
    ensures ExpandArray(a, back, front, zero).value == Fill(back, zero) + a + Fill(front, zero)
  {
    var r := ExpandArray(a, back, front, zero).value;
    assert r[back..back + |a|] == a;
  }

  /** The in-place form of `expandArray`: allocation of a fresh array and
      `System.arraycopy` into it, leaving the argument untouched. */
  method ExpandArrayCopy<T>(a: array<T>, back: nat, front: nat, zero: T) returns (expanded: array<T>)
    requires a.Length + back + front <= INT_MAX
    ensures fresh(expanded)
    ensures a[..] == old(a[..])
    ensures Ok(expanded[..]) == ExpandArray(a[..], back, front, zero)
  {
    expanded := new T[a.Length + back + front](_ => zero);
    var i := 0;
    while i < a.Length
      invariant 0 <= i <= a.Length
      invariant forall k :: 0 <= k < expanded.Length && !(back <= k < back + i) ==> expanded[k] == zero
      invariant forall k :: 0 <= k < i ==> expanded[back + k] == a[k]
    {
      expanded[back + i] := a[i];
      i := i + 1;
    }
    ExpandArrayDecomposes(a[..], back, front, zero);
    var target := Fill(back, zero) + a[..] + Fill(front, zero);
    forall k | 0 <= k < expanded.Length
      ensures expanded[k] == target[k]
    {
      if back <= k < back + a.Length {
        assert expanded[back + (k - back)] == a[k - back];
      }
    }
    assert expanded[..] == target;
  }

  // The cases exercised by the library's own tests.

  /** `prepend(1, {2, 3})` on `Integer[]` and `prepend(null, {true, false})`
      on `Boolean[]`. */
  lemma PrependExamples()
    ensures Prepend(Some(1), [Some(2), Some(3)], None) == Ok([Some(1), Some(2), Some(3)])
    ensures Prepend(None, [Some(true), Some(false)], None) == Ok([None, Some(true), Some(false)])
  {
    assert [Some(1)] + [Some(2), Some(3)] == [Some(1), Some(2), Some(3)];
    assert [None] + [Some(true), Some(false)] == [None, Some(true), Some(false)];
  }

  /** `expandArray({1, 2, 3}, 6, 11)` on `Integer[]` and on `int[]`: the same
      placement, padded with null and with 0 respectively. */
  lemma ExpandExamples()
    ensures var r := ExpandArray([Some(1), Some(2), Some(3)], 6, 11, None);
            r.Ok? && |r.value| == 20 && r.value[6..9] == [Some(1), Some(2), Some(3)]
            && r.value[..6] == Fill(6, None) && r.value[9..] == Fill(11, None)
    ensures var r := ExpandArray([1, 2, 3], 6, 11, 0);
            r.Ok? && |r.value| == 20 && r.value[6..9] == [1, 2, 3]
            && r.value[..6] == Fill(6, 0) && r.value[9..] == Fill(11, 0)
  {
    ExpandArrayDecomposes([Some(1), Some(2), Some(3)], 6, 11, None);
    ExpandArrayDecomposes([1, 2, 3], 6, 11, 0);
  }
}
