/** `ReflectionUtils.getCallerClass`: the `N`th distinct calling class on
    the current thread's stack.

    The stack trace is an input: the sequence of class names of its frames,
    innermost first. Frame 0 is `java.lang.Thread.getStackTrace`, frame 1
    is `getCallerClass` itself. Resolving the found name to a `Class`
    (`ClassUtils.getClass`) is left out, so the result is the class name. */
module ReflectionUtils {

  import opened Wrappers
  import opened JavaLang

  /** Frame `k`, at index 2 or above, has a different class from the frame
      just inside it: the stack passes to a new calling class there. */
  predicate IsChange(trace: seq<string>, k: int) {
    2 <= k < |trace| && trace[k] != trace[k - 1]
  }

  /** The change points below frame `n`, innermost first. */
  function Changes(trace: seq<string>, n: nat): (c: seq<nat>)
    requires n <= |trace|
    ensures |c| <= n
    decreases n
  {
    if n <= 2 then []
    else Changes(trace, n - 1) + (if trace[n - 1] != trace[n - 2] then [n - 1] else [])
  }

  /** Every listed point is a change below `n`. */
  lemma {:induction false} ChangeAt(trace: seq<string>, n: nat, a: nat)
    requires n <= |trace| && a < |Changes(trace, n)|
    ensures IsChange(trace, Changes(trace, n)[a]) && Changes(trace, n)[a] < n
    decreases n
  {
    if a < |Changes(trace, n - 1)| {
      ChangeAt(trace, n - 1, a);
    }
  }

  /** The change points below `n` are exactly the changes below `n`. */
  lemma {:induction false} ChangesMembers(trace: seq<string>, n: nat, k: int)
    requires n <= |trace|
    ensures k in Changes(trace, n) <==> 0 <= k < n && IsChange(trace, k)
    decreases n
  {
    if n > 2 {
      var last := if trace[n - 1] != trace[n - 2] then [n - 1] else [];
      assert Changes(trace, n) == Changes(trace, n - 1) + last;
      assert k in last <==> k == n - 1 && IsChange(trace, n - 1);
      ChangesMembers(trace, n - 1, k);
    }
  }

  /** The change points are listed in increasing order. */
  lemma {:induction false} ChangesIncreasing(trace: seq<string>, n: nat, a: nat, b: nat)
    requires n <= |trace| && a < b < |Changes(trace, n)|
    ensures Changes(trace, n)[a] < Changes(trace, n)[b]
    decreases n
  {
    var inner := Changes(trace, n - 1);
    if b < |inner| {
      ChangesIncreasing(trace, n - 1, a, b);
    } else {
      ChangeAt(trace, n - 1, a);
    }
  }

  /** What `getCallerClass(index)` returns, stated through the change points:
      the class of the frame where the `(index + 1)`th change of class
      happens. A negative index is rejected before the stack is read; a trace
      too short to have frame 1, or with too few changes, gives
      `IndexOutOfBoundsException`. */
  function CallerClass(index: int, trace: seq<string>): (r: Result<string>)
    ensures r.Err? ==> r.error == IllegalArgument || r.error == IndexOutOfBounds
    ensures r == Err(IllegalArgument) <==> index < 0
    ensures r.Ok? <==> 0 <= index < |Changes(trace, |trace|)|
    ensures r.Ok? ==> exists j :: IsChange(trace, j) && r.value == trace[j]
  {
    if index < 0 then Err(IllegalArgument)
    else if |trace| < 2 then Err(IndexOutOfBounds)
    else
      var c := Changes(trace, |trace|);
      if index < |c| then
        ChangeAt(trace, |trace|, index);
        Ok(trace[c[index]])
      else Err(IndexOutOfBounds)
  }

  /** The change points below `n` are a prefix of those below any larger
      bound. */
  lemma {:induction false} ChangesPrefix(trace: seq<string>, n: nat, m: nat)
    requires n <= m <= |trace|
    ensures |Changes(trace, n)| <= |Changes(trace, m)|
    ensures Changes(trace, n) == Changes(trace, m)[..|Changes(trace, n)|]
    decreases m - n
  {
    if n < m {
      ChangesPrefix(trace, n, m - 1);
    }
  }

  /** Counting down from `index + 1` in `int` arithmetic: the start value
      wraps to `Integer.MIN_VALUE` when `index` is `Integer.MAX_VALUE`, and
      the next decrement wraps back, so the counter still tracks
      `index + 1` minus the changes seen. */
  lemma WrapDecrement(x: int)
    requires 1 <= x <= INT_MAX + 1
    ensures Wrap32(Wrap32(x) - 1) == x - 1
  {
    if x == INT_MAX + 1 {
      assert Wrap32(x) == INT_MIN;
    }
  }

  /** `getCallerClass(index)`: the scan from frame 2 outwards, remembering
      the class of the previous frame and counting down `searchIndex` at
      each change of class. */
  method GetCallerClass(index: int, trace: seq<string>) returns (r: Result<string>)
    requires IsInt32(index) && |trace| <= INT_MAX
    ensures r == CallerClass(index, trace)
  {
    if index < 0 {
      return Err(IllegalArgument);
    }
    if |trace| < 2 {
      return Err(IndexOutOfBounds);
    }
    var callingClass := trace[1];
    var searchIndex := Wrap32(index + 1);
    var i := 2;
    while i < |trace|
      invariant 2 <= i <= |trace|
      invariant callingClass == trace[i - 1]
      invariant |Changes(trace, i)| <= index
      invariant searchIndex == Wrap32(index + 1 - |Changes(trace, i)|)
    {
      var seen := |Changes(trace, i)|;
      if trace[i] != callingClass {
        assert |Changes(trace, i + 1)| == seen + 1 by {
          ChangesStep(trace, i);
        }
        searchIndex := Wrap32(searchIndex - 1);
        assert searchIndex == index - seen by {
          WrapDecrement(index + 1 - seen);
        }
        if searchIndex == 0 {
          FoundAt(index, trace, i);
          return Ok(trace[i]);
        }
        callingClass := trace[i];
      } else {
        assert Changes(trace, i + 1) == Changes(trace, i) by {
          ChangesStep(trace, i);
        }
      }
      i := i + 1;
    }
    assert |Changes(trace, |trace|)| <= index;
    return Err(IndexOutOfBounds);
  }

  /** One frame further out, the change points grow by that frame when it
      is a change. */
  lemma ChangesStep(trace: seq<string>, n: nat)
    requires 2 <= n < |trace|
    ensures Changes(trace, n + 1) == Changes(trace, n) + (if trace[n] != trace[n - 1] then [n] else [])
  {
  }

  /** The change at frame `i`, after exactly `index` earlier changes, is the
      one `CallerClass` picks. */
  lemma FoundAt(index: nat, trace: seq<string>, i: nat)
    requires IsChange(trace, i) && |Changes(trace, i)| == index
    ensures CallerClass(index, trace) == Ok(trace[i])
  {
    assert index < |Changes(trace, |trace|)| && Changes(trace, |trace|)[index] == i by {
      var c := Changes(trace, |trace|);
      var upto := Changes(trace, i + 1);
      assert |upto| == index + 1 && upto[index] == i by {
        ChangesStep(trace, i);
      }
      ChangesPrefix(trace, i + 1, |trace|);
      assert upto == c[..|upto|];
    }
    CallerClassAt(index, trace, i);
  }

  lemma CallerClassAt(index: nat, trace: seq<string>, j: nat)
    requires 2 <= j < |trace|
    requires index < |Changes(trace, |trace|)| && Changes(trace, |trace|)[index] == j
    ensures CallerClass(index, trace) == Ok(trace[j])
  {
  }

  /** `getCallerClass()`: the caller of the class calling it. */
  method GetCallerClassDefault(trace: seq<string>) returns (r: Result<string>)
    requires |trace| <= INT_MAX
    ensures r == CallerClass(1, trace)
  {
    r := GetCallerClass(1, trace);
  }

  /** The same positions, one frame further out. */
  function Shifted(c: seq<nat>): (d: seq<nat>)
    ensures |d| == |c|
    ensures forall k :: 0 <= k < |c| ==> d[k] == c[k] + 1
  {
    seq(|c|, k requires 0 <= k < |c| => c[k] + 1)
  }

  /** The trace seen through a helper of the same class: one more frame of
      the class in frame 1, right after it. */
  function WithSameClassFrame(trace: seq<string>): (t: seq<string>)
    requires |trace| >= 2
    ensures |t| == |trace| + 1
    ensures t[0] == trace[0] && t[1] == trace[1] && t[2] == trace[1]
    ensures forall k :: 2 <= k < |trace| ==> t[k + 1] == trace[k]
  {
    trace[..2] + [trace[1]] + trace[2..]
  }

  lemma ShiftedAppend(c: seq<nat>, d: seq<nat>)
    ensures Shifted(c + d) == Shifted(c) + Shifted(d)
  {
  }

  lemma {:induction false} ChangesWithSameClassFrame(trace: seq<string>, n: nat)
    requires 2 <= n <= |trace|
    ensures Changes(WithSameClassFrame(trace), n + 1) == Shifted(Changes(trace, n))
    decreases n
  {
    var t := WithSameClassFrame(trace);
    if n == 2 {
      assert Changes(t, 3) == Changes(t, 2) == [];
    } else {
      ChangesWithSameClassFrame(trace, n - 1);
      assert t[n] == trace[n - 1] && t[n - 1] == trace[n - 2];
      var last := if trace[n - 1] != trace[n - 2] then [n - 1] else [];
      assert Changes(trace, n) == Changes(trace, n - 1) + last;
      assert Changes(t, n + 1) == Changes(t, n) + Shifted(last);
      ShiftedAppend(Changes(trace, n - 1), last);
    }
  }

  /** A frame whose class equals the current calling class is skipped: a
      call routed through another method of the same class (as
      `getCallerClass()` routes through `getCallerClass(1)`) finds the same
      caller as a direct call. */
  lemma SameClassFrameSkipped(index: int, trace: seq<string>)
    requires |trace| >= 2
    ensures CallerClass(index, WithSameClassFrame(trace)) == CallerClass(index, trace)
  {
    ChangesWithSameClassFrame(trace, |trace|);
    var c := Changes(trace, |trace|);
    if 0 <= index < |c| {
      ChangeAt(trace, |trace|, index);
    }
  }

  /** Index 0 is the first class, outwards from frame 1, that differs from
      the class in frame 1: the class calling the method that called
      `getCallerClass`. */
  lemma {:induction false} ImmediateCaller(trace: seq<string>, j: nat)
    requires 2 <= j < |trace|
    requires forall k :: 2 <= k < j ==> trace[k] == trace[1]
    requires trace[j] != trace[1]
    ensures CallerClass(0, trace) == Ok(trace[j])
  {
    ChangesPrefix(trace, j + 1, |trace|);
    NoChangesBefore(trace, j);
    assert Changes(trace, j + 1) == [j];
  }

  lemma {:induction false} NoChangesBefore(trace: seq<string>, j: nat)
    requires 2 <= j <= |trace|
    requires forall k :: 2 <= k < j ==> trace[k] == trace[1]
    ensures Changes(trace, j) == []
    decreases j
  {
    if j > 2 {
      NoChangesBefore(trace, j - 1);
    }
  }

  /** On an illustrative six-frame trace shaped like the library's own
      test (the thread, `ReflectionUtils`, a method of `Caller`, two frames
      of the test class, one runner frame): index 0 gives `Caller`, index 1
      the test class, and a negative index is rejected, as the test asserts.
      On this trace index 2 gives the runner and index 3 is past the last
      class change; a real test runner's stack has more frames. */
  lemma CallerExamples(thread: string, utils: string, caller: string, test: string, runner: string)
    requires thread != utils && utils != caller && caller != test && test != runner
    ensures CallerClass(0, [thread, utils, caller, test, test, runner]) == Ok(caller)
    ensures CallerClass(1, [thread, utils, caller, test, test, runner]) == Ok(test)
    ensures CallerClass(2, [thread, utils, caller, test, test, runner]) == Ok(runner)
    ensures CallerClass(3, [thread, utils, caller, test, test, runner]) == Err(IndexOutOfBounds)
    ensures CallerClass(-1, [thread, utils, caller, test, test, runner]) == Err(IllegalArgument)
  {
    var t := [thread, utils, caller, test, test, runner];
    assert Changes(t, 6) == [2, 3, 5];
  }
}
