/** `ClassLoaderUtil.AggregateIterator`: several enumerations read as one
    iterator that skips elements it has already produced, keeping one element
    of lookahead.

    An `Enumeration` is the sequence of elements it has still to produce.
    Elements are never null (a null element would read as the end of the
    iteration), and no enumeration object is added twice. */
module AggregateIterator {

  import opened Wrappers

  /** The iterator's fields: `cur`, the `enums` queue (its last element is
      taken first), the `loaded` set and the `next` lookahead. */
  datatype State<T> = State(cur: Option<seq<T>>, enums: seq<seq<T>>, loaded: set<T>, next: Option<T>)

  /** A new iterator. */
  function Empty<T(==,!new)>(): State<T> {
    State(None, [], {}, None)
  }

  /** The queued enumerations in the order they will be read: last first. */
  function ConcatReversed<T(==,!new)>(enums: seq<seq<T>>): seq<T>
    decreases |enums|
  {
    if |enums| == 0 then [] else enums[|enums| - 1] + ConcatReversed(enums[..|enums| - 1])
  }

  /** Every element still to be read from the enumerations, in reading
      order: the rest of the current one, then the queue from last to first. */
  function Pending<T(==,!new)>(s: State<T>): seq<T> {
    (if s.cur.Some? then s.cur.value else []) + ConcatReversed(s.enums)
  }

  /** The shape `addEnumeration` and `determineCurrentEnumeration` keep: only
      non-empty enumerations are queued, and nothing is queued without a
      current enumeration. */
  predicate WellQueued<T(==,!new)>(s: State<T>) {
    && (forall i :: 0 <= i < |s.enums| ==> |s.enums[i]| > 0)
    && (s.cur.None? ==> |s.enums| == 0)
  }

  /** The invariant between public calls: there is a lookahead exactly when
      there is a current enumeration, and the lookahead is already marked
      loaded. */
  predicate Valid<T(==,!new)>(s: State<T>) {
    && WellQueued(s)
    && (s.cur.None? <==> s.next.None?)
    && (s.next.Some? ==> s.next.value in s.loaded)
  }

  predicate NoDuplicates<T(==,!new)>(xs: seq<T>) {
    forall i, j :: 0 <= i < j < |xs| ==> xs[i] != xs[j]
  }

  /** The reference for the de-duplication: `xs` with the elements of `seen`
      and every repeat removed, first occurrences kept in order. */
  function Fresh<T(==,!new)>(xs: seq<T>, seen: set<T>): (r: seq<T>)
    ensures forall x :: x in r <==> x in xs && x !in seen
    ensures NoDuplicates(r)
    decreases |xs|
  {
    if |xs| == 0 then []
    else if xs[0] in seen then Fresh(xs[1..], seen)
    else [xs[0]] + Fresh(xs[1..], seen + {xs[0]})
  }

  // ---------------------------------------------------------------------------
  // The operations

  /** `addEnumeration(e)`: an empty enumeration is ignored; without a current
      enumeration `e` becomes current and its first element the lookahead;
      otherwise `e` is queued, to be read right after the current one. */
  function AddEnumeration<T(==,!new)>(s: State<T>, e: seq<T>): (r: State<T>)
    requires Valid(s)
    ensures Valid(r)
    ensures |e| == 0 ==> r == s
    ensures |e| > 0 && s.cur.None? ==>
      r.cur == Some(e[1..]) && r.next == Some(e[0]) && r.loaded == s.loaded + {e[0]} && r.enums == s.enums
    ensures |e| > 0 && s.cur.Some? ==>
      r.next == s.next && r.loaded == s.loaded && r.cur == s.cur && r.enums == s.enums + [e]
    ensures |e| > 0 && s.cur.Some? ==> Pending(r) == s.cur.value + e + ConcatReversed(s.enums)
  {
    if |e| == 0 then s
    else if s.cur.None? then s.(cur := Some(e[1..]), next := Some(e[0]), loaded := s.loaded + {e[0]})
    else
      var r := s.(enums := s.enums + [e]);
      assert r.enums[..|r.enums| - 1] == s.enums;
      r
  }

  /** `hasNext()` */
  function HasNext<T(==,!new)>(s: State<T>): (b: bool)
    requires Valid(s)
    ensures b <==> Next(s).Ok?
    ensures b <==> |Yield(s)| > 0
  {
    s.next.Some?
  }

  /** `determineCurrentEnumeration()`: an exhausted current enumeration is
      replaced by the most recently queued one, or by none. */
  function DetermineCurrent<T(==,!new)>(s: State<T>): (r: State<T>)
    requires WellQueued(s)
    ensures WellQueued(r)
    ensures Pending(r) == Pending(s)
    ensures r.loaded == s.loaded && r.next == s.next
    ensures r.cur.Some? ==> |r.cur.value| > 0
    ensures r.cur.None? ==> |Pending(r)| == 0
    ensures s.cur.Some? && |s.cur.value| > 0 ==> r == s
    ensures s.cur.Some? && |s.cur.value| == 0 && |s.enums| > 0 ==>
      r.cur == Some(s.enums[|s.enums| - 1]) && r.enums == s.enums[..|s.enums| - 1]
  {
    if s.cur.Some? && |s.cur.value| == 0 then
      if |s.enums| > 0 then
        s.(cur := Some(s.enums[|s.enums| - 1]), enums := s.enums[..|s.enums| - 1])
      else s.(cur := None)
    else s
  }

  /** `loadNext()`: the first pending element not yet loaded, which is then
      marked loaded; `None` once everything pending has been loaded before.
      The Java loop around the recursive call runs at most once, because a
      non-null recursive result always grows `loaded`. */
  function LoadNext<T(==,!new)>(s: State<T>): (r: (State<T>, Option<T>))
    requires WellQueued(s)
    ensures WellQueued(r.0) && r.0.next == s.next
    ensures r.1.None? ==> r.0.cur.None? && |Pending(r.0)| == 0 && r.0.loaded == s.loaded
    ensures r.1.Some? ==> r.0.cur.Some? && r.1.value !in s.loaded && r.0.loaded == s.loaded + {r.1.value}
    ensures r.1.Some? ==> |Pending(r.0)| < |Pending(s)|
    ensures var f := Fresh(Pending(s), s.loaded);
      && (r.1.None? <==> |f| == 0)
      && (r.1.Some? ==> r.1.value == f[0] && Fresh(Pending(r.0), r.0.loaded) == f[1..])
    decreases |Pending(s)|
  {
    var d := DetermineCurrent(s);
    if d.cur.None? then (d, None)
    else
      var tmp := d.cur.value[0];
      var d1 := d.(cur := Some(d.cur.value[1..]));
      assert Pending(d) == [tmp] + Pending(d1);
      if tmp !in d.loaded then (d1.(loaded := d.loaded + {tmp}), Some(tmp))
      else LoadNext(d1)
  }

  /** `next()`: the lookahead, after loading the following element; with no
      lookahead, `NoSuchElementException`. */
  function Next<T(==,!new)>(s: State<T>): (r: Result<(State<T>, T)>)
    requires Valid(s)
    ensures r.Ok? <==> s.next.Some?
    ensures r.Err? ==> r.error == NoSuchElement
    ensures r.Ok? ==> Valid(r.value.0) && r.value.1 == s.next.value
  {
    if s.next.Some? then
      var (s2, n) := LoadNext(s);
      Ok((s2.(next := n), s.next.value))
    else Err(NoSuchElement)
  }

  /** `remove()` is not supported. */
  function Remove<T(==,!new)>(s: State<T>): (r: Result<State<T>>)
    ensures r.Err? && r.error == UnsupportedOperation
  {
    Err(UnsupportedOperation)
  }

  // ---------------------------------------------------------------------------
  // Whole iterations

  /** What the iterator will still produce, by the reference definition: the
      lookahead, then the pending elements with loaded ones and repeats
      removed. */
  function Yield<T(==,!new)>(s: State<T>): seq<T> {
    if s.next.Some? then [s.next.value] + Fresh(Pending(s), s.loaded) else []
  }

  function Measure<T(==,!new)>(s: State<T>): nat {
    |Pending(s)| + if s.next.Some? then 1 else 0
  }

  /** One call of `next()` produces the first element of the yield and
      leaves the rest of it. */
  lemma NextYield<T(!new)>(s: State<T>)
    requires Valid(s) && s.next.Some?
    ensures Measure(Next(s).value.0) < Measure(s)
    ensures Yield(s) == [Next(s).value.1] + Yield(Next(s).value.0)
  {
    var (s2, n) := LoadNext(s);
    var t := s2.(next := n);
    assert Next(s) == Ok((t, s.next.value));
    assert Pending(t) == Pending(s2) && t.loaded == s2.loaded;
    var f := Fresh(Pending(s), s.loaded);
    if n.Some? {
      assert Yield(t) == [n.value] + f[1..];
      assert f == [f[0]] + f[1..];
    } else {
      assert Yield(t) == [] && f == [];
    }
  }

  /** The yield never repeats an element. */
  lemma YieldNoDuplicates<T(!new)>(s: State<T>)
    requires Valid(s)
    ensures NoDuplicates(Yield(s))
  {
    if s.next.Some? {
      var f := Fresh(Pending(s), s.loaded);
      assert s.next.value !in f;
      var y := Yield(s);
      forall i, j | 0 <= i < j < |y|
        ensures y[i] != y[j]
      {
        if i > 0 {
          assert y[i] == f[i - 1] && y[j] == f[j - 1];
        } else {
          assert y[j] == f[j - 1] && y[j] in f;
        }
      }
    }
  }

  /** Every element `next()` returns until `hasNext()` turns false. */
  function Drain<T(==,!new)>(s: State<T>): (out: seq<T>)
    requires Valid(s)
    ensures out == Yield(s)
    decreases Measure(s)
  {
    match Next(s)
    case Err(_) => []
    case Ok((s2, x)) =>
      NextYield(s);
      [x] + Drain(s2)
  }

  /** `addEnumeration` of every enumeration in turn, on a new iterator. */
  function Build<T(==,!new)>(es: seq<seq<T>>): (s: State<T>)
    ensures Valid(s)
    decreases |es|
  {
    if |es| == 0 then Empty() else AddEnumeration(Build(es[..|es| - 1]), es[|es| - 1])
  }

  /** What a not yet iterated state will produce, elements loaded or not. */
  function Stream<T(==,!new)>(s: State<T>): seq<T> {
    if s.next.Some? then [s.next.value] + Pending(s) else []
  }

  /** Before iteration only the lookahead is loaded. */
  predicate Unstarted<T(==,!new)>(s: State<T>) {
    s.loaded == if s.next.Some? then {s.next.value} else {}
  }

  /** Adding an enumeration adds exactly its elements to the stream. */
  lemma AddToStream<T(!new)>(s: State<T>, e: seq<T>)
    requires Valid(s)
    ensures forall x :: x in Stream(AddEnumeration(s, e)) <==> x in Stream(s) || x in e
  {
    var r := AddEnumeration(s, e);
    if |e| > 0 && s.cur.None? {
      assert Stream(r) == [e[0]] + e[1..] == e;
    } else if |e| > 0 {
      assert Stream(s) == [s.next.value] + (s.cur.value + ConcatReversed(s.enums));
      assert Stream(r) == [s.next.value] + (s.cur.value + e + ConcatReversed(s.enums));
    }
  }

  /** Building loads nothing but the lookahead. */
  lemma {:induction false} BuildUnstarted<T(!new)>(es: seq<seq<T>>)
    ensures Unstarted(Build(es))
    decreases |es|
  {
    if |es| > 0 {
      BuildUnstarted(es[..|es| - 1]);
    }
  }

  /** The stream of a built iterator holds the elements of every
      enumeration and nothing else. */
  lemma {:induction false} BuildContents<T(!new)>(es: seq<seq<T>>)
    ensures forall x :: x in Stream(Build(es)) <==> exists i :: 0 <= i < |es| && x in es[i]
    decreases |es|
  {
    if |es| > 0 {
      var init := es[..|es| - 1];
      var e := es[|es| - 1];
      BuildContents(init);
      AddToStream(Build(init), e);
      forall x
        ensures x in Stream(Build(es)) <==> exists i :: 0 <= i < |es| && x in es[i]
      {
        if x in e {
          assert x in es[|es| - 1];
        }
        if exists i :: 0 <= i < |init| && x in init[i] {
          var i :| 0 <= i < |init| && x in init[i];
          assert x in es[i];
        }
        if exists i :: 0 <= i < |es| && x in es[i] {
          var i :| 0 <= i < |es| && x in es[i];
          if i < |init| {
            assert x in init[i];
          }
        }
      }
    }
  }

  lemma UnstartedYield<T(!new)>(s: State<T>)
    requires Unstarted(s)
    ensures Yield(s) == Fresh(Stream(s), {})
  {
    if s.next.Some? {
      var n := s.next.value;
      var xs := Stream(s);
      assert xs[0] == n && xs[1..] == Pending(s);
      assert {} + {n} == s.loaded;
    }
  }

  /** When every enumeration is added before iteration starts, no element is
      produced twice, and every element of every enumeration is produced. */
  lemma AddedFirstNoDuplicates<T(!new)>(es: seq<seq<T>>)
    ensures NoDuplicates(Drain(Build(es)))
    ensures forall x :: x in Drain(Build(es)) <==> exists i :: 0 <= i < |es| && x in es[i]
  {
    BuildUnstarted(es);
    BuildContents(es);
    UnstartedYield(Build(es));
    YieldNoDuplicates(Build(es));
  }

  /** `addEnumeration` skips the duplicate check when there is no current
      enumeration: once an iterator over `[1]` is exhausted, adding `[1]`
      again produces `1` a second time. */
  lemma ReaddAfterExhaustion()
    ensures var s1 := Build([[1]]);
      && Next(s1).Ok? && Next(s1).value.1 == 1
      && !HasNext(Next(s1).value.0)
      && Next(AddEnumeration(Next(s1).value.0, [1])).Ok?
      && Next(AddEnumeration(Next(s1).value.0, [1])).value.1 == 1
  {
    var s1 := Build([[1]]);
    assert [[1]][..0] == [];
    assert [1][1..] == [];
    assert s1 == State(Some([]), [], {} + {1}, Some(1));
  }

  /** Enumerations queued behind the current one are read last-in first-out:
      single-element enumerations `[a]`, `[b]`, `[c]` are read as `a, c, b`. */
  lemma QueueIsLastInFirstOut<T(!new)>(a: T, b: T, c: T)
    requires a != b && b != c && a != c
    ensures Drain(Build([[a], [b], [c]])) == [a, c, b]
  {
    BuildThree(a, b, c);
    FreshPair(c, b, {a});
  }

  lemma FreshPair<T(!new)>(x: T, y: T, seen: set<T>)
    requires x != y && x !in seen && y !in seen
    ensures Fresh([x, y], seen) == [x, y]
  {
    assert [x, y][1..] == [y];
    assert [y][1..] == [];
    assert Fresh([y], seen + {x}) == [y] + Fresh([], seen + {x} + {y});
  }

  lemma BuildThree<T(!new)>(a: T, b: T, c: T)
    ensures Build([[a], [b], [c]]) == State(Some([]), [[b], [c]], {a}, Some(a))
    ensures Pending(Build([[a], [b], [c]])) == [c, b]
  {
    var es := [[a], [b], [c]];
    assert es[..2] == [[a], [b]];
    assert es[..2][..1] == [[a]];
    assert [[a]][..0] == [];
    assert [a][1..] == [];
    assert Build([[a]]) == State(Some([]), [], {} + {a}, Some(a));
    assert Build([[a], [b]]) == State(Some([]), [[b]], {a}, Some(a));
    assert [[b], [c]][..1] == [[b]];
    assert [[b]][..0] == [];
  }
}
