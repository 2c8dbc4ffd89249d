/** Optional values and results with an error, standing for Python's `None` and raised exceptions. */
module Wrappers {

  datatype Option<+T> = None | Some(value: T) {
    /** The value as a list of at most one element. */
    function ToSeq(): (r: seq<T>)
      ensures None? <==> r == []
      ensures Some? ==> r == [value]
    {
      if None? then [] else [value]
    }
  }

  /** A value, or the exception that replaced it; `:-` propagates the exception. */
  datatype Result<+T, +E> = Ok(value: T) | Err(error: E) {
    predicate IsFailure() {
      Err?
    }

    function PropagateFailure<U>(): Result<U, E>
      requires Err?
    {
      Err(error)
    }

    function Extract(): T
      requires Ok?
    {
      value
    }
  }

  /**
   * The values `f` gives for the elements of `xs` it maps to `Some`, in order:
   * a loop that appends the result of each element that yields one.
   */
  function FilterMap<T, U>(xs: seq<T>, f: T -> Option<U>): (r: seq<U>)
    ensures |r| <= |xs|
  {
    if xs == [] then [] else f(xs[0]).ToSeq() + FilterMap(xs[1..], f)
  }

  /** One more element processed: its value, if any, comes before those of the rest. */
  lemma FilterMapStep<T, U>(xs: seq<T>, f: T -> Option<U>, k: nat)
    requires k < |xs|
    ensures FilterMap(xs[k..], f) == f(xs[k]).ToSeq() + FilterMap(xs[k + 1..], f)
  {
    assert xs[k..][0] == xs[k] && xs[k..][1..] == xs[k + 1..];
  }

  /** A single element yields its own value, if any. */
  lemma FilterMapOne<T, U>(x: T, f: T -> Option<U>)
    ensures FilterMap([x], f) == f(x).ToSeq()
  {
    assert [x][1..] == [];
  }

  /** The elements are handled one at a time, with nothing merged or reordered. */
  lemma {:induction false} FilterMapAppend<T, U>(a: seq<T>, b: seq<T>, f: T -> Option<U>)
    ensures FilterMap(a + b, f) == FilterMap(a, f) + FilterMap(b, f)
  {
    if a == [] {
      assert a + b == b;
    } else {
      assert (a + b)[0] == a[0];
      assert (a + b)[1..] == a[1..] + b;
      FilterMapAppend(a[1..], b, f);
      var here := f(a[0]).ToSeq();
      assert here + (FilterMap(a[1..], f) + FilterMap(b, f)) == (here + FilterMap(a[1..], f)) + FilterMap(b, f);
    }
  }

  /** Every value kept is the value `f` gives for some element. */
  lemma {:induction false} FilterMapFrom<T, U>(xs: seq<T>, f: T -> Option<U>)
    ensures forall u :: u in FilterMap(xs, f) ==> exists k :: 0 <= k < |xs| && f(xs[k]) == Some(u)
  {
    if xs != [] {
      FilterMapFrom(xs[1..], f);
      forall u | u in FilterMap(xs, f)
        ensures exists k :: 0 <= k < |xs| && f(xs[k]) == Some(u)
      {
        if u in FilterMap(xs[1..], f) {
          var k :| 0 <= k < |xs[1..]| && f(xs[1..][k]) == Some(u);
          assert xs[k + 1] == xs[1..][k];
        } else {
          assert f(xs[0]) == Some(u);
        }
      }
    }
  }

  /** A prefix one element longer. */
  lemma TakeOneMore<T>(xs: seq<T>, k: nat)
    requires k < |xs|
    ensures xs[..k + 1] == xs[..k] + [xs[k]]
  {
  }

  /** The values of `f` on the elements, one after another. */
  function FlatMap<T, U>(xs: seq<T>, f: T -> seq<U>): seq<U> {
    if xs == [] then [] else f(xs[0]) + FlatMap(xs[1..], f)
  }

  lemma FlatMapOne<T, U>(x: T, f: T -> seq<U>)
    ensures FlatMap([x], f) == f(x)
  {
    assert [x][1..] == [];
  }

  lemma {:induction false} FlatMapAppend<T, U>(a: seq<T>, b: seq<T>, f: T -> seq<U>)
    ensures FlatMap(a + b, f) == FlatMap(a, f) + FlatMap(b, f)
  {
    if a == [] {
      assert a + b == b;
    } else {
      assert (a + b)[1..] == a[1..] + b;
      FlatMapAppend(a[1..], b, f);
    }
  }

  /** A loop that applies `f` to every element in order and collects the values. */
  method MapEach<T, U>(xs: seq<T>, f: T --> U) returns (r: seq<U>)
    requires forall k :: 0 <= k < |xs| ==> f.requires(xs[k])
    ensures |r| == |xs|
    ensures forall k :: 0 <= k < |xs| ==> r[k] == f(xs[k])
  {
    r := [];
    for k := 0 to |xs|
      invariant |r| == k
      invariant forall j :: 0 <= j < k ==> r[j] == f(xs[j])
    {
      r := r + [f(xs[k])];
    }
  }

  /** The first index `j` with `i <= j < n` for which `p` holds: a search from the left. */
  function FirstFrom(i: nat, n: nat, p: nat -> bool): (r: Option<nat>)
    ensures r.Some? ==> i <= r.value < n && p(r.value)
    decreases n - i
  {
    if i >= n then None
    else if p(i) then Some(i)
    else FirstFrom(i + 1, n, p)
  }

  /** The search stops at the first index that satisfies `p`. */
  lemma {:induction false} FirstFromAt(i: nat, n: nat, p: nat -> bool, j: nat)
    requires i <= j < n && p(j)
    requires forall k :: i <= k < j ==> !p(k)
    ensures FirstFrom(i, n, p) == Some(j)
    decreases j - i
  {
    if i < j {
      FirstFromAt(i + 1, n, p, j);
    }
  }

  /** The search finds nothing exactly when no index from `i` to `n` satisfies `p`. */
  lemma {:induction false} FirstFromNone(i: nat, n: nat, p: nat -> bool)
    ensures FirstFrom(i, n, p).None? <==> forall k :: i <= k < n ==> !p(k)
    decreases n - i
  {
    if i < n && !p(i) {
      FirstFromNone(i + 1, n, p);
    }
  }
}
