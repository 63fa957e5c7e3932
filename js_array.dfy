/**
 * `xs.filter(keep).map(f)`, the array pipeline both booked-slot extractors
 * use, as one function on sequences, with the facts that pin it down: it
 * keeps exactly the elements `keep` accepts, one output per kept element, in
 * their original order.
 */
module JsArray {

  function FilterMap<T, U>(xs: seq<T>, keep: T -> bool, f: T -> U): (r: seq<U>)
    ensures |r| <= |xs|
    ensures forall y :: y in r ==> exists x :: x in xs && keep(x) && y == f(x)
    ensures forall x :: x in xs && keep(x) ==> f(x) in r
  {
    if xs == [] then []
    else
      assert forall x :: x in xs[1..] ==> x in xs;
      assert xs == [xs[0]] + xs[1..];
      (if keep(xs[0]) then [f(xs[0])] else []) + FilterMap(xs[1..], keep, f)
  }

  /** The number of elements `keep` accepts. */
  function Count<T>(xs: seq<T>, keep: T -> bool): nat {
    if xs == [] then 0 else (if keep(xs[0]) then 1 else 0) + Count(xs[1..], keep)
  }

  /** One output per kept element. */
  lemma {:induction false} FilterMapLength<T, U>(xs: seq<T>, keep: T -> bool, f: T -> U)
    ensures |FilterMap(xs, keep, f)| == Count(xs, keep)
  {
    if xs != [] {
      FilterMapLength(xs[1..], keep, f);
    }
  }

  /** Filtering and mapping a concatenation works piece by piece, so order is kept. */
  lemma {:induction false} FilterMapAppend<T, U>(xs: seq<T>, ys: seq<T>, keep: T -> bool, f: T -> U)
    ensures FilterMap(xs + ys, keep, f) == FilterMap(xs, keep, f) + FilterMap(ys, keep, f)
  {
    if xs == [] {
      assert xs + ys == ys;
    } else {
      assert (xs + ys)[1..] == xs[1..] + ys;
      FilterMapAppend(xs[1..], ys, keep, f);
    }
  }

  /** A single element gives its image when kept and nothing otherwise. */
  lemma FilterMapSingle<T, U>(x: T, keep: T -> bool, f: T -> U)
    ensures FilterMap([x], keep, f) == if keep(x) then [f(x)] else []
  {
    assert [x][1..] == [];
  }

  /** Nothing comes out when nothing is kept. */
  lemma {:induction false} FilterMapNoneKept<T, U>(xs: seq<T>, keep: T -> bool, f: T -> U)
    requires forall x :: x in xs ==> !keep(x)
    ensures FilterMap(xs, keep, f) == []
  {
    if xs != [] {
      assert xs[0] in xs;
      assert forall x :: x in xs[1..] ==> x in xs;
      FilterMapNoneKept(xs[1..], keep, f);
    }
  }
}
