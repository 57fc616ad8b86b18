/**
 * pandas' `fillna(method="ffill", inplace=True)` on one column: every missing
 * cell takes the value of the nearest earlier present cell; a missing cell
 * with no present cell above it stays missing.
 */
module Frames {
  import opened Wrappers

  /** The value of cell `i` after a forward fill of `col`. */
  function FilledAt<T>(col: seq<Option<T>>, i: nat): Option<T>
    requires i < |col|
  {
    if col[i].Some? || i == 0 then col[i] else FilledAt(col, i - 1)
  }

  /** The whole column after a forward fill. */
  function ForwardFilled<T>(col: seq<Option<T>>): (r: seq<Option<T>>)
    ensures |r| == |col|
    ensures forall i | 0 <= i < |col| && col[i].Some? :: r[i] == col[i]
  {
    seq(|col|, i requires 0 <= i < |col| => FilledAt(col, i))
  }

  /** A filled cell is missing exactly when every cell up to it was missing. */
  lemma {:induction false} FilledAtMissing<T>(col: seq<Option<T>>, i: nat)
    requires i < |col|
    ensures FilledAt(col, i).None? <==> forall k | 0 <= k <= i :: col[k].None?
  {
    if col[i].None? && i > 0 {
      FilledAtMissing(col, i - 1);
    }
  }

  /** A filled cell holds the value of the nearest present cell at or above it. */
  lemma {:induction false} FilledAtNearest<T>(col: seq<Option<T>>, i: nat)
    requires i < |col| && FilledAt(col, i).Some?
    ensures exists j | 0 <= j <= i :: col[j] == FilledAt(col, i) && forall k | j < k <= i :: col[k].None?
  {
    if col[i].None? {
      FilledAtNearest(col, i - 1);
      var j :| 0 <= j <= i - 1 && col[j] == FilledAt(col, i - 1) && forall k | j < k <= i - 1 :: col[k].None?;
      assert forall k | j < k <= i :: col[k].None?;
    }
  }

  /** Cell `i` after the fill depends only on the cells up to `i`. */
  lemma {:induction false} FilledAtPrefix<T>(col: seq<Option<T>>, n: nat, i: nat)
    requires i < n <= |col|
    ensures FilledAt(col[..n], i) == FilledAt(col, i)
  {
    if col[i].None? && i > 0 {
      FilledAtPrefix(col, n, i - 1);
    }
  }

  /** Filling an already filled column changes nothing. */
  lemma ForwardFilledIdempotent<T>(col: seq<Option<T>>)
    ensures ForwardFilled(ForwardFilled(col)) == ForwardFilled(col)
  {
    var once := ForwardFilled(col);
    forall i | 0 <= i < |col| ensures FilledAt(once, i) == once[i] {
      if once[i].None? && i > 0 {
        FilledAtMissing(col, i);
        FilledAtMissing(col, i - 1);
        FilledAtMissing(once, i);
        forall k | 0 <= k <= i ensures once[k].None? {
          FilledAtMissing(col, k);
        }
      }
    }
  }

  /** The in-place fill of an array column, row by row from the top. */
  method ForwardFill<T>(a: array<Option<T>>)
    modifies a
    ensures a[..] == ForwardFilled(old(a[..]))
  {
    ghost var col := a[..];
    for i := 0 to a.Length
      invariant forall k | 0 <= k < i :: a[k] == FilledAt(col, k)
      invariant forall k | i <= k < a.Length :: a[k] == col[k]
    {
      if a[i].None? && i > 0 {
        a[i] := a[i - 1];
      }
    }
  }

  /** Each present cell of `col` passed through `f`; missing cells stay missing. */
  function MapPresent<A, B>(col: seq<Option<A>>, f: A -> B): (r: seq<Option<B>>)
    ensures |r| == |col|
  {
    seq(|col|, i requires 0 <= i < |col| => if col[i].None? then None else Some(f(col[i].value)))
  }

  /** Forward filling commutes with changing the present values: fill-then-map is map-then-fill. */
  lemma {:induction false} FilledAtMapPresent<A, B>(col: seq<Option<A>>, f: A -> B, i: nat)
    requires i < |col|
    ensures FilledAt(MapPresent(col, f), i) == if FilledAt(col, i).None? then None else Some(f(FilledAt(col, i).value))
  {
    if col[i].None? && i > 0 {
      FilledAtMapPresent(col, f, i - 1);
    }
  }
}
