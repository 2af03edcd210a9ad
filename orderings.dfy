/**
 * The three-way ordering used throughout the crate, the optional ordering
 * returned by a partial comparison (`None` = the two values are not
 * comparable), and `Ordering::reverse`.
 */
module Orderings {

  datatype Ordering = Less | Equal | Greater

  datatype Option<+T> = None | Some(value: T)

  /** Position of an ordering in `Less < Equal < Greater` (the derived `Ord` of `Ordering`). */
  function Rank(o: Ordering): nat
  {
    match o
    case Less => 0
    case Equal => 1
    case Greater => 2
  }

  /** `Ordering::reverse`: swaps `Less` and `Greater`. */
  function Flip(o: Ordering): (r: Ordering)
    ensures Rank(r) == 2 - Rank(o)
  {
    match o
    case Less => Greater
    case Equal => Equal
    case Greater => Less
  }

  /** `Option::map(Ordering::reverse)`: flips an outcome and keeps `None`. */
  function FlipOpt(o: Option<Ordering>): (r: Option<Ordering>)
    ensures r.None? <==> o.None?
    ensures o.Some? ==> r == Some(Flip(o.value))
  {
    match o
    case None => None
    case Some(v) => Some(Flip(v))
  }

  /** Flipping twice gives back the original outcome. */
  lemma FlipOptInvolutive(o: Option<Ordering>)
    ensures FlipOpt(FlipOpt(o)) == o
  {
  }

  /** Flips every per-position outcome of a comparison. */
  function FlipAll(cs: seq<Option<Ordering>>): (r: seq<Option<Ordering>>)
    ensures |r| == |cs|
    ensures forall i :: 0 <= i < |cs| ==> r[i] == FlipOpt(cs[i])
  {
    seq(|cs|, i requires 0 <= i < |cs| => FlipOpt(cs[i]))
  }

  /** A partial comparison is antisymmetric when swapping its arguments flips its outcome. */
  ghost predicate Antisymmetric<T(!new)>(cmp: (T, T) -> Option<Ordering>)
  {
    forall x, y :: cmp(y, x) == FlipOpt(cmp(x, y))
  }
}
