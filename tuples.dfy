/**
 * Pareto dominance over fixed-shape tuples (src/tuples.rs).
 *
 * The source builds tuples as nested pairs `(H, (H2, (... , ())))` and
 * recurses over them with traits. Here a tuple is the sequence of its
 * components, head first; a component comparison is a function `cmp`
 * returning `None` when the two components are not comparable (a NaN).
 * Under minimisation `Some(Less)` means "the first tuple dominates".
 */
module Tuples {
  import opened Orderings

  /** `TupleLen::LEN`: `()` has length 0 and `(H, T)` has length `T::LEN + 1`. */
  function TupleLen<X>(t: seq<X>): (len: nat)
    ensures len == |t|
  {
    if |t| == 0 then 0 else TupleLen(t[1..]) + 1
  }

  /**
   * `TuplePartialOrd::partial_cmp_many`: the tuple of per-position partial
   * comparisons. Both tuples have the same shape (the type system demands it).
   */
  function PartialCmpMany<X>(a: seq<X>, b: seq<X>, cmp: (X, X) -> Option<Ordering>): (r: seq<Option<Ordering>>)
    requires |a| == |b|
    ensures |r| == |a|
    ensures forall i :: 0 <= i < |a| ==> r[i] == cmp(a[i], b[i])
  {
    if |a| == 0 then [] else [cmp(a[0], b[0])] + PartialCmpMany(a[1..], b[1..], cmp)
  }

  /**
   * `TupleFold::fold`: `()` returns the accumulator; `(H, T)` applies the
   * reducer to the accumulator and the head, then folds the tail.
   */
  function Fold<A, X>(xs: seq<X>, f: (A, X) -> A, acc: A): A
  {
    if |xs| == 0 then acc else Fold(xs[1..], f, f(acc, xs[0]))
  }

  /** `TupleReduce::reduce`: the head is the initial accumulator for folding the tail. */
  function Reduce<X>(xs: seq<X>, f: (X, X) -> X): X
    requires |xs| > 0
  {
    Fold(xs[1..], f, xs[0])
  }

  /** Folding a concatenation folds the first part and carries its result into the second. */
  lemma {:induction false} FoldAppend<A, X>(xs: seq<X>, ys: seq<X>, f: (A, X) -> A, acc: A)
    ensures Fold(xs + ys, f, acc) == Fold(ys, f, Fold(xs, f, acc))
  {
    if |xs| == 0 {
      assert xs + ys == ys;
    } else {
      assert (xs + ys)[1..] == xs[1..] + ys;
      FoldAppend(xs[1..], ys, f, f(acc, xs[0]));
    }
  }

  /** Reducing a tuple extended by one component applies the reducer once more, at the end. */
  lemma ReduceSnoc<X>(xs: seq<X>, y: X, f: (X, X) -> X)
    requires |xs| > 0
    ensures Reduce(xs + [y], f) == f(Reduce(xs, f), y)
  {
    assert (xs + [y])[1..] == xs[1..] + [y];
    FoldAppend(xs[1..], [y], f, xs[0]);
  }

  /** `ControlFlow<(), Ordering>`: the accumulator of the dominance fold. */
  datatype Flow = Continue(acc: Ordering) | Break

  /** `ControlFlow::continue_value`: a `Break` becomes `None`. */
  function ContinueValue(f: Flow): (r: Option<Ordering>)
    ensures r.None? <==> f.Break?
    ensures f.Continue? ==> r == Some(f.acc)
  {
    match f
    case Continue(o) => Some(o)
    case Break => None
  }

  /** Two directions that contradict each other: one favours the first tuple, the other the second. */
  predicate Conflict(a: Ordering, b: Ordering)
  {
    (a == Less && b == Greater) || (a == Greater && b == Less)
  }

  /**
   * `DomReducer::apply`: one position of the dominance fold. An incomparable
   * position leaves the accumulator alone; otherwise the two orderings are
   * sorted (`v2 < v1` swaps them) and `(Less, Greater)` breaks, `Less` with
   * `Less`/`Equal` gives `Less`, `Equal` with `Equal` gives `Equal`, and
   * `Greater` with `Equal`/`Greater` gives `Greater`. A `Break` stays `Break`.
   */
  function DomStep(v1: Flow, v2: Option<Ordering>): (r: Flow)
    ensures v1.Break? ==> r == Break
    ensures v2.None? ==> r == v1
    ensures v1.Continue? && v2.Some? ==> (r == Break <==> Conflict(v1.acc, v2.value))
    ensures v1.Continue? && v2.Some? && !Conflict(v1.acc, v2.value) ==>
              r == Continue(if v1.acc == Equal then v2.value else v1.acc)
  {
    match v1
    case Break => Break
    case Continue(a) =>
      match v2
      case None => Continue(a)
      case Some(b) =>
        var (lo, hi) := if Rank(b) < Rank(a) then (b, a) else (a, b);
        match (lo, hi)
        case (Less, Greater) => Break
        case (Less, _) => Continue(Less)
        case (Equal, Equal) => Continue(Equal)
        case (_, Greater) => Continue(Greater)
        case _ => assert false; Continue(Equal)
  }

  /** A `Break` accumulator is never left again: every later position keeps it. */
  lemma {:induction false} BreakAbsorbs(cs: seq<Option<Ordering>>)
    ensures Fold(cs, DomStep, Break) == Break
  {
    if |cs| > 0 {
      BreakAbsorbs(cs[1..]);
    }
  }

  /**
   * Reference definition of Pareto dominance over per-position outcomes:
   * incomparable when some position favours each side, `Less` (the first
   * dominates) when some position is `Less` and none is `Greater`,
   * symmetrically `Greater`, and `Equal` otherwise.
   */
  function ParetoOutcome(cs: seq<Option<Ordering>>): Option<Ordering>
  {
    var less, greater := Some(Less) in cs, Some(Greater) in cs;
    if less && greater then None
    else if less then Some(Less)
    else if greater then Some(Greater)
    else Some(Equal)
  }

  /** The dominance fold over the per-position outcomes, started from `Continue(Equal)`, then `continue_value`. */
  function Outcome(cs: seq<Option<Ordering>>): (r: Option<Ordering>)
    ensures r == None <==> Some(Less) in cs && Some(Greater) in cs
  {
    FoldFromAccumulator(cs, Equal);
    assert Some(Less) in [Some(Equal)] + cs <==> Some(Less) in cs;
    assert Some(Greater) in [Some(Equal)] + cs <==> Some(Greater) in cs;
    ContinueValue(Fold(cs, DomStep, Continue(Equal)))
  }

  /** Folding from an accumulator `a` behaves as if `a` were one more position in front. */
  lemma {:induction false} FoldFromAccumulator(cs: seq<Option<Ordering>>, a: Ordering)
    ensures ContinueValue(Fold(cs, DomStep, Continue(a))) == ParetoOutcome([Some(a)] + cs)
  {
    if |cs| == 0 {
      assert [Some(a)] + cs == [Some(a)];
    } else {
      var c, rest := cs[0], cs[1..];
      assert cs == [c] + rest;
      var all := [Some(a)] + cs;
      assert all == [Some(a), c] + rest;
      var next := DomStep(Continue(a), c);
      if next == Break {
        BreakAbsorbs(rest);
        assert Some(Less) in all && Some(Greater) in all;
      } else {
        var j := next.acc;
        FoldFromAccumulator(rest, j);
        var shorter := [Some(j)] + rest;
        assert Some(Less) in all <==> Some(Less) in shorter;
        assert Some(Greater) in all <==> Some(Greater) in shorter;
      }
    }
  }

  /** The fold computes exactly the reference Pareto outcome. */
  lemma OutcomeIsPareto(cs: seq<Option<Ordering>>)
    ensures Outcome(cs) == ParetoOutcome(cs)
  {
    FoldFromAccumulator(cs, Equal);
    var all := [Some(Equal)] + cs;
    assert Some(Less) in all <==> Some(Less) in cs;
    assert Some(Greater) in all <==> Some(Greater) in cs;
  }

  /**
   * Complete characterisation of the dominance fold: `None` iff some position
   * is `Less` and another `Greater`; `Some(Less)` iff some position is
   * `Less` and none `Greater`; `Some(Greater)` symmetrically; `Some(Equal)`
   * otherwise (the empty tuple and all-`None` tuples included).
   */
  lemma OutcomeCharacterised(cs: seq<Option<Ordering>>)
    ensures Outcome(cs) == None <==> Some(Less) in cs && Some(Greater) in cs
    ensures Outcome(cs) == Some(Less) <==> Some(Less) in cs && Some(Greater) !in cs
    ensures Outcome(cs) == Some(Greater) <==> Some(Greater) in cs && Some(Less) !in cs
    ensures Outcome(cs) == Some(Equal) <==> Some(Less) !in cs && Some(Greater) !in cs
  {
    OutcomeIsPareto(cs);
  }

  /** Flipping every position flips the outcome of the fold. */
  lemma OutcomeFlip(cs: seq<Option<Ordering>>)
    ensures Outcome(FlipAll(cs)) == FlipOpt(Outcome(cs))
  {
    var fs := FlipAll(cs);
    assert Some(Less) in fs <==> Some(Greater) in cs by {
      if Some(Less) in fs {
        var i :| 0 <= i < |fs| && fs[i] == Some(Less);
        assert cs[i] == Some(Greater);
      }
      if Some(Greater) in cs {
        var i :| 0 <= i < |cs| && cs[i] == Some(Greater);
        assert fs[i] == Some(Less);
      }
    }
    assert Some(Greater) in fs <==> Some(Less) in cs by {
      if Some(Greater) in fs {
        var i :| 0 <= i < |fs| && fs[i] == Some(Greater);
        assert cs[i] == Some(Less);
      }
      if Some(Less) in cs {
        var i :| 0 <= i < |cs| && cs[i] == Some(Less);
        assert fs[i] == Some(Greater);
      }
    }
    OutcomeIsPareto(cs);
    OutcomeIsPareto(fs);
  }

  /** Some position of the two tuples compares as `o`. */
  ghost predicate SomePosition<X>(a: seq<X>, b: seq<X>, cmp: (X, X) -> Option<Ordering>, o: Ordering)
    requires |a| == |b|
  {
    exists i :: 0 <= i < |a| && cmp(a[i], b[i]) == Some(o)
  }

  /**
   * `Dom::dominates` for tuples: `()` against `()` is `Some(Equal)`; a
   * non-empty tuple folds its per-position comparisons with `DomReducer`
   * from `Continue(Equal)` and turns a `Break` into `None`.
   */
  function TupleDominates<X>(a: seq<X>, b: seq<X>, cmp: (X, X) -> Option<Ordering>): (r: Option<Ordering>)
    requires |a| == |b|
    ensures r == None <==> SomePosition(a, b, cmp, Less) && SomePosition(a, b, cmp, Greater)
    ensures r == Some(Less) <==> SomePosition(a, b, cmp, Less) && !SomePosition(a, b, cmp, Greater)
    ensures r == Some(Greater) <==> SomePosition(a, b, cmp, Greater) && !SomePosition(a, b, cmp, Less)
    ensures r == Some(Equal) <==> !SomePosition(a, b, cmp, Less) && !SomePosition(a, b, cmp, Greater)
  {
    var cs := PartialCmpMany(a, b, cmp);
    OutcomeCharacterised(cs);
    assert forall o :: Some(o) in cs <==> SomePosition(a, b, cmp, o) by {
      forall o ensures Some(o) in cs <==> SomePosition(a, b, cmp, o) {
        if Some(o) in cs {
          var i :| 0 <= i < |cs| && cs[i] == Some(o);
          assert cmp(a[i], b[i]) == Some(o);
        }
      }
    }
    if |a| == 0 then Some(Equal) else Outcome(cs)
  }

  /** Tuple dominance is the reference Pareto outcome of the per-position comparisons. */
  lemma TupleDominatesPareto<X>(a: seq<X>, b: seq<X>, cmp: (X, X) -> Option<Ordering>)
    requires |a| == |b|
    ensures TupleDominates(a, b, cmp) == ParetoOutcome(PartialCmpMany(a, b, cmp))
  {
    OutcomeIsPareto(PartialCmpMany(a, b, cmp));
  }

  /**
   * Swapping the two tuples flips the outcome (`Less` and `Greater`
   * exchange, `Equal` and `None` stay), provided every per-position
   * comparison flips when its arguments are swapped.
   */
  lemma TupleDominatesSwap<X>(a: seq<X>, b: seq<X>, cmp: (X, X) -> Option<Ordering>)
    requires |a| == |b|
    requires forall i :: 0 <= i < |a| ==> cmp(b[i], a[i]) == FlipOpt(cmp(a[i], b[i]))
    ensures TupleDominates(b, a, cmp) == FlipOpt(TupleDominates(a, b, cmp))
  {
    var cs, sc := PartialCmpMany(a, b, cmp), PartialCmpMany(b, a, cmp);
    assert sc == FlipAll(cs);
    OutcomeFlip(cs);
  }

  /** A tuple compared with itself is `Equal` when no component is strictly ordered against itself. */
  lemma TupleDominatesSelf<X>(a: seq<X>, cmp: (X, X) -> Option<Ordering>)
    requires forall i :: 0 <= i < |a| ==> cmp(a[i], a[i]) != Some(Less) && cmp(a[i], a[i]) != Some(Greater)
    ensures TupleDominates(a, a, cmp) == Some(Equal)
  {
  }

  /** `Reverse<T>`: the dominance-inverting wrapper. */
  datatype Reverse<T> = Reverse(inner: T)

  /** `Dom` for `Reverse<T>`: the inner outcome mapped through `Ordering::reverse`. */
  function ReverseDominates<T>(dom: (T, T) -> Option<Ordering>, x: Reverse<T>, y: Reverse<T>): (r: Option<Ordering>)
    ensures r == None <==> dom(x.inner, y.inner) == None
    ensures r == Some(Less) <==> dom(x.inner, y.inner) == Some(Greater)
    ensures r == Some(Greater) <==> dom(x.inner, y.inner) == Some(Less)
    ensures r == Some(Equal) <==> dom(x.inner, y.inner) == Some(Equal)
  {
    FlipOpt(dom(x.inner, y.inner))
  }

  /** Reversing twice gives back the inner outcome. */
  lemma ReverseTwice<T>(dom: (T, T) -> Option<Ordering>, x: T, y: T)
    ensures ReverseDominates((u: Reverse<T>, v: Reverse<T>) => ReverseDominates(dom, u, v),
                             Reverse(Reverse(x)), Reverse(Reverse(y))) == dom(x, y)
  {
  }

  /** `DominationOrd<T>`: exposes dominance through `PartialEq`/`PartialOrd`. */
  datatype DominationOrd<T> = DominationOrd(inner: T)

  /** `PartialEq::eq` for `DominationOrd`: `dominates(..).map_or(false, Ordering::is_eq)`. */
  function OrdEq<T>(dom: (T, T) -> Option<Ordering>, x: DominationOrd<T>, y: DominationOrd<T>): (r: bool)
    ensures r <==> dom(x.inner, y.inner) == Some(Equal)
  {
    match dom(x.inner, y.inner)
    case Some(o) => o == Equal
    case None => false
  }

  /** `PartialOrd::partial_cmp` for `DominationOrd`: the dominance outcome itself. */
  function OrdPartialCmp<T>(dom: (T, T) -> Option<Ordering>, x: DominationOrd<T>, y: DominationOrd<T>): (r: Option<Ordering>)
    ensures r == Some(Equal) <==> OrdEq(dom, x, y)
  {
    dom(x.inner, y.inner)
  }

  /**
   * The two adapter operations agree as `PartialOrd` requires (`a == b` iff
   * `partial_cmp` is `Some(Equal)`), and incomparable values are neither
   * equal nor ordered: `partial_cmp` gives `None`, not a forced tie.
   */
  lemma OrdConsistent<T>(dom: (T, T) -> Option<Ordering>, x: DominationOrd<T>, y: DominationOrd<T>)
    ensures OrdEq(dom, x, y) <==> OrdPartialCmp(dom, x, y) == Some(Equal)
    ensures dom(x.inner, y.inner) == None ==> !OrdEq(dom, x, y) && OrdPartialCmp(dom, x, y) == None
    ensures OrdPartialCmp(dom, x, y) == Some(Less) <==> dom(x.inner, y.inner) == Some(Less)
  {
  }
}
