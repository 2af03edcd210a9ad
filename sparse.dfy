/**
 * Pareto dominance over sparse, key-ordered objective maps
 * (`Dom for BTreeMap<K, V>` in src/tuples.rs).
 *
 * A map is the sequence of its entries in iteration order, `(key, value)`
 * with strictly increasing keys (`IsMap`); keys are integers and values are
 * compared by a partial comparison `cmp`. The source walks both maps with
 * two iterators and two flags, `first_greater` and `second_greater`.
 */
module SparseDom {
  import opened Orderings
  import opened Tuples

  /** The entries of a `BTreeMap` in iteration order: keys strictly increase. */
  predicate IsMap<V>(m: seq<(int, V)>)
  {
    forall i, j :: 0 <= i < j < |m| ==> m[i].0 < m[j].0
  }

  predicate HasKey<V>(m: seq<(int, V)>, k: int)
  {
    exists i :: 0 <= i < |m| && m[i].0 == k
  }

  /**
   * The merge-join as the source runs it, from a state where what is left
   * is `xs` and `ys` and the flags are `firstGreater` and `secondGreater`.
   */
  function Walk<V>(xs: seq<(int, V)>, ys: seq<(int, V)>, cmp: (V, V) -> Option<Ordering>,
                   firstGreater: bool, secondGreater: bool): (r: Option<Ordering>)
    ensures firstGreater ==> r != Some(Less) && r != Some(Equal)
    ensures secondGreater && !firstGreater ==> r != Some(Greater)
    ensures r == Some(Greater) ==> firstGreater || |xs| > 0
    ensures r == Some(Less) ==> secondGreater || |ys| > 0
    decreases |xs| + |ys|
  {
    if |xs| == 0 then
      if |ys| > 0 then
        (if firstGreater then None else Some(Less))
      else if firstGreater then Some(Greater)
      else Some(Equal)
    else if |ys| == 0 then
      (if secondGreater then None else Some(Greater))
    else
      var first, second := xs[0], ys[0];
      if first.0 < second.0 then
        if secondGreater then None else Walk(xs[1..], ys, cmp, true, secondGreater)
      else if first.0 == second.0 then
        match cmp(first.1, second.1)
        case Some(Greater) =>
          if secondGreater then None else Walk(xs[1..], ys[1..], cmp, true, secondGreater)
        case Some(Less) =>
          if firstGreater then None else Walk(xs[1..], ys[1..], cmp, firstGreater, true)
        case None => None
        case Some(Equal) => Walk(xs[1..], ys[1..], cmp, firstGreater, secondGreater)
      else
        if firstGreater then None else Walk(xs, ys[1..], cmp, firstGreater, true)
  }

  /** `Dom::dominates` for maps: the walk from both flags cleared. */
  function MapDominates<V>(xs: seq<(int, V)>, ys: seq<(int, V)>, cmp: (V, V) -> Option<Ordering>): (r: Option<Ordering>)
    ensures r == Some(Greater) ==> |xs| > 0
    ensures r == Some(Less) ==> |ys| > 0
  {
    Walk(xs, ys, cmp, false, false)
  }

  /**
   * The source's loop: `first` runs over `xs` (index `i`), `maybe_second`
   * is `ys[j]` while `j < |ys|`; returns early with `None` on a conflict.
   */
  method MapDominatesLoop<V>(xs: seq<(int, V)>, ys: seq<(int, V)>, cmp: (V, V) -> Option<Ordering>)
    returns (r: Option<Ordering>)
    ensures r == MapDominates(xs, ys, cmp)
  {
    var i, j := 0, 0;
    var firstGreater, secondGreater := false, false;
    while i < |xs|
      invariant 0 <= i <= |xs| && 0 <= j <= |ys|
      invariant Walk(xs[i..], ys[j..], cmp, firstGreater, secondGreater) == MapDominates(xs, ys, cmp)
    {
      var first := xs[i];
      i := i + 1;
      while true
        invariant 0 <= j <= |ys|
        invariant Walk(xs[i - 1..], ys[j..], cmp, firstGreater, secondGreater) == MapDominates(xs, ys, cmp)
        decreases |ys| - j
      {
        assert xs[i - 1..][0] == first && xs[i - 1..][1..] == xs[i..];
        if j < |ys| {
          var second := ys[j];
          assert ys[j..][0] == second && ys[j..][1..] == ys[j + 1..];
          if first.0 < second.0 {
            if secondGreater {
              return None;
            }
            firstGreater := true;
            break;
          } else if first.0 == second.0 {
            match cmp(first.1, second.1) {
              case Some(Greater) =>
                if secondGreater {
                  return None;
                }
                firstGreater := true;
              case Some(Less) =>
                if firstGreater {
                  return None;
                }
                secondGreater := true;
              case None =>
                return None;
              case Some(Equal) =>
            }
            j := j + 1;
            break;
          } else {
            if firstGreater {
              return None;
            }
            secondGreater := true;
            j := j + 1;
          }
        } else if secondGreater {
          return None;
        } else {
          return Some(Greater);
        }
      }
    }
    assert xs[i..] == [];
    if j < |ys| {
      if firstGreater {
        r := None;
      } else {
        r := Some(Less);
      }
    } else if firstGreater {
      r := Some(Greater);
    } else {
      r := Some(Equal);
    }
  }

  /**
   * One step of the merge of the two key sequences: a key in both maps with
   * the comparison of its two values, or a key in only one of them.
   */
  datatype Step = Shared(key: int, c: Option<Ordering>) | OnlyFirst(key: int) | OnlySecond(key: int)

  /** The merge of both maps in key order (the keys the walk visits, in the order it visits them). */
  function Merge<V>(xs: seq<(int, V)>, ys: seq<(int, V)>, cmp: (V, V) -> Option<Ordering>): seq<Step>
    decreases |xs| + |ys|
  {
    if |xs| == 0 && |ys| == 0 then []
    else if |ys| == 0 || (|xs| > 0 && xs[0].0 < ys[0].0) then [OnlyFirst(xs[0].0)] + Merge(xs[1..], ys, cmp)
    else if |xs| == 0 || ys[0].0 < xs[0].0 then [OnlySecond(ys[0].0)] + Merge(xs, ys[1..], cmp)
    else [Shared(xs[0].0, cmp(xs[0].1, ys[0].1))] + Merge(xs[1..], ys[1..], cmp)
  }

  /**
   * What a step says about the direction: a key only the first map has puts
   * the first ahead (`Greater`), one only the second has puts the second
   * ahead (`Less`), a shared key says what its values say.
   */
  function Signal(s: Step): Option<Ordering>
  {
    match s
    case Shared(_, c) => c
    case OnlyFirst(_) => Some(Greater)
    case OnlySecond(_) => Some(Less)
  }

  function Signals(steps: seq<Step>): (sig: seq<Option<Ordering>>)
    ensures |sig| == |steps|
    ensures forall i :: 0 <= i < |steps| ==> sig[i] == Signal(steps[i])
  {
    if |steps| == 0 then [] else [Signal(steps[0])] + Signals(steps[1..])
  }

  /** The merge ends with keys that only the second map has. */
  predicate EndsOnlySecond(steps: seq<Step>)
  {
    |steps| > 0 && steps[|steps| - 1].OnlySecond?
  }

  /**
   * The outcome the source computes, stated over the merged signals:
   * incomparable on an incomparable shared value or on signals in both
   * directions; `Greater` when only the first is ever ahead; `Less` when only
   * the second is ever ahead AND the merge ends on keys only the second map
   * has; `Equal` otherwise. The last clause is the defect: when both maps run
   * out together, `second_greater` is ignored.
   */
  function AsWrittenVerdict(sig: seq<Option<Ordering>>, trailingSecond: bool): Option<Ordering>
  {
    if None in sig || (Some(Less) in sig && Some(Greater) in sig) then None
    else if Some(Greater) in sig then Some(Greater)
    else if Some(Less) in sig && trailingSecond then Some(Less)
    else Some(Equal)
  }

  /** The flags as signals already seen. */
  function Seen(firstGreater: bool, secondGreater: bool): seq<Option<Ordering>>
  {
    (if firstGreater then [Some(Greater)] else []) + (if secondGreater then [Some(Less)] else [])
  }

  lemma {:induction false} MergeOnlyFirst<V>(xs: seq<(int, V)>, ys: seq<(int, V)>, cmp: (V, V) -> Option<Ordering>)
    requires |ys| == 0
    ensures forall o :: o in Signals(Merge(xs, ys, cmp)) ==> o == Some(Greater)
    ensures |Merge(xs, ys, cmp)| == |xs| && !EndsOnlySecond(Merge(xs, ys, cmp))
    decreases |xs|
  {
    if |xs| > 0 {
      MergeOnlyFirst(xs[1..], ys, cmp);
    }
  }

  lemma {:induction false} MergeOnlySecond<V>(xs: seq<(int, V)>, ys: seq<(int, V)>, cmp: (V, V) -> Option<Ordering>)
    requires |xs| == 0
    ensures forall o :: o in Signals(Merge(xs, ys, cmp)) ==> o == Some(Less)
    ensures |Merge(xs, ys, cmp)| == |ys| && (|ys| > 0 ==> EndsOnlySecond(Merge(xs, ys, cmp)))
    decreases |ys|
  {
    if |ys| > 0 {
      MergeOnlySecond(xs, ys[1..], cmp);
    }
  }

  /** When one map is exhausted, the walk ends at once, as the verdict over the remaining one-sided keys says. */
  lemma WalkExhausted<V>(xs: seq<(int, V)>, ys: seq<(int, V)>, cmp: (V, V) -> Option<Ordering>,
                         firstGreater: bool, secondGreater: bool)
    requires !(firstGreater && secondGreater)
    requires |xs| == 0 || |ys| == 0
    ensures Walk(xs, ys, cmp, firstGreater, secondGreater)
         == AsWrittenVerdict(Seen(firstGreater, secondGreater) + Signals(Merge(xs, ys, cmp)), EndsOnlySecond(Merge(xs, ys, cmp)))
  {
    var sig := Seen(firstGreater, secondGreater) + Signals(Merge(xs, ys, cmp));
    if |xs| == 0 {
      MergeOnlySecond(xs, ys, cmp);
      if |ys| > 0 {
        assert Signals(Merge(xs, ys, cmp))[0] == Some(Less);
      }
      assert None !in sig;
      assert Some(Greater) in sig <==> firstGreater;
      assert Some(Less) in sig <==> secondGreater || |ys| > 0;
    } else {
      MergeOnlyFirst(xs, ys, cmp);
      assert Signals(Merge(xs, ys, cmp))[0] == Some(Greater);
      assert None !in sig;
      assert Some(Greater) in sig;
      assert Some(Less) in sig <==> secondGreater;
    }
  }

  /**
   * One signal `c` moved from the remaining steps into the flags: the
   * verdict is the same when the flags record `c` (or `c` says nothing).
   */
  lemma VerdictShift(pre: seq<Option<Ordering>>, c: Option<Ordering>, rest: seq<Option<Ordering>>,
                     pre': seq<Option<Ordering>>, t: bool)
    requires None !in pre && None !in pre' && c != None
    requires Some(Less) in pre + [c] <==> Some(Less) in pre'
    requires Some(Greater) in pre + [c] <==> Some(Greater) in pre'
    ensures AsWrittenVerdict(pre + ([c] + rest), t) == AsWrittenVerdict(pre' + rest, t)
  {
    var a, b := pre + ([c] + rest), pre' + rest;
    assert a == (pre + [c]) + rest;
    assert None in a <==> None in rest;
    assert None in b <==> None in rest;
  }

  /** The walk from any consistent flag state computes the as-written verdict of the signals seen so far and those still to come. */
  lemma {:induction false} WalkCharacterised<V>(xs: seq<(int, V)>, ys: seq<(int, V)>, cmp: (V, V) -> Option<Ordering>,
                                              firstGreater: bool, secondGreater: bool)
    requires !(firstGreater && secondGreater)
    ensures Walk(xs, ys, cmp, firstGreater, secondGreater)
         == AsWrittenVerdict(Seen(firstGreater, secondGreater) + Signals(Merge(xs, ys, cmp)), EndsOnlySecond(Merge(xs, ys, cmp)))
    decreases |xs| + |ys|
  {
    var steps := Merge(xs, ys, cmp);
    var pre := Seen(firstGreater, secondGreater);
    if |xs| == 0 || |ys| == 0 {
      WalkExhausted(xs, ys, cmp, firstGreater, secondGreater);
    } else {
      var first, second := xs[0], ys[0];
      if first.0 < second.0 {
        var rest := Merge(xs[1..], ys, cmp);
        assert steps == [OnlyFirst(first.0)] + rest;
        assert Signals(steps) == [Some(Greater)] + Signals(rest);
        MergeNonEmpty(xs[1..], ys, cmp);
        if secondGreater {
          assert Some(Less) in pre + Signals(steps) && Some(Greater) in pre + Signals(steps);
        } else {
          WalkCharacterised(xs[1..], ys, cmp, true, secondGreater);
          VerdictShift(pre, Some(Greater), Signals(rest), Seen(true, secondGreater), EndsOnlySecond(rest));
        }
      } else if first.0 == second.0 {
        WalkShared(xs, ys, cmp, firstGreater, secondGreater);
      } else {
        var rest := Merge(xs, ys[1..], cmp);
        assert steps == [OnlySecond(second.0)] + rest;
        assert Signals(steps) == [Some(Less)] + Signals(rest);
        MergeNonEmpty(xs, ys[1..], cmp);
        if firstGreater {
          assert Some(Less) in pre + Signals(steps) && Some(Greater) in pre + Signals(steps);
        } else {
          WalkCharacterised(xs, ys[1..], cmp, firstGreater, true);
          VerdictShift(pre, Some(Less), Signals(rest), Seen(firstGreater, true), EndsOnlySecond(rest));
        }
      }
    }
  }

  /** The case of `WalkCharacterised` where both maps are at the same key. */
  lemma {:induction false} WalkShared<V>(xs: seq<(int, V)>, ys: seq<(int, V)>, cmp: (V, V) -> Option<Ordering>,
                                       firstGreater: bool, secondGreater: bool)
    requires !(firstGreater && secondGreater)
    requires |xs| > 0 && |ys| > 0 && xs[0].0 == ys[0].0
    ensures Walk(xs, ys, cmp, firstGreater, secondGreater)
         == AsWrittenVerdict(Seen(firstGreater, secondGreater) + Signals(Merge(xs, ys, cmp)), EndsOnlySecond(Merge(xs, ys, cmp)))
    decreases |xs| + |ys|, 0
  {
    var steps := Merge(xs, ys, cmp);
    var pre := Seen(firstGreater, secondGreater);
    var rest := Merge(xs[1..], ys[1..], cmp);
    var c := cmp(xs[0].1, ys[0].1);
    assert steps == [Shared(xs[0].0, c)] + rest;
    assert Signals(steps) == [c] + Signals(rest);
    assert EndsOnlySecond(steps) == EndsOnlySecond(rest);
    match c
    case Some(Greater) =>
      if secondGreater {
        assert Some(Less) in pre + Signals(steps) && Some(Greater) in pre + Signals(steps);
      } else {
        assert Walk(xs, ys, cmp, firstGreater, secondGreater) == Walk(xs[1..], ys[1..], cmp, true, secondGreater);
        WalkCharacterised(xs[1..], ys[1..], cmp, true, secondGreater);
        VerdictShift(pre, c, Signals(rest), Seen(true, secondGreater), EndsOnlySecond(rest));
      }
    case Some(Less) =>
      if firstGreater {
        assert Some(Less) in pre + Signals(steps) && Some(Greater) in pre + Signals(steps);
      } else {
        assert Walk(xs, ys, cmp, firstGreater, secondGreater) == Walk(xs[1..], ys[1..], cmp, firstGreater, true);
        WalkCharacterised(xs[1..], ys[1..], cmp, firstGreater, true);
        VerdictShift(pre, c, Signals(rest), Seen(firstGreater, true), EndsOnlySecond(rest));
      }
    case None =>
      assert None in pre + Signals(steps);
    case Some(Equal) =>
      assert Walk(xs, ys, cmp, firstGreater, secondGreater) == Walk(xs[1..], ys[1..], cmp, firstGreater, secondGreater);
      WalkCharacterised(xs[1..], ys[1..], cmp, firstGreater, secondGreater);
      VerdictShift(pre, c, Signals(rest), pre, EndsOnlySecond(rest));
  }

  lemma MergeNonEmpty<V>(xs: seq<(int, V)>, ys: seq<(int, V)>, cmp: (V, V) -> Option<Ordering>)
    requires |xs| > 0 || |ys| > 0
    ensures |Merge(xs, ys, cmp)| > 0
  {
  }

  /**
   * Map dominance as written: `None` as soon as a shared key's values are
   * incomparable or the two sides have each been ahead (trailing extra keys
   * included); `Greater` when only the first map is ever ahead; `Less` only
   * when the second map is ahead and has keys past the first map's last key;
   * `Equal` otherwise.
   */
  lemma MapDominatesCharacterised<V>(xs: seq<(int, V)>, ys: seq<(int, V)>, cmp: (V, V) -> Option<Ordering>)
    ensures MapDominates(xs, ys, cmp)
         == AsWrittenVerdict(Signals(Merge(xs, ys, cmp)), EndsOnlySecond(Merge(xs, ys, cmp)))
  {
    WalkCharacterised(xs, ys, cmp, false, false);
    assert Seen(false, false) + Signals(Merge(xs, ys, cmp)) == Signals(Merge(xs, ys, cmp));
  }

  /** Empty against empty is `Equal`; empty against non-empty is `Less`; non-empty against empty is `Greater`. */
  lemma MapDominatesBoundaries<V>(xs: seq<(int, V)>, cmp: (V, V) -> Option<Ordering>)
    ensures MapDominates([], [], cmp) == Some(Equal)
    ensures |xs| > 0 ==> MapDominates([], xs, cmp) == Some(Less)
    ensures |xs| > 0 ==> MapDominates(xs, [], cmp) == Some(Greater)
  {
  }

  /**
   * The evidently intended map dominance: the fixed-arity dominance fold
   * (`DomReducer`) over the merged signals, except that an incomparable
   * shared value makes the maps incomparable.
   */
  function CorrectedMapDominates<V>(xs: seq<(int, V)>, ys: seq<(int, V)>, cmp: (V, V) -> Option<Ordering>): (r: Option<Ordering>)
    ensures var sig := Signals(Merge(xs, ys, cmp));
      r == None <==> None in sig || (Some(Less) in sig && Some(Greater) in sig)
    ensures var sig := Signals(Merge(xs, ys, cmp));
      r == Some(Less) <==> None !in sig && Some(Less) in sig && Some(Greater) !in sig
    ensures var sig := Signals(Merge(xs, ys, cmp));
      r == Some(Greater) <==> None !in sig && Some(Greater) in sig && Some(Less) !in sig
  {
    var sig := Signals(Merge(xs, ys, cmp));
    OutcomeCharacterised(sig);
    if None in sig then None else Outcome(sig)
  }

  /**
   * The source differs from the intended dominance in exactly one case: the
   * second map is ahead, the first never is, nothing is incomparable, and
   * the merge does not end on keys only the second map has. There the source
   * answers `Equal` where `Less` is meant.
   */
  lemma MapDefect<V>(xs: seq<(int, V)>, ys: seq<(int, V)>, cmp: (V, V) -> Option<Ordering>)
    ensures MapDominates(xs, ys, cmp) != CorrectedMapDominates(xs, ys, cmp)
        <==> CorrectedMapDominates(xs, ys, cmp) == Some(Less) && !EndsOnlySecond(Merge(xs, ys, cmp))
    ensures MapDominates(xs, ys, cmp) != CorrectedMapDominates(xs, ys, cmp)
        ==> MapDominates(xs, ys, cmp) == Some(Equal)
  {
    var steps := Merge(xs, ys, cmp);
    MapDominatesCharacterised(xs, ys, cmp);
    OutcomeIsPareto(Signals(steps));
  }

  /** The smallest instance of the defect: `{1: 0}` against `{1: 1}` is `Equal`, but the reverse order is `Greater`. */
  lemma MapDominatesAsymmetric()
    ensures MapDominates([(1, 0)], [(1, 1)], IntCmp) == Some(Equal)
    ensures MapDominates([(1, 1)], [(1, 0)], IntCmp) == Some(Greater)
    ensures CorrectedMapDominates([(1, 0)], [(1, 1)], IntCmp) == Some(Less)
  {
    var steps := Merge([(1, 0)], [(1, 1)], IntCmp);
    assert steps == [Shared(1, Some(Less))];
    assert Signals(steps) == [Some(Less)];
    OutcomeIsPareto([Some(Less)]);
  }

  /** The total order of integers as a partial comparison. */
  function IntCmp(x: int, y: int): (r: Option<Ordering>)
    ensures r.Some?
    ensures r == Some(Less) <==> x < y
    ensures r == Some(Greater) <==> x > y
  {
    if x < y then Some(Less) else if x == y then Some(Equal) else Some(Greater)
  }

  /** The signals of a step followed by more steps. */
  lemma SignalsCons(step: Step, rest: seq<Step>)
    ensures Signals([step] + rest) == [Signal(step)] + Signals(rest)
  {
    assert ([step] + rest)[1..] == rest;
  }

  /** Flipping commutes with putting one more outcome in front. */
  lemma FlipCons(a: Option<Ordering>, rest: seq<Option<Ordering>>)
    ensures FlipAll([a] + rest) == [FlipOpt(a)] + FlipAll(rest)
  {
  }

  /** Merging the other way round flips every signal, for an antisymmetric value comparison. */
  lemma {:induction false} MergeSwap<V(!new)>(xs: seq<(int, V)>, ys: seq<(int, V)>, cmp: (V, V) -> Option<Ordering>)
    requires Antisymmetric(cmp)
    ensures Signals(Merge(ys, xs, cmp)) == FlipAll(Signals(Merge(xs, ys, cmp)))
    decreases |xs| + |ys|
  {
    if |xs| == 0 && |ys| == 0 {
    } else if |ys| == 0 || (|xs| > 0 && xs[0].0 < ys[0].0) {
      MergeSwap(xs[1..], ys, cmp);
      SignalsCons(OnlyFirst(xs[0].0), Merge(xs[1..], ys, cmp));
      SignalsCons(OnlySecond(xs[0].0), Merge(ys, xs[1..], cmp));
      FlipCons(Some(Greater), Signals(Merge(xs[1..], ys, cmp)));
    } else if |xs| == 0 || ys[0].0 < xs[0].0 {
      MergeSwap(xs, ys[1..], cmp);
      SignalsCons(OnlySecond(ys[0].0), Merge(xs, ys[1..], cmp));
      SignalsCons(OnlyFirst(ys[0].0), Merge(ys[1..], xs, cmp));
      FlipCons(Some(Less), Signals(Merge(xs, ys[1..], cmp)));
    } else {
      MergeSwap(xs[1..], ys[1..], cmp);
      var c := cmp(xs[0].1, ys[0].1);
      SignalsCons(Shared(xs[0].0, c), Merge(xs[1..], ys[1..], cmp));
      SignalsCons(Shared(ys[0].0, cmp(ys[0].1, xs[0].1)), Merge(ys[1..], xs[1..], cmp));
      FlipCons(c, Signals(Merge(xs[1..], ys[1..], cmp)));
    }
  }

  /** The corrected dominance is antisymmetric: swapping the maps flips the outcome. */
  lemma CorrectedSwap<V(!new)>(xs: seq<(int, V)>, ys: seq<(int, V)>, cmp: (V, V) -> Option<Ordering>)
    requires Antisymmetric(cmp)
    ensures CorrectedMapDominates(ys, xs, cmp) == FlipOpt(CorrectedMapDominates(xs, ys, cmp))
  {
    var a := Signals(Merge(xs, ys, cmp));
    var b := Signals(Merge(ys, xs, cmp));
    MergeSwap(xs, ys, cmp);
    OutcomeFlip(a);
    assert None in b <==> None in a by {
      if None in b {
        var i :| 0 <= i < |b| && b[i] == None;
        assert a[i] == None;
      }
      if None in a {
        var i :| 0 <= i < |a| && a[i] == None;
        assert b[i] == None;
      }
    }
  }

  /**
   * For well-formed maps, a key that only the first map has shows up as a
   * step putting the first map ahead, and one only the second has as a step
   * putting the second ahead; every shared key is a `Shared` step.
   */
  lemma {:induction false} MergeKeys<V>(xs: seq<(int, V)>, ys: seq<(int, V)>, cmp: (V, V) -> Option<Ordering>)
    requires IsMap(xs) && IsMap(ys)
    ensures forall k :: OnlyFirst(k) in Merge(xs, ys, cmp) <==> HasKey(xs, k) && !HasKey(ys, k)
    ensures forall k :: OnlySecond(k) in Merge(xs, ys, cmp) <==> !HasKey(xs, k) && HasKey(ys, k)
    ensures forall s :: s in Merge(xs, ys, cmp) && s.Shared? ==> HasKey(xs, s.key) && HasKey(ys, s.key)
    decreases |xs| + |ys|
  {
    var steps := Merge(xs, ys, cmp);
    if |xs| == 0 && |ys| == 0 {
    } else if |ys| == 0 || (|xs| > 0 && xs[0].0 < ys[0].0) {
      var t := xs[1..];
      MergeKeys(t, ys, cmp);
      assert steps == [OnlyFirst(xs[0].0)] + Merge(t, ys, cmp);
      HasKeyCons(xs);
      assert !HasKey(ys, xs[0].0) by { if |ys| > 0 { KeyBelowHead(ys, xs[0].0); } }
      assert !HasKey(t, xs[0].0) by { KeyBelowHead(t, xs[0].0); }
    } else if |xs| == 0 || ys[0].0 < xs[0].0 {
      var t := ys[1..];
      MergeKeys(xs, t, cmp);
      assert steps == [OnlySecond(ys[0].0)] + Merge(xs, t, cmp);
      HasKeyCons(ys);
      assert !HasKey(xs, ys[0].0) by { if |xs| > 0 { KeyBelowHead(xs, ys[0].0); } }
      assert !HasKey(t, ys[0].0) by { KeyBelowHead(t, ys[0].0); }
    } else {
      var s, t := xs[1..], ys[1..];
      MergeKeys(s, t, cmp);
      assert steps == [Shared(xs[0].0, cmp(xs[0].1, ys[0].1))] + Merge(s, t, cmp);
      HasKeyCons(xs);
      HasKeyCons(ys);
      assert !HasKey(s, xs[0].0) by { KeyBelowHead(s, xs[0].0); }
      assert !HasKey(t, ys[0].0) by { KeyBelowHead(t, ys[0].0); }
    }
  }

  lemma HasKeyCons<V>(m: seq<(int, V)>)
    requires |m| > 0
    ensures forall k :: HasKey(m, k) <==> k == m[0].0 || HasKey(m[1..], k)
  {
    forall k | HasKey(m, k) && k != m[0].0 ensures HasKey(m[1..], k) {
      var i :| 0 <= i < |m| && m[i].0 == k;
      assert m[1..][i - 1].0 == k;
    }
    forall k | HasKey(m[1..], k) ensures HasKey(m, k) {
      var i :| 0 <= i < |m[1..]| && m[1..][i].0 == k;
      assert m[i + 1].0 == k;
    }
  }

  /** A well-formed map has no key below its first key. */
  lemma KeyBelowHead<V>(m: seq<(int, V)>, k: int)
    requires IsMap(m)
    requires |m| > 0 ==> k < m[0].0
    ensures !HasKey(m, k)
  {
  }
}
