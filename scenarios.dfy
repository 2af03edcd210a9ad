/*
 * The worked examples of the crate's integration tests (tests/moors.rs and
 * tests/tree_dom.rs), stated over the model: the dominance outcomes the
 * tests assert, and the fronts and ranks the sort produces for their
 * populations. `f64` objectives are modelled as reals extended with NaN.
 */
module Scenarios {
  import opened Orderings
  import opened Tuples
  import opened SparseDom
  import opened NonDominatedSort

  /** An `f64` objective: a real number, or NaN. */
  datatype F64 = Num(x: real) | NaN

  /** `f64::partial_cmp`: no answer when either side is NaN, otherwise the order of the reals. */
  function F64Cmp(a: F64, b: F64): (r: Option<Ordering>)
    ensures r == None <==> a.NaN? || b.NaN?
    ensures r == Some(Less) <==> a.Num? && b.Num? && a.x < b.x
    ensures r == Some(Greater) <==> a.Num? && b.Num? && a.x > b.x
  {
    if a.NaN? || b.NaN? then None
    else if a.x < b.x then Some(Less)
    else if a.x == b.x then Some(Equal)
    else Some(Greater)
  }

  /** `dominates` on a two-objective `tuple_list![f64, f64]`. */
  function Dom2(a: (F64, F64), b: (F64, F64)): Option<Ordering>
  {
    TupleDominates([a.0, a.1], [b.0, b.1], F64Cmp)
  }

  // ---------------------------------------------------------------------------
  // Tuple dominance outcomes.

  /**
   * The outcomes tests/moors.rs `dominates` asserts in its cases 1, 2 and 4:
   * a tuple better everywhere dominates, one worse in some position and
   * equal elsewhere is dominated, equal tuples are `Equal`.
   */
  lemma MoorsDominates()
    ensures TupleDominates([Num(1.0), Num(2.0), Num(3.0)], [Num(2.0), Num(3.0), Num(4.0)], F64Cmp) == Some(Less)
    ensures TupleDominates([Num(3.0), Num(4.0), Num(5.0)], [Num(3.0), Num(3.0), Num(3.0)], F64Cmp) == Some(Greater)
    ensures TupleDominates([Num(1.0), Num(2.0), Num(3.0)], [Num(1.0), Num(2.0), Num(3.0)], F64Cmp) == Some(Equal)
  {
    DominatesByPositions([Num(1.0), Num(2.0), Num(3.0)], [Num(2.0), Num(3.0), Num(4.0)], [Some(Less), Some(Less), Some(Less)]);
    DominatesByPositions([Num(3.0), Num(4.0), Num(5.0)], [Num(3.0), Num(3.0), Num(3.0)], [Some(Equal), Some(Greater), Some(Greater)]);
    DominatesByPositions([Num(1.0), Num(2.0), Num(3.0)], [Num(1.0), Num(2.0), Num(3.0)], [Some(Equal), Some(Equal), Some(Equal)]);
  }

  /**
   * Case 3 of that test: better in one position and worse in another. The
   * test expects `Equal` (compared against a bare `Ordering`); the fold
   * answers `None`, incomparable.
   */
  lemma MoorsTradeOff()
    ensures TupleDominates([Num(1.0), Num(2.0), Num(3.0)], [Num(2.0), Num(1.0), Num(3.0)], F64Cmp) == None
  {
    DominatesByPositions([Num(1.0), Num(2.0), Num(3.0)], [Num(2.0), Num(1.0), Num(3.0)], [Some(Less), Some(Greater), Some(Equal)]);
  }

  /** A position whose comparison has no answer (a NaN) is skipped: the other positions decide. */
  lemma NaNPositionSkipped()
    ensures TupleDominates([NaN, Num(1.0)], [Num(0.0), Num(2.0)], F64Cmp) == Some(Less)
    ensures TupleDominates([NaN, Num(1.0)], [NaN, Num(1.0)], F64Cmp) == Some(Equal)
  {
    DominatesByPositions([NaN, Num(1.0)], [Num(0.0), Num(2.0)], [None, Some(Less)]);
    DominatesByPositions([NaN, Num(1.0)], [NaN, Num(1.0)], [None, Some(Equal)]);
  }

  /** Dominance of `f64` tuples once the per-position outcomes `cs` are known. */
  lemma DominatesByPositions(a: seq<F64>, b: seq<F64>, cs: seq<Option<Ordering>>)
    requires |a| == |b| == |cs|
    requires forall i :: 0 <= i < |cs| ==> cs[i] == F64Cmp(a[i], b[i])
    ensures TupleDominates(a, b, F64Cmp) == ParetoOutcome(cs)
  {
    TupleDominatesPareto(a, b, F64Cmp);
    assert PartialCmpMany(a, b, F64Cmp) == cs;
  }

  // ---------------------------------------------------------------------------
  // Two-front populations.

  /** Two increasing sequences with the same members are the same sequence. */
  lemma {:induction false} IncreasingUnique(s: seq<nat>, t: seq<nat>)
    requires Increasing(s) && Increasing(t)
    requires forall x :: x in s <==> x in t
    ensures s == t
    decreases |s|
  {
    if |s| > 0 { assert s[0] in s; }
    if |t| > 0 { assert t[0] in t; }
    if |s| > 0 && |t| > 0 {
      var i :| 0 <= i < |t| && t[i] == s[0];
      var j :| 0 <= j < |s| && s[j] == t[0];
      if i > 0 && j > 0 {
        assert false;
      }
      assert s[0] == t[0];
      forall x ensures x in s[1..] <==> x in t[1..] {
        if x in s[1..] {
          var k :| 0 <= k < |s| - 1 && s[1..][k] == x;
          assert s[0] < s[k + 1] && x in t;
          var m :| 0 <= m < |t| && t[m] == x;
          assert t[1..][m - 1] == x;
        }
        if x in t[1..] {
          var k :| 0 <= k < |t| - 1 && t[1..][k] == x;
          assert t[0] < t[k + 1] && x in s;
          var m :| 0 <= m < |s| && s[m] == x;
          assert s[1..][m - 1] == x;
        }
      }
      IncreasingUnique(s[1..], t[1..]);
      assert s == [s[0]] + s[1..] && t == [t[0]] + t[1..];
    }
  }

  /** The recorded edges run exactly from every individual in `top` to every individual outside it. */
  ghost predicate EdgesFromTop<T>(pop: seq<T>, dom: (T, T) -> Option<Ordering>, top: nat -> bool)
  {
    forall p: nat, q: nat :: Edge(pop, dom, p, q) <==> p < |pop| && q < |pop| && top(p) && !top(q)
  }

  /** Such edges rise from level 0 (`top`) to level 1, so they close no cycle. */
  lemma TopAcyclic<T>(pop: seq<T>, dom: (T, T) -> Option<Ordering>, top: nat -> bool)
    requires EdgesFromTop(pop, dom, top)
    ensures Acyclic(pop, dom)
  {
    var level := seq(|pop|, i requires 0 <= i => if top(i) then 0 else 1);
    AcyclicByLevel(pop, dom, level);
  }

  /** Front 0 is then exactly `top`, as long as some individual is outside it. */
  lemma TopFront<T>(pop: seq<T>, dom: (T, T) -> Option<Ordering>, f: seq<nat>, top: nat -> bool, a: nat)
    requires EdgesFromTop(pop, dom, top) && IsFirstFront(pop, dom, f) && a < |pop| && top(a)
    ensures forall x: nat :: x in f <==> x < |pop| && top(x)
  {
    forall x: nat ensures x in f <==> x < |pop| && top(x) {
      if x < |pop| && top(x) {
        assert Dominators(pop, dom, x) == {};
      } else if x < |pop| {
        assert Edge(pop, dom, a, x);
        assert a in Dominators(pop, dom, x);
      }
    }
  }

  /** Every individual outside `top` has rank 1: it is dominated, and only by individuals of rank 0. */
  lemma TopRanks<T>(pop: seq<T>, dom: (T, T) -> Option<Ordering>, ranks: seq<nat>, fronts: seq<seq<nat>>,
                    top: nat -> bool, a: nat)
    requires NonDominatedFronts(pop, dom, ranks, fronts)
    requires EdgesFromTop(pop, dom, top) && a < |pop| && top(a)
    requires forall x: nat :: x in fronts[0] <==> x < |pop| && top(x)
    ensures forall x :: 0 <= x < |pop| ==> ranks[x] == if top(x) then 0 else 1
  {
    assert ranks[a] == 0 by { assert a in fronts[0]; }
    forall x | 0 <= x < |pop| ensures ranks[x] == if top(x) then 0 else 1 {
      if top(x) {
        assert x in fronts[0];
      } else {
        assert Edge(pop, dom, a, x);
        var k := ranks[x];
        assert x in fronts[k];
        var p :| p in fronts[k - 1] && Edge(pop, dom, p, x);
        assert p in fronts[0];
      }
    }
  }

  /** With ranks 0 and 1 only, and rank 1 taken, there are exactly two fronts, the second holding rank 1. */
  lemma SecondFront<T>(pop: seq<T>, dom: (T, T) -> Option<Ordering>, ranks: seq<nat>, fronts: seq<seq<nat>>,
                       top: nat -> bool, b: nat)
    requires NonDominatedFronts(pop, dom, ranks, fronts)
    requires forall x :: 0 <= x < |pop| ==> ranks[x] == if top(x) then 0 else 1
    requires b < |pop| && !top(b)
    ensures |fronts| == 2
    ensures forall x: nat :: x in fronts[1] <==> x < |pop| && !top(x)
  {
    assert b in fronts[ranks[b]];
    var k := |fronts| - 1;
    assert fronts[k][0] in fronts[k];

    forall x: nat ensures x in fronts[1] <==> x < |pop| && !top(x) {
      if x < |pop| && !top(x) {
        assert x in fronts[ranks[x]];
      }
    }
  }

  /** Every member of the second front is discovered from the last member of the first, so it is increasing. */
  lemma SecondFrontIncreasing<T>(pop: seq<T>, dom: (T, T) -> Option<Ordering>, ranks: seq<nat>, fronts: seq<seq<nat>>,
                                 top: nat -> bool, a: nat)
    requires NonDominatedFronts(pop, dom, ranks, fronts)
    requires EdgesFromTop(pop, dom, top) && a in fronts[0] && |fronts| == 2
    requires forall x: nat :: x in fronts[0] <==> x < |pop| && top(x)
    requires forall x: nat :: x in fronts[1] <==> x < |pop| && !top(x)
    ensures Increasing(fronts[1])
  {
    var f0 := fronts[0];
    var last := f0[|f0| - 1];
    assert last in f0;
    forall i, j | 0 <= i < j < |fronts[1]| ensures fronts[1][i] < fronts[1][j] {
      var x, y := fronts[1][i], fronts[1][j];
      assert x in fronts[1] && y in fronts[1];
      assert Edge(pop, dom, last, x) && Edge(pop, dom, last, y);
      assert LastDom(pop, dom, f0, x) == |f0| - 1 == LastDom(pop, dom, f0, y);
      assert DiscoveredBefore(pop, dom, f0, x, y);
    }
  }

  /**
   * With edges from every individual in `top` to every other one, the
   * sort's outcome has two fronts: `top` in increasing order, then the rest
   * in increasing order, with ranks 0 and 1 accordingly.
   */
  lemma TwoFronts<T>(pop: seq<T>, dom: (T, T) -> Option<Ordering>, ranks: seq<nat>, fronts: seq<seq<nat>>,
                     top: nat -> bool, a: nat, b: nat)
    requires NonDominatedFronts(pop, dom, ranks, fronts)
    requires EdgesFromTop(pop, dom, top)
    requires a < |pop| && top(a) && b < |pop| && !top(b)
    ensures |fronts| == 2
    ensures Increasing(fronts[0]) && forall x: nat :: x in fronts[0] <==> x < |pop| && top(x)
    ensures Increasing(fronts[1]) && forall x: nat :: x in fronts[1] <==> x < |pop| && !top(x)
    ensures forall x :: 0 <= x < |pop| ==> ranks[x] == if top(x) then 0 else 1
  {
    TopFront(pop, dom, fronts[0], top, a);
    TopRanks(pop, dom, ranks, fronts, top, a);
    SecondFront(pop, dom, ranks, fronts, top, b);
    SecondFrontIncreasing(pop, dom, ranks, fronts, top, a);
  }

  // ---------------------------------------------------------------------------
  // tests/moors.rs, `test_fast_non_dominated_sorting`.

  /** Individuals 0-2 trade one objective for the other; 3 and 4 are worse than each of them. */
  const MoorsPopulation: seq<(F64, F64)> :=
    [(Num(1.0), Num(2.0)), (Num(2.0), Num(1.0)), (Num(1.5), Num(1.5)), (Num(3.0), Num(4.0)), (Num(4.0), Num(3.0))]

  /** `dominates` on two-objective tuples, by its two per-position outcomes. */
  lemma Dom2ByPositions(a: (F64, F64), b: (F64, F64))
    ensures Dom2(a, b) == ParetoOutcome([F64Cmp(a.0, b.0), F64Cmp(a.1, b.1)])
  {
    DominatesByPositions([a.0, a.1], [b.0, b.1], [F64Cmp(a.0, b.0), F64Cmp(a.1, b.1)]);
  }

  /** The individuals of the first front: those trading one objective for the other. */
  predicate MoorsTop(x: nat)
  {
    x < 3
  }

  /** The outcome of each pair the pairwise phase compares: each of 0-2 dominates each of 3-4, nothing else. */
  lemma MoorsPairs()
    ensures forall i, j :: 0 <= i < j < 5 ==>
      Dom2(MoorsPopulation[i], MoorsPopulation[j]) == if i < 3 <= j then Some(Less) else None
  {
    MoorsPairsAcross();
    MoorsPairsWithin();
  }

  lemma MoorsPairsAcross()
    ensures forall i, j :: 0 <= i < 3 <= j < 5 ==> Dom2(MoorsPopulation[i], MoorsPopulation[j]) == Some(Less)
  {
    var pop := MoorsPopulation;
    forall i, j | 0 <= i < 3 <= j < 5 ensures Dom2(pop[i], pop[j]) == Some(Less) {
      if i == 0 {
        if j == 3 { Dom2ByPositions(pop[0], pop[3]); }
        else if j == 4 { Dom2ByPositions(pop[0], pop[4]); }
      }
      else if i == 1 {
        if j == 3 { Dom2ByPositions(pop[1], pop[3]); }
        else if j == 4 { Dom2ByPositions(pop[1], pop[4]); }
      }
      else if i == 2 {
        if j == 3 { Dom2ByPositions(pop[2], pop[3]); }
        else if j == 4 { Dom2ByPositions(pop[2], pop[4]); }
      }
    }
  }

  lemma MoorsPairsWithin()
    ensures forall i, j :: (0 <= i < j < 3 || 3 <= i < j < 5) ==> Dom2(MoorsPopulation[i], MoorsPopulation[j]) == None
  {
    var pop := MoorsPopulation;
    forall i, j | 0 <= i < j < 3 || 3 <= i < j < 5 ensures Dom2(pop[i], pop[j]) == None {
      if i == 0 {
        if j == 1 { Dom2ByPositions(pop[0], pop[1]); }
        else if j == 2 { Dom2ByPositions(pop[0], pop[2]); }
      }
      else if i == 1 {
        if j == 2 { Dom2ByPositions(pop[1], pop[2]); }
      }
      else if i == 3 {
        if j == 4 { Dom2ByPositions(pop[3], pop[4]); }
      }
    }
  }

  /** The edges the pairwise phase records for that population: each of 0-2 over each of 3-4. */
  lemma MoorsEdges()
    ensures EdgesFromTop(MoorsPopulation, Dom2, MoorsTop)
  {
    MoorsPairs();
    var pop := MoorsPopulation;
    forall p: nat, q: nat ensures Edge(pop, Dom2, p, q) <==> p < 3 <= q < 5 {
      if p < 5 && q < 5 && p != q {
        if p < q {
          assert Dom2(pop[p], pop[q]) == if p < 3 <= q then Some(Less) else None;
        } else {
          assert Dom2(pop[q], pop[p]) == if q < 3 <= p then Some(Less) else None;
        }
      }
    }
  }

  /** Any outcome meeting the sort's contract on that population is the expected one. */
  lemma MoorsOutcome(ranks: seq<nat>, fronts: seq<seq<nat>>)
    requires NonDominatedFronts(MoorsPopulation, Dom2, ranks, fronts)
    ensures fronts == [[0, 1, 2], [3, 4]]
    ensures ranks == [0, 0, 0, 1, 1]
  {
    MoorsEdges();
    TwoFronts(MoorsPopulation, Dom2, ranks, fronts, MoorsTop, 0, 3);
    MoorsFronts(ranks, fronts);
  }

  /** The fronts and ranks that two fronts split at 3 spell out for five individuals. */
  lemma MoorsFronts(ranks: seq<nat>, fronts: seq<seq<nat>>)
    requires |ranks| == 5 && |fronts| == 2
    requires Increasing(fronts[0]) && forall x: nat :: x in fronts[0] <==> x < 5 && MoorsTop(x)
    requires Increasing(fronts[1]) && forall x: nat :: x in fronts[1] <==> x < 5 && !MoorsTop(x)
    requires forall x :: 0 <= x < 5 ==> ranks[x] == if MoorsTop(x) then 0 else 1
    ensures fronts == [[0, 1, 2], [3, 4]]
    ensures ranks == [0, 0, 0, 1, 1]
  {
    IncreasingUnique(fronts[0], [0, 1, 2]);
    IncreasingUnique(fronts[1], [3, 4]);
  }

  /** The sort splits the population into fronts `[0, 1, 2]` and `[3, 4]`. */
  method SortMoors() returns (ranks: seq<nat>, fronts: seq<seq<nat>>)
    ensures fronts == [[0, 1, 2], [3, 4]]
    ensures ranks == [0, 0, 0, 1, 1]
  {
    MoorsEdges();
    TopAcyclic(MoorsPopulation, Dom2, MoorsTop);
    ranks, fronts := FastNonDominatedSort(MoorsPopulation, Dom2);
    MoorsOutcome(ranks, fronts);
  }

  // ---------------------------------------------------------------------------
  // tests/tree_dom.rs, `membership_dom`.

  /** `dominates` on a `BTreeMap` of integer objectives. */
  function IntMapDom(a: seq<(int, int)>, b: seq<(int, int)>): Option<Ordering>
  {
    MapDominates(a, b, IntCmp)
  }

  /** `dominates` on `Reverse<BTreeMap<_, _>>`: larger objective values are better. */
  function RevMapDom(a: Reverse<seq<(int, int)>>, b: Reverse<seq<(int, int)>>): Option<Ordering>
  {
    ReverseDominates(IntMapDom, a, b)
  }

  /** Individual 0 has no objectives; the others hold one or two entries. */
  const TreePopulation: seq<Reverse<seq<(int, int)>>> :=
    [Reverse([]), Reverse([(1, 1)]), Reverse([(0, 0), (1, 1)]), Reverse([(2, 1)]),
     Reverse([(1, 0), (2, 0)]), Reverse([(1, 0), (2, 1)])]

  /** For each individual, the individuals the test says it dominates. */
  const TreeDominated: seq<seq<nat>> := [[], [0], [0, 1], [0], [0], [0, 3, 4]]

  /**
   * The domination table the test asserts holds for the map comparison as
   * written: `c` dominates `i` (`Some(Less)`) exactly when `i` is listed for
   * `c`, and otherwise the outcome is `None`, `Equal` or `Greater`.
   */
  lemma TreeDominations()
    ensures forall c, i :: 0 <= c < 6 && 0 <= i < 6 ==>
      (RevMapDom(TreePopulation[c], TreePopulation[i]) == Some(Less) <==> i in TreeDominated[c])
  {
    var pop := TreePopulation;
    forall c, i | 0 <= c < 6 && 0 <= i < 6
      ensures RevMapDom(pop[c], pop[i]) == Some(Less) <==> i in TreeDominated[c]
    {
      assert c == 0 || c == 1 || c == 2 || c == 3 || c == 4 || c == 5;
      assert i == 0 || i == 1 || i == 2 || i == 3 || i == 4 || i == 5;
    }
  }

  /** The individuals of the first front: all but the empty map. */
  predicate TreeTop(x: nat)
  {
    0 < x
  }

  /**
   * The outcome of each pair the pairwise phase compares (the lower index
   * first): the empty map is dominated by every other, and no other pair is
   * ordered. Pairs (1, 2), (3, 5) and (4, 5) come out `Equal` only because
   * of the trailing-key defect of the map comparison.
   */
  lemma TreePairs()
    ensures forall i, j :: 0 <= i < j < 6 ==>
      (RevMapDom(TreePopulation[i], TreePopulation[j]) == Some(Greater) <==> i == 0)
    ensures forall i, j :: 0 <= i < j < 6 ==> RevMapDom(TreePopulation[i], TreePopulation[j]) != Some(Less)
  {
    var pop := TreePopulation;
    forall i, j | 0 <= i < j < 6
      ensures (RevMapDom(pop[i], pop[j]) == Some(Greater) <==> i == 0) && RevMapDom(pop[i], pop[j]) != Some(Less)
    {
      if i == 0 {
        if j == 1 { assert RevMapDom(pop[0], pop[1]) == Some(Greater); }
        else if j == 2 { assert RevMapDom(pop[0], pop[2]) == Some(Greater); }
        else if j == 3 { assert RevMapDom(pop[0], pop[3]) == Some(Greater); }
        else if j == 4 { assert RevMapDom(pop[0], pop[4]) == Some(Greater); }
        else if j == 5 { assert RevMapDom(pop[0], pop[5]) == Some(Greater); }
      }
      else if i == 1 {
        if j == 2 { assert RevMapDom(pop[1], pop[2]) == Some(Equal); }
        else if j == 3 { assert RevMapDom(pop[1], pop[3]) == None; }
        else if j == 4 { assert RevMapDom(pop[1], pop[4]) == None; }
        else if j == 5 { assert RevMapDom(pop[1], pop[5]) == None; }
      }
      else if i == 2 {
        if j == 3 { assert RevMapDom(pop[2], pop[3]) == None; }
        else if j == 4 { assert RevMapDom(pop[2], pop[4]) == None; }
        else if j == 5 { assert RevMapDom(pop[2], pop[5]) == None; }
      }
      else if i == 3 {
        if j == 4 { assert RevMapDom(pop[3], pop[4]) == None; }
        else if j == 5 { assert RevMapDom(pop[3], pop[5]) == Some(Equal); }
      }
      else if i == 4 {
        if j == 5 { assert RevMapDom(pop[4], pop[5]) == Some(Equal); }
      }
    }
  }

  /** The edges the pairwise phase records: from every non-empty map to the empty one. */
  lemma TreeEdges()
    ensures EdgesFromTop(TreePopulation, RevMapDom, TreeTop)
  {
    TreePairs();
    var pop := TreePopulation;
    forall p: nat, q: nat ensures Edge(pop, RevMapDom, p, q) <==> 0 < p < 6 && q == 0 {
      if p < 6 && q < 6 && p != q {
        if p < q {
          assert RevMapDom(pop[p], pop[q]) != Some(Less);
        } else {
          assert RevMapDom(pop[q], pop[p]) == Some(Greater) <==> q == 0;
        }
      }
    }
  }

  /** Any outcome meeting the sort's contract on that population is the one the test expects. */
  lemma TreeOutcome(ranks: seq<nat>, fronts: seq<seq<nat>>)
    requires NonDominatedFronts(TreePopulation, RevMapDom, ranks, fronts)
    ensures fronts == [[1, 2, 3, 4, 5], [0]]
    ensures ranks == [1, 0, 0, 0, 0, 0]
  {
    TreeEdges();
    TwoFronts(TreePopulation, RevMapDom, ranks, fronts, TreeTop, 1, 0);
    TreeFronts(ranks, fronts);
  }

  /** The fronts and ranks that two fronts split off individual 0 spell out for six individuals. */
  lemma TreeFronts(ranks: seq<nat>, fronts: seq<seq<nat>>)
    requires |ranks| == 6 && |fronts| == 2
    requires Increasing(fronts[0]) && forall x: nat :: x in fronts[0] <==> x < 6 && TreeTop(x)
    requires Increasing(fronts[1]) && forall x: nat :: x in fronts[1] <==> x < 6 && !TreeTop(x)
    requires forall x :: 0 <= x < 6 ==> ranks[x] == if TreeTop(x) then 0 else 1
    ensures fronts == [[1, 2, 3, 4, 5], [0]]
    ensures ranks == [1, 0, 0, 0, 0, 0]
  {
    IncreasingUnique(fronts[0], [1, 2, 3, 4, 5]);
    IncreasingUnique(fronts[1], [0]);
  }

  /** The sort puts every non-empty map in the first front and the empty map in the second. */
  method SortTree() returns (ranks: seq<nat>, fronts: seq<seq<nat>>)
    ensures fronts == [[1, 2, 3, 4, 5], [0]]
    ensures ranks == [1, 0, 0, 0, 0, 0]
  {
    TreeEdges();
    TopAcyclic(TreePopulation, RevMapDom, TreeTop);
    ranks, fronts := FastNonDominatedSort(TreePopulation, RevMapDom);
    TreeOutcome(ranks, fronts);
  }

  /** `dominates` on `Reverse<BTreeMap<_, _>>` with the evidently intended map comparison. */
  function CorrectedRevMapDom(a: Reverse<seq<(int, int)>>, b: Reverse<seq<(int, int)>>): Option<Ordering>
  {
    ReverseDominates((x: seq<(int, int)>, y: seq<(int, int)>) => CorrectedMapDominates(x, y, IntCmp), a, b)
  }

  /** The pairs the corrected comparison orders: 2 over 1, 5 over 3 and 4, every non-empty map over 0. */
  predicate CorrectedEdge(p: nat, q: nat)
  {
    (0 < p < 6 && q == 0) || (p == 2 && q == 1) || (p == 5 && (q == 3 || q == 4))
  }

  /** With the intended comparison the pairs (1, 2), (3, 5) and (4, 5) are ordered too. */
  lemma CorrectedTreeEdges()
    ensures forall p: nat, q: nat :: Edge(TreePopulation, CorrectedRevMapDom, p, q) <==> CorrectedEdge(p, q)
  {
    var pop := TreePopulation;
    forall i, j | 0 <= i < j < 6
      ensures CorrectedRevMapDom(pop[i], pop[j]) == if i == 0 || (i == 1 && j == 2) || (j == 5 && (i == 3 || i == 4)) then Some(Greater) else None
    {
      if i == 0 {
        if j == 1 { CorrectedAgrees(pop[0], pop[1]); }
        else if j == 2 { CorrectedAgrees(pop[0], pop[2]); }
        else if j == 3 { CorrectedAgrees(pop[0], pop[3]); }
        else if j == 4 { CorrectedAgrees(pop[0], pop[4]); }
        else if j == 5 { CorrectedAgrees(pop[0], pop[5]); }
      }
      else if i == 1 {
        if j == 2 { CorrectedDefectPairs(); }
        else if j == 3 { assert RevMapDom(pop[1], pop[3]) == None; CorrectedAgrees(pop[1], pop[3]); }
        else if j == 4 { assert RevMapDom(pop[1], pop[4]) == None; CorrectedAgrees(pop[1], pop[4]); }
        else if j == 5 { assert RevMapDom(pop[1], pop[5]) == None; CorrectedAgrees(pop[1], pop[5]); }
      }
      else if i == 2 {
        if j == 3 { assert RevMapDom(pop[2], pop[3]) == None; CorrectedAgrees(pop[2], pop[3]); }
        else if j == 4 { assert RevMapDom(pop[2], pop[4]) == None; CorrectedAgrees(pop[2], pop[4]); }
        else if j == 5 { assert RevMapDom(pop[2], pop[5]) == None; CorrectedAgrees(pop[2], pop[5]); }
      }
      else if i == 3 {
        if j == 4 { assert RevMapDom(pop[3], pop[4]) == None; CorrectedAgrees(pop[3], pop[4]); }
        else if j == 5 { CorrectedDefectPairs(); }
      }
      else if i == 4 {
        if j == 5 { CorrectedDefectPairs(); }
      }
    }
  }

  /**
   * The three compared pairs where the map comparison as written answers
   * `Equal`: under the intended comparison the higher index dominates.
   */
  lemma CorrectedDefectPairs()
    ensures CorrectedRevMapDom(TreePopulation[1], TreePopulation[2]) == Some(Greater)
    ensures CorrectedRevMapDom(TreePopulation[3], TreePopulation[5]) == Some(Greater)
    ensures CorrectedRevMapDom(TreePopulation[4], TreePopulation[5]) == Some(Greater)
  {
    CorrectedTrailingKey();
    CorrectedMerge([(1, 0), (2, 0)], [(1, 0), (2, 1)], [Shared(1, Some(Equal)), Shared(2, Some(Less))]);
  }

  /** The two pairs where the second map holds one more, smaller key and the shared key ties. */
  lemma CorrectedTrailingKey()
    ensures CorrectedMapDominates([(1, 1)], [(0, 0), (1, 1)], IntCmp) == Some(Less)
    ensures CorrectedMapDominates([(2, 1)], [(1, 0), (2, 1)], IntCmp) == Some(Less)
  {
    CorrectedMerge([(1, 1)], [(0, 0), (1, 1)], [OnlySecond(0), Shared(1, Some(Equal))]);
    CorrectedMerge([(2, 1)], [(1, 0), (2, 1)], [OnlySecond(1), Shared(2, Some(Equal))]);
  }

  /** The intended comparison of two maps once their merge is known. */
  lemma CorrectedMerge(xs: seq<(int, int)>, ys: seq<(int, int)>, steps: seq<Step>)
    requires Merge(xs, ys, IntCmp) == steps
    ensures CorrectedMapDominates(xs, ys, IntCmp) == if None in Signals(steps) then None else ParetoOutcome(Signals(steps))
  {
    OutcomeIsPareto(Signals(steps));
  }

  /** Where the map comparison as written does not answer `Equal`, the intended comparison agrees with it. */
  lemma CorrectedAgrees(a: Reverse<seq<(int, int)>>, b: Reverse<seq<(int, int)>>)
    requires RevMapDom(a, b) != Some(Equal)
    ensures CorrectedRevMapDom(a, b) == RevMapDom(a, b)
  {
    MapDefect(a.inner, b.inner, IntCmp);
  }

  /**
   * With the intended map comparison the sort's first front is `[2, 5]`, not
   * the `[1, 2, 3, 4, 5]` the test expects: that expectation rests on the
   * trailing-key defect.
   */
  method SortTreeCorrected() returns (ranks: seq<nat>, fronts: seq<seq<nat>>)
    ensures |fronts| > 0 && fronts[0] == [2, 5]
    ensures ranks == [2, 1, 0, 1, 1, 0]
  {
    CorrectedTreeEdges();
    AcyclicByLevel(TreePopulation, CorrectedRevMapDom, [2, 1, 0, 1, 1, 0]);
    ranks, fronts := FastNonDominatedSort(TreePopulation, CorrectedRevMapDom);
    CorrectedFirstFront(TreePopulation, CorrectedRevMapDom, fronts[0]);
    CorrectedRanks(TreePopulation, CorrectedRevMapDom, ranks, fronts);
    SeqOfSix(ranks);
  }

  /** With the intended comparison's edges, only individuals 2 and 5 are undominated. */
  lemma CorrectedFirstFront<T>(pop: seq<T>, dom: (T, T) -> Option<Ordering>, f: seq<nat>)
    requires |pop| == 6 && IsFirstFront(pop, dom, f)
    requires forall p: nat, q: nat :: Edge(pop, dom, p, q) <==> CorrectedEdge(p, q)
    ensures f == [2, 5]
  {
    forall x: nat ensures x in f <==> x == 2 || x == 5 {
      if x == 2 || x == 5 {
        assert Dominators(pop, dom, x) == {};
      } else if x < 6 {
        var d := if x == 1 then 2 else if x == 0 then 1 else 5;
        assert d in Dominators(pop, dom, x);
      }
    }
    IncreasingUnique(f, [2, 5]);
  }

  /** The individuals 2 and 5 of the first front have rank 0; 1, 3 and 4, dominated only from it, rank 1. */
  lemma CorrectedMiddleRanks<T>(pop: seq<T>, dom: (T, T) -> Option<Ordering>, ranks: seq<nat>, fronts: seq<seq<nat>>)
    requires |pop| == 6 && NonDominatedFronts(pop, dom, ranks, fronts)
    requires forall p: nat, q: nat :: Edge(pop, dom, p, q) <==> CorrectedEdge(p, q)
    requires fronts[0] == [2, 5]
    ensures |ranks| == 6
    ensures ranks[1] == 1 && ranks[2] == 0 && ranks[3] == 1 && ranks[4] == 1 && ranks[5] == 0
  {
    assert ranks[2] == 0 && ranks[5] == 0 by { assert 2 in fronts[0] && 5 in fronts[0]; }
    forall p: nat | Edge(pop, dom, p, 1) ensures p == 2 { }
    FrontAbove(pop, dom, ranks, fronts, 1, 2);
    forall p: nat | Edge(pop, dom, p, 3) || Edge(pop, dom, p, 4) ensures p == 5 { }
    FrontAbove(pop, dom, ranks, fronts, 3, 5);
    FrontAbove(pop, dom, ranks, fronts, 4, 5);
  }

  /** The ranks of any outcome meeting the sort's contract with the intended comparison's edges. */
  lemma CorrectedRanks<T>(pop: seq<T>, dom: (T, T) -> Option<Ordering>, ranks: seq<nat>, fronts: seq<seq<nat>>)
    requires |pop| == 6 && NonDominatedFronts(pop, dom, ranks, fronts)
    requires forall p: nat, q: nat :: Edge(pop, dom, p, q) <==> CorrectedEdge(p, q)
    requires fronts[0] == [2, 5]
    ensures |ranks| == 6
    ensures ranks[0] == 2 && ranks[1] == 1 && ranks[2] == 0 && ranks[3] == 1 && ranks[4] == 1 && ranks[5] == 0
  {
    CorrectedMiddleRanks(pop, dom, ranks, fronts);
    forall p: nat | Edge(pop, dom, p, 0) ensures ranks[p] <= ranks[1] {
      assert p == 1 || p == 2 || p == 3 || p == 4 || p == 5;
    }
    FrontAbove(pop, dom, ranks, fronts, 0, 1);
  }

  /** A sequence of six is the display of its entries. */
  lemma SeqOfSix(r: seq<nat>)
    requires |r| == 6
    ensures r == [r[0], r[1], r[2], r[3], r[4], r[5]]
  {
  }

  /** An individual whose dominators all have rank below `r`, one of them exactly `r - 1`, has rank `r`. */
  lemma FrontAbove<T>(pop: seq<T>, dom: (T, T) -> Option<Ordering>, ranks: seq<nat>, fronts: seq<seq<nat>>, x: nat, d: nat)
    requires NonDominatedFronts(pop, dom, ranks, fronts)
    requires x < |pop| && Edge(pop, dom, d, x)
    requires forall p: nat :: Edge(pop, dom, p, x) ==> ranks[p] <= ranks[d]
    ensures ranks[x] == ranks[d] + 1
  {
    var k := ranks[x];
    assert x in fronts[k];
    var p :| p in fronts[k - 1] && Edge(pop, dom, p, x);
  }

  // ---------------------------------------------------------------------------
  // tests/tree_dom.rs, `membership_and_others`.

  /** One position of the three-position tuple `(usize, f64, DominationOrd<Reverse<BTreeMap<_, _>>>)`. */
  datatype Component = Count(n: nat) | Real(v: F64) | Sparse(m: DominationOrd<Reverse<seq<(int, int)>>>)

  /** `PartialOrd::partial_cmp` position by position; positions of different kinds never meet in a typed tuple. */
  function ComponentCmp(a: Component, b: Component): Option<Ordering>
  {
    match (a, b)
    case (Count(x), Count(y)) => IntCmp(x, y)
    case (Real(x), Real(y)) => F64Cmp(x, y)
    case (Sparse(x), Sparse(y)) => OrdPartialCmp(RevMapDom, x, y)
    case _ => None
  }

  /** `dominates` on the three-position tuples. */
  function MixedDom(a: seq<Component>, b: seq<Component>): Option<Ordering>
  {
    if |a| == |b| then TupleDominates(a, b, ComponentCmp) else None
  }

  /** The tuple `(0usize, 1.0, DominationOrd(m))` of the test. */
  function Mixed(m: Reverse<seq<(int, int)>>): seq<Component>
  {
    [Count(0), Real(Num(1.0)), Sparse(DominationOrd(m))]
  }

  const MixedPopulation: seq<seq<Component>> := seq(6, i requires 0 <= i < 6 => Mixed(TreePopulation[i]))

  /**
   * The two leading positions tie, so the tuple outcome is the map outcome,
   * except that incomparable maps give a tie rather than `None`.
   */
  lemma MixedOutcome(a: Reverse<seq<(int, int)>>, b: Reverse<seq<(int, int)>>)
    ensures MixedDom(Mixed(a), Mixed(b)) == if RevMapDom(a, b) == None then Some(Equal) else RevMapDom(a, b)
  {
    var x, y := Mixed(a), Mixed(b);
    TupleDominatesPareto(x, y, ComponentCmp);
    assert PartialCmpMany(x, y, ComponentCmp) == [Some(Equal), Some(Equal), RevMapDom(a, b)];
  }

  /** The test's domination table holds for the tuples exactly as for the bare maps. */
  lemma MixedDominations()
    ensures forall c, i :: 0 <= c < 6 && 0 <= i < 6 ==>
      (MixedDom(MixedPopulation[c], MixedPopulation[i]) == Some(Less) <==> i in TreeDominated[c])
  {
    TreeDominations();
    forall c, i | 0 <= c < 6 && 0 <= i < 6
      ensures MixedDom(MixedPopulation[c], MixedPopulation[i]) == Some(Less) <==> i in TreeDominated[c]
    {
      MixedOutcome(TreePopulation[c], TreePopulation[i]);
    }
  }

  /** The tuples record the same edges as the bare maps: from every non-empty map to the empty one. */
  lemma MixedEdges()
    ensures EdgesFromTop(MixedPopulation, MixedDom, TreeTop)
  {
    TreePairs();
    var pop := MixedPopulation;
    forall p: nat, q: nat ensures Edge(pop, MixedDom, p, q) <==> 0 < p < 6 && q == 0 {
      if p < 6 && q < 6 && p != q {
        if p < q {
          MixedOutcome(TreePopulation[p], TreePopulation[q]);
        } else {
          MixedOutcome(TreePopulation[q], TreePopulation[p]);
        }
      }
    }
  }

  /** The sort gives the tuples the fronts it gives the bare maps. */
  method SortMixed() returns (ranks: seq<nat>, fronts: seq<seq<nat>>)
    ensures fronts == [[1, 2, 3, 4, 5], [0]]
    ensures ranks == [1, 0, 0, 0, 0, 0]
  {
    MixedEdges();
    TopAcyclic(MixedPopulation, MixedDom, TreeTop);
    ranks, fronts := FastNonDominatedSort(MixedPopulation, MixedDom);
    TwoFronts(MixedPopulation, MixedDom, ranks, fronts, TreeTop, 1, 0);
    TreeFronts(ranks, fronts);
  }

  // ---------------------------------------------------------------------------
  // The smallest populations.

  /** A single individual is never dominated: one front holding it, with rank 0. */
  lemma SingleOutcome<T>(x: T, dom: (T, T) -> Option<Ordering>, ranks: seq<nat>, fronts: seq<seq<nat>>)
    requires NonDominatedFronts([x], dom, ranks, fronts)
    ensures ranks == [0] && fronts == [[0]]
  {
    SingleFront(x, dom, fronts[0]);
    SingleRanks(x, dom, ranks, fronts);
  }

  lemma SingleFront<T>(x: T, dom: (T, T) -> Option<Ordering>, f: seq<nat>)
    requires IsFirstFront([x], dom, f)
    ensures f == [0]
  {
    forall y: nat ensures y in f <==> y in [0] {
      if y == 0 {
        assert Dominators([x], dom, 0) == {};
      }
    }
    IncreasingUnique(f, [0]);
  }

  lemma SingleRanks<T>(x: T, dom: (T, T) -> Option<Ordering>, ranks: seq<nat>, fronts: seq<seq<nat>>)
    requires NonDominatedFronts([x], dom, ranks, fronts)
    requires fronts[0] == [0]
    ensures |fronts| == 1 && |ranks| == 1 && ranks[0] == 0
  {
    assert 0 in fronts[0];
    var k := |fronts| - 1;
    assert fronts[k][0] in fronts[k];
  }

  /** The sort of a one-individual population, whatever the dominance relation. */
  method SortSingle<T>(x: T, dom: (T, T) -> Option<Ordering>) returns (ranks: seq<nat>, fronts: seq<seq<nat>>)
    ensures ranks == [0] && fronts == [[0]]
  {
    AcyclicByLevel([x], dom, [0]);
    ranks, fronts := FastNonDominatedSort([x], dom);
    SingleOutcome(x, dom, ranks, fronts);
  }

  // ---------------------------------------------------------------------------
  // A population whose NaN objectives make the recorded edges cyclic.

  /** `dominates` on a three-objective `tuple_list![f64, f64, f64]`. */
  function Dom3(a: (F64, F64, F64), b: (F64, F64, F64)): Option<Ordering>
  {
    TupleDominates([a.0, a.1, a.2], [b.0, b.1, b.2], F64Cmp)
  }

  /** Each individual is better than the next in the one position where neither is NaN. */
  const CyclePopulation: seq<(F64, F64, F64)> :=
    [(Num(0.0), NaN, Num(1.0)), (Num(1.0), Num(0.0), NaN), (NaN, Num(1.0), Num(0.0))]

  /** The outcomes of the three pairs: 0 dominates 1, 1 dominates 2, and 0 is dominated by 2. */
  lemma CycleDominations()
    ensures Dom3(CyclePopulation[0], CyclePopulation[1]) == Some(Less)
    ensures Dom3(CyclePopulation[1], CyclePopulation[2]) == Some(Less)
    ensures Dom3(CyclePopulation[0], CyclePopulation[2]) == Some(Greater)
  {
    DominatesByPositions([Num(0.0), NaN, Num(1.0)], [Num(1.0), Num(0.0), NaN], [Some(Less), None, None]);
    DominatesByPositions([Num(1.0), Num(0.0), NaN], [NaN, Num(1.0), Num(0.0)], [None, Some(Less), None]);
    DominatesByPositions([Num(0.0), NaN, Num(1.0)], [NaN, Num(1.0), Num(0.0)], [None, None, Some(Greater)]);
  }

  /** The edges the pairwise phase records: `0 -> 1`, `1 -> 2` and `2 -> 0`. */
  lemma CycleEdges()
    ensures Edge(CyclePopulation, Dom3, 0, 1) && Edge(CyclePopulation, Dom3, 1, 2) && Edge(CyclePopulation, Dom3, 2, 0)
  {
    CycleDominations();
  }

  /**
   * Skipping NaN positions makes 0 dominate 1, 1 dominate 2 and 2 dominate
   * 0: everyone has a dominator, so the first front is empty, and the edges
   * form a cycle.
   */
  lemma NaNCycle()
    ensures 2 in Dominators(CyclePopulation, Dom3, 0)
    ensures 0 in Dominators(CyclePopulation, Dom3, 1)
    ensures 1 in Dominators(CyclePopulation, Dom3, 2)
    ensures !Acyclic(CyclePopulation, Dom3)
  {
    CycleEdges();
    TriangleCycle(CyclePopulation, Dom3, 0, 1, 2);
  }

  /** Three edges `a -> b -> c -> a` close a cycle. */
  lemma TriangleCycle<T>(pop: seq<T>, dom: (T, T) -> Option<Ordering>, a: nat, b: nat, c: nat)
    requires Edge(pop, dom, a, b) && Edge(pop, dom, b, c) && Edge(pop, dom, c, a)
    ensures !Acyclic(pop, dom)
  {
    var path := [a, b, c, a];
    assert IsPath(pop, dom, path) by {
      forall k | 0 <= k < |path| - 1 ensures Edge(pop, dom, path[k], path[k + 1]) {
        if k == 0 {
          assert path[k] == a && path[k + 1] == b;
        } else if k == 1 {
          assert path[k] == b && path[k + 1] == c;
        } else {
          assert path[k] == c && path[k + 1] == a;
        }
      }
    }
    CycleFromRepeat(pop, dom, path, 0, 3);
  }

  /** The sort that stops on an empty front leaves this population unranked. */
  method SortCycle() returns (ranks: seq<nat>, fronts: seq<seq<nat>>)
    ensures |ranks| == 3 && exists x :: 0 <= x < 3 && ranks[x] == UsizeMax
  {
    NaNCycle();
    ranks, fronts := StoppingNonDominatedSort(CyclePopulation, Dom3);
  }
}
