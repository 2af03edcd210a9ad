/**
 * Fast non-dominated sort (`fast_non_dominated_sort` in src/lib.rs), the
 * NSGA-II front-peeling algorithm of Deb et al. (2002).
 *
 * The population is a sequence `pop` and `dom` is its `Dom::dominates`; the
 * sort only ever asks `dom(pop[p], pop[q])` with `p < q`, and `Some(Less)`
 * means that `p` dominates `q`. The vectors `s`, `n` and `ranks` are arrays
 * updated in place; `front`, `next_front` and `fronts` are sequences that
 * grow by appending.
 */
module NonDominatedSort {
  import opened Orderings

  /** `usize::MAX`, the value `ranks` is pre-filled with (64-bit `usize`). */
  const UsizeMax: nat := 0xFFFF_FFFF_FFFF_FFFF

  /**
   * The pairwise phase records the edge `p -> q` ("p dominates q") when the
   * one comparison it makes of the pair, `dom(pop[min], pop[max])`, says so:
   * `Less` for the first index over the second, `Greater` for the second over
   * the first. `Equal` and `None` record nothing.
   */
  predicate Edge<T>(pop: seq<T>, dom: (T, T) -> Option<Ordering>, p: nat, q: nat)
  {
    p < |pop| && q < |pop| && p != q &&
    if p < q then dom(pop[p], pop[q]) == Some(Less) else dom(pop[q], pop[p]) == Some(Greater)
  }

  /** The individuals with a recorded edge into `q`. */
  function Dominators<T>(pop: seq<T>, dom: (T, T) -> Option<Ordering>, q: nat): set<nat>
  {
    set p: nat | p < |pop| && Edge(pop, dom, p, q)
  }

  ghost predicate IsPath<T>(pop: seq<T>, dom: (T, T) -> Option<Ordering>, path: seq<nat>)
  {
    forall k :: 0 <= k < |path| - 1 ==> Edge(pop, dom, path[k], path[k + 1])
  }

  /** No chain of recorded edges leads from an individual back to itself. */
  ghost predicate Acyclic<T>(pop: seq<T>, dom: (T, T) -> Option<Ordering>)
  {
    forall path :: |path| >= 2 && IsPath(pop, dom, path) ==> path[0] != path[|path| - 1]
  }

  predicate Increasing(s: seq<nat>)
  {
    forall a, b :: 0 <= a < b < |s| ==> s[a] < s[b]
  }

  /** Appending an entry above every present one keeps a sequence increasing. */
  lemma AppendIncreasing(s: seq<nat>, x: nat)
    requires Increasing(s) && forall y :: y in s ==> y < x
    ensures Increasing(s + [x])
  {
    var t := s + [x];
    forall a, b | 0 <= a < b < |t| ensures t[a] < t[b] {
      if b == |s| {
        assert t[a] == s[a] && s[a] in s;
      } else {
        assert t[a] == s[a] && t[b] == s[b];
      }
    }
  }

  predicate NoDup(s: seq<nat>)
  {
    forall a, b :: 0 <= a < b < |s| ==> s[a] != s[b]
  }

  /** `s[d]`, the domination list of `d`: the individuals `d` dominates, in increasing order. */
  ghost predicate IsDominationLists<T>(pop: seq<T>, dom: (T, T) -> Option<Ordering>, sq: seq<seq<nat>>)
  {
    |sq| == |pop| &&
    forall d :: 0 <= d < |sq| ==> Increasing(sq[d]) && forall x :: x in sq[d] <==> Edge(pop, dom, d, x)
  }

  /** Front 0: exactly the individuals without a recorded dominator, in increasing order. */
  ghost predicate IsFirstFront<T>(pop: seq<T>, dom: (T, T) -> Option<Ordering>, f: seq<nat>)
  {
    Increasing(f) && forall x: nat :: x in f <==> x < |pop| && Dominators(pop, dom, x) == {}
  }

  // ---------------------------------------------------------------------------
  // Acyclicity gives every non-empty set of individuals an undominated member.

  function Elems(s: seq<nat>): set<nat>
  {
    set x | x in s
  }

  lemma ElemsSnoc(s: seq<nat>, done: set<nat>, j: nat)
    requires j < |s|
    ensures done + Elems(s[..j + 1]) == (done + Elems(s[..j])) + {s[j]}
  {
    assert s[..j + 1] == s[..j] + [s[j]];
  }

  /** The members of a duplicate-free front from position `j` on are not among those walked before `j`. */
  lemma NotYetWalked(s: seq<nat>, done: set<nat>, j: nat)
    requires NoDup(s) && forall x :: x in s ==> x !in done
    ensures forall j' :: j <= j' < |s| ==> s[j'] !in done + Elems(s[..j])
  {
    forall j' | j <= j' < |s| ensures s[j'] !in Elems(s[..j]) {
      assert forall a :: 0 <= a < j ==> s[a] != s[j'];
    }
  }

  lemma {:induction false} DistinctCard(s: seq<nat>)
    requires NoDup(s)
    ensures |Elems(s)| == |s|
  {
    if |s| > 0 {
      var t := s[1..];
      assert NoDup(t) by {
        forall a, b | 0 <= a < b < |t| ensures t[a] != t[b] {
          assert t[a] == s[a + 1] && t[b] == s[b + 1];
        }
      }
      DistinctCard(t);
      assert Elems(s) == {s[0]} + Elems(t);
      assert s[0] !in Elems(t);
    }
  }

  lemma {:induction false} BoundedCard(a: set<nat>, n: nat)
    requires forall x :: x in a ==> x < n
    ensures |a| <= n
  {
    if n > 0 {
      var b := a - {n - 1};
      BoundedCard(b, n - 1);
      assert a <= b + {n - 1};
    } else {
      assert a == {};
    }
  }

  /** More than `n` entries below `n` repeat one of them. */
  lemma Pigeonhole(s: seq<nat>, n: nat)
    requires |s| > n && forall i :: 0 <= i < |s| ==> s[i] < n
    ensures exists a, b :: 0 <= a < b < |s| && s[a] == s[b]
  {
    if NoDup(s) {
      DistinctCard(s);
      BoundedCard(Elems(s), n);
      assert false;
    }
  }

  predicate HasDominatorIn<T>(pop: seq<T>, dom: (T, T) -> Option<Ordering>, S: set<nat>, q: nat)
  {
    exists p :: p in S && Edge(pop, dom, p, q)
  }

  /** When every member of `S` has a dominator in `S`, chains of any length run inside `S`. */
  lemma {:induction false} BackwardChain<T>(pop: seq<T>, dom: (T, T) -> Option<Ordering>, S: set<nat>, k: nat)
    returns (path: seq<nat>)
    requires S != {}
    requires forall q {:trigger HasDominatorIn(pop, dom, S, q)} :: q in S ==> HasDominatorIn(pop, dom, S, q)
    ensures |path| == k + 1 && IsPath(pop, dom, path)
    ensures forall i :: 0 <= i < |path| ==> path[i] in S
  {
    if k == 0 {
      var q :| q in S;
      path := [q];
    } else {
      var rest := BackwardChain(pop, dom, S, k - 1);
      assert HasDominatorIn(pop, dom, S, rest[0]);
      var p :| p in S && Edge(pop, dom, p, rest[0]);
      PrependPath(pop, dom, p, rest);
      path := [p] + rest;
      forall i | 0 <= i < |path| ensures path[i] in S {
        if i > 0 {
          assert path[i] == rest[i - 1];
        }
      }
    }
  }

  /** An edge into the head of a path extends it backwards. */
  lemma PrependPath<T>(pop: seq<T>, dom: (T, T) -> Option<Ordering>, p: nat, rest: seq<nat>)
    requires |rest| > 0 && IsPath(pop, dom, rest) && Edge(pop, dom, p, rest[0])
    ensures IsPath(pop, dom, [p] + rest)
  {
    var path := [p] + rest;
    forall i | 0 <= i < |path| - 1 ensures Edge(pop, dom, path[i], path[i + 1]) {
      if i > 0 {
        assert path[i] == rest[i - 1] && path[i + 1] == rest[i];
      }
    }
  }

  /** In an acyclic graph every non-empty set of individuals has a member no other member dominates. */
  lemma SourceExists<T>(pop: seq<T>, dom: (T, T) -> Option<Ordering>, S: set<nat>)
    requires Acyclic(pop, dom)
    requires S != {} && forall x :: x in S ==> x < |pop|
    ensures exists q :: q in S && forall p :: p in S ==> !Edge(pop, dom, p, q)
  {
    if forall q {:trigger HasDominatorIn(pop, dom, S, q)} :: q in S ==> HasDominatorIn(pop, dom, S, q) {
      var path := BackwardChain(pop, dom, S, |pop|);
      Pigeonhole(path, |pop|);
      var a, b :| 0 <= a < b < |path| && path[a] == path[b];
      CycleFromRepeat(pop, dom, path, a, b);
      assert false;
    }
  }

  /** A path that visits an individual twice contains a cycle. */
  lemma CycleFromRepeat<T>(pop: seq<T>, dom: (T, T) -> Option<Ordering>, path: seq<nat>, a: nat, b: nat)
    requires IsPath(pop, dom, path) && a < b < |path| && path[a] == path[b]
    ensures !Acyclic(pop, dom)
  {
    var cycle := path[a..b + 1];
    forall k | 0 <= k < |cycle| - 1 ensures Edge(pop, dom, cycle[k], cycle[k + 1]) {
      assert cycle[k] == path[a + k] && cycle[k + 1] == path[a + k + 1];
    }
    assert IsPath(pop, dom, cycle) && |cycle| >= 2 && cycle[0] == cycle[|cycle| - 1];
  }

  /** Along a path of edges that each raise `level`, the level rises from the first individual to the last. */
  lemma {:induction false} PathRises<T>(pop: seq<T>, dom: (T, T) -> Option<Ordering>, level: seq<nat>, path: seq<nat>)
    requires |level| == |pop| && forall p: nat, q: nat :: Edge(pop, dom, p, q) ==> level[p] < level[q]
    requires |path| >= 2 && IsPath(pop, dom, path)
    ensures path[0] < |pop| && path[|path| - 1] < |pop| && level[path[0]] < level[path[|path| - 1]]
  {
    assert Edge(pop, dom, path[0], path[1]);
    if |path| > 2 {
      var rest := path[1..];
      forall k | 0 <= k < |rest| - 1 ensures Edge(pop, dom, rest[k], rest[k + 1]) {
        assert rest[k] == path[k + 1] && rest[k + 1] == path[k + 2];
      }
      PathRises(pop, dom, level, rest);
    }
  }

  /** Edges that each raise a level never close a cycle. */
  lemma AcyclicByLevel<T>(pop: seq<T>, dom: (T, T) -> Option<Ordering>, level: seq<nat>)
    requires |level| == |pop| && forall p: nat, q: nat :: Edge(pop, dom, p, q) ==> level[p] < level[q]
    ensures Acyclic(pop, dom)
  {
    forall path | |path| >= 2 && IsPath(pop, dom, path) ensures path[0] != path[|path| - 1] {
      PathRises(pop, dom, level, path);
    }
  }

  // ---------------------------------------------------------------------------
  // The pairwise phase and front-0 seeding.

  /** The pair `{a, b}` has been compared once the outer loop is at `p` and the inner loop at `q`. */
  predicate PairDone(a: nat, b: nat, p: nat, q: nat)
  {
    var lo, hi := if a < b then a else b, if a < b then b else a;
    lo < p || (lo == p && hi < q)
  }

  /** The dominators of `x` whose pair with `x` has been compared. */
  function DoneDominators<T>(pop: seq<T>, dom: (T, T) -> Option<Ordering>, x: nat, p: nat, q: nat): set<nat>
  {
    set y: nat | y < |pop| && Edge(pop, dom, y, x) && PairDone(y, x, p, q)
  }

  /** Comparing the pair `(p, q)` adds at most that one edge. */
  lemma DoneDominatorsStep<T>(pop: seq<T>, dom: (T, T) -> Option<Ordering>, x: nat, p: nat, q: nat)
    requires p < q < |pop|
    ensures DoneDominators(pop, dom, x, p, q + 1)
         == DoneDominators(pop, dom, x, p, q)
            + (if x == q && Edge(pop, dom, p, q) then {p} else {})
            + (if x == p && Edge(pop, dom, q, p) then {q} else {})
    ensures x == q ==> p !in DoneDominators(pop, dom, x, p, q)
    ensures x == p ==> q !in DoneDominators(pop, dom, x, p, q)
  {
  }

  /** Once the inner loop of `p` has finished, the next outer state has compared the same pairs. */
  lemma DoneDominatorsRow<T>(pop: seq<T>, dom: (T, T) -> Option<Ordering>, x: nat, p: nat)
    requires p < |pop|
    ensures DoneDominators(pop, dom, x, p, |pop|) == DoneDominators(pop, dom, x, p + 1, p + 2)
    ensures DoneDominators(pop, dom, p, p, |pop|) == Dominators(pop, dom, p)
  {
  }

  /** At the start every pair is still to be compared; at the end every pair has been. */
  lemma DoneDominatorsEnds<T>(pop: seq<T>, dom: (T, T) -> Option<Ordering>, x: nat)
    ensures DoneDominators(pop, dom, x, 0, 1) == {}
    ensures DoneDominators(pop, dom, x, |pop|, |pop| + 1) == Dominators(pop, dom, x)
  {
  }

  /** `Option::unwrap_or`. */
  function UnwrapOr(o: Option<Ordering>, default: Ordering): (r: Ordering)
    ensures o.Some? ==> r == o.value
    ensures o.None? ==> r == default
  {
    match o
    case Some(v) => v
    case None => default
  }

  /**
   * The domination lists after the pairs before `(p, q)` have been compared:
   * `sq[d]` holds, in increasing order, the individuals `d` dominates among
   * the pairs compared so far.
   */
  ghost predicate ListsUpTo<T>(pop: seq<T>, dom: (T, T) -> Option<Ordering>, sq: seq<seq<nat>>, p: nat, q: nat)
  {
    |sq| == |pop| &&
    forall d :: 0 <= d < |sq| ==>
      Increasing(sq[d]) && forall x :: x in sq[d] <==> Edge(pop, dom, d, x) && PairDone(d, x, p, q)
  }

  /** The counts after the pairs before `(p, q)` have been compared. */
  ghost predicate CountsUpTo<T>(pop: seq<T>, dom: (T, T) -> Option<Ordering>, nq: seq<nat>, p: nat, q: nat)
  {
    |nq| == |pop| && forall x :: 0 <= x < |nq| ==> nq[x] == |DoneDominators(pop, dom, x, p, q)|
  }

  /** Lines 25-29: the outcome of comparing `p` with `q`, a missing outcome read as `Equal`. */
  function Compare<T>(pop: seq<T>, dom: (T, T) -> Option<Ordering>, p: nat, q: nat): (r: Ordering)
    requires p < q < |pop|
    ensures r == Less <==> Edge(pop, dom, p, q)
    ensures r == Greater <==> Edge(pop, dom, q, p)
  {
    UnwrapOr(dom(pop[p], pop[q]), Equal)
  }

  /** The lists after comparing `(p, q)`: the dominator's list gains the dominated index. */
  function RecordLists(sq: seq<seq<nat>>, c: Ordering, p: nat, q: nat): (r: seq<seq<nat>>)
    requires p < |sq| && q < |sq|
    ensures |r| == |sq|
    ensures forall d :: 0 <= d < |sq| ==> sq[d] <= r[d]
    ensures forall d, x :: 0 <= d < |sq| ==>
      (x in r[d] <==> x in sq[d] || (c == Less && d == p && x == q) || (c == Greater && d == q && x == p))
  {
    match c
    case Less => sq[p := sq[p] + [q]]
    case Equal => sq
    case Greater => sq[q := sq[q] + [p]]
  }

  /** Comparing `(p, q)` keeps the lists exact for the pairs compared so far. */
  lemma ListsStep<T>(pop: seq<T>, dom: (T, T) -> Option<Ordering>, sq: seq<seq<nat>>, p: nat, q: nat)
    requires p < q < |pop| && ListsUpTo(pop, dom, sq, p, q)
    ensures ListsUpTo(pop, dom, RecordLists(sq, Compare(pop, dom, p, q), p, q), p, q + 1)
  {
    var c := Compare(pop, dom, p, q);
    var sq' := RecordLists(sq, c, p, q);
    forall d | 0 <= d < |sq'|
      ensures Increasing(sq'[d]) && forall x :: x in sq'[d] <==> Edge(pop, dom, d, x) && PairDone(d, x, p, q + 1)
    {
      if c == Less && d == p {
        assert forall y :: y in sq[p] ==> y < q;
        AppendIncreasing(sq[p], q);
      } else if c == Greater && d == q {
        assert forall y :: y in sq[q] ==> y < p;
        AppendIncreasing(sq[q], p);
      }
    }
  }

  /** Comparing `(p, q)` keeps the counts exact for the pairs compared so far. */
  lemma CountsStep<T>(pop: seq<T>, dom: (T, T) -> Option<Ordering>, nq: seq<nat>, p: nat, q: nat, nq': seq<nat>)
    requires p < q < |pop| && CountsUpTo(pop, dom, nq, p, q)
    requires nq' == match Compare(pop, dom, p, q)
                    case Less => nq[q := nq[q] + 1]
                    case Equal => nq
                    case Greater => nq[p := nq[p] + 1]
    ensures CountsUpTo(pop, dom, nq', p, q + 1)
  {
    forall x | 0 <= x < |nq| ensures nq'[x] == |DoneDominators(pop, dom, x, p, q + 1)| {
      DoneDominatorsStep(pop, dom, x, p, q);
    }
  }

  /** Once row `p` is finished, the state is that before row `p + 1`. */
  lemma RowStep<T>(pop: seq<T>, dom: (T, T) -> Option<Ordering>, sq: seq<seq<nat>>, nq: seq<nat>, p: nat)
    requires p < |pop| && ListsUpTo(pop, dom, sq, p, |pop|) && CountsUpTo(pop, dom, nq, p, |pop|)
    ensures ListsUpTo(pop, dom, sq, p + 1, p + 2) && CountsUpTo(pop, dom, nq, p + 1, p + 2)
    ensures nq[p] == |Dominators(pop, dom, p)|
  {
    forall x | 0 <= x < |pop| {
      DoneDominatorsRow(pop, dom, x, p);
    }
  }

  /** Front 0 after the rows before `p`: the undominated individuals among them, in increasing order. */
  ghost predicate FrontUpTo<T>(pop: seq<T>, dom: (T, T) -> Option<Ordering>, front: seq<nat>, p: nat)
  {
    Increasing(front) && forall x: nat :: x in front <==> x < p && Dominators(pop, dom, x) == {}
  }

  /** The ranks after the rows before `p`: 0 for the undominated individuals among them, `usize::MAX` otherwise. */
  ghost predicate RanksUpTo<T>(pop: seq<T>, dom: (T, T) -> Option<Ordering>, rq: seq<nat>, p: nat)
  {
    |rq| == |pop| &&
    forall x :: 0 <= x < |rq| ==> rq[x] == if x < p && Dominators(pop, dom, x) == {} then 0 else UsizeMax
  }

  /** Lines 33-36: after its row, `p` joins front 0 with rank 0 exactly when nothing dominates it. */
  lemma FrontStep<T>(pop: seq<T>, dom: (T, T) -> Option<Ordering>, front: seq<nat>, rq: seq<nat>, p: nat, zero: bool)
    requires p < |pop| && FrontUpTo(pop, dom, front, p) && RanksUpTo(pop, dom, rq, p)
    requires zero <==> Dominators(pop, dom, p) == {}
    ensures FrontUpTo(pop, dom, if zero then front + [p] else front, p + 1)
    ensures RanksUpTo(pop, dom, if zero then rq[p := 0] else rq, p + 1)
  {
    if zero {
      AppendIncreasing(front, p);
    }
  }

  /** Before the first row nothing is recorded. */
  lemma PairwiseStart<T>(pop: seq<T>, dom: (T, T) -> Option<Ordering>, sq: seq<seq<nat>>, nq: seq<nat>)
    requires |sq| == |pop| && forall d :: 0 <= d < |pop| ==> sq[d] == []
    requires |nq| == |pop| && forall x :: 0 <= x < |pop| ==> nq[x] == 0
    ensures ListsUpTo(pop, dom, sq, 0, 1) && CountsUpTo(pop, dom, nq, 0, 1)
  {
    forall x | 0 <= x < |pop| {
      DoneDominatorsEnds(pop, dom, x);
    }
  }

  /** After the last row every edge is recorded and counted, and front 0 and the ranks are complete. */
  lemma PairwiseDone<T>(pop: seq<T>, dom: (T, T) -> Option<Ordering>, sq: seq<seq<nat>>, nq: seq<nat>,
                        rq: seq<nat>, front: seq<nat>)
    requires ListsUpTo(pop, dom, sq, |pop|, |pop| + 1) && CountsUpTo(pop, dom, nq, |pop|, |pop| + 1)
    requires FrontUpTo(pop, dom, front, |pop|) && RanksUpTo(pop, dom, rq, |pop|)
    ensures IsDominationLists(pop, dom, sq)
    ensures forall x :: 0 <= x < |pop| ==> nq[x] == |Dominators(pop, dom, x)|
    ensures IsFirstFront(pop, dom, front)
    ensures forall x :: 0 <= x < |pop| ==> rq[x] == if Dominators(pop, dom, x) == {} then 0 else UsizeMax
  {
    forall x | 0 <= x < |pop| {
      DoneDominatorsEnds(pop, dom, x);
    }
  }

  /**
   * Lines 17-37: allocate `s`, `n` and `ranks`, compare every pair `p < q`
   * once, record the edges, and put each `p` whose count is still 0 once all
   * its pairs are compared into front 0 with rank 0.
   */
  method Pairwise<T>(pop: seq<T>, dom: (T, T) -> Option<Ordering>)
    returns (s: array<seq<nat>>, n: array<nat>, ranks: array<nat>, front: seq<nat>)
    ensures fresh(s) && fresh(n) && fresh(ranks) && n != ranks
    ensures s.Length == n.Length == ranks.Length == |pop|
    ensures IsDominationLists(pop, dom, s[..])
    ensures forall x :: 0 <= x < |pop| ==> n[x] == |Dominators(pop, dom, x)|
    ensures IsFirstFront(pop, dom, front)
    ensures forall x :: 0 <= x < |pop| ==> ranks[x] == if Dominators(pop, dom, x) == {} then 0 else UsizeMax
  {
    var len := |pop|;
    s := new seq<nat>[len](_ => []);
    n := new nat[len](_ => 0);
    ranks := new nat[len](_ => UsizeMax);
    PairwiseStart(pop, dom, s[..], n[..]);
    front := CompareAll(pop, dom, s, n, ranks);
    PairwiseDone(pop, dom, s[..], n[..], ranks[..], front);
  }

  /** Lines 22-37: the rows of the pairwise phase, one per individual `p`. */
  method CompareAll<T>(pop: seq<T>, dom: (T, T) -> Option<Ordering>, s: array<seq<nat>>, n: array<nat>, ranks: array<nat>)
    returns (front: seq<nat>)
    requires ListsUpTo(pop, dom, s[..], 0, 1) && CountsUpTo(pop, dom, n[..], 0, 1)
    requires n != ranks && ranks.Length == |pop| && forall x :: 0 <= x < ranks.Length ==> ranks[x] == UsizeMax
    modifies s, n, ranks
    ensures ListsUpTo(pop, dom, s[..], |pop|, |pop| + 1) && CountsUpTo(pop, dom, n[..], |pop|, |pop| + 1)
    ensures FrontUpTo(pop, dom, front, |pop|) && RanksUpTo(pop, dom, ranks[..], |pop|)
  {
    front := [];
    for p := 0 to |pop|
      invariant ListsUpTo(pop, dom, s[..], p, p + 1) && CountsUpTo(pop, dom, n[..], p, p + 1)
      invariant FrontUpTo(pop, dom, front, p) && RanksUpTo(pop, dom, ranks[..], p)
    {
      front := CompareOne(pop, dom, s, n, ranks, p, front);
    }
  }

  /** Lines 23-36: the row of `p`, then `p` joins front 0 when nothing dominates it. */
  method CompareOne<T>(pop: seq<T>, dom: (T, T) -> Option<Ordering>, s: array<seq<nat>>, n: array<nat>, ranks: array<nat>,
                       p: nat, front: seq<nat>)
    returns (front': seq<nat>)
    requires n != ranks && p < |pop|
    requires ListsUpTo(pop, dom, s[..], p, p + 1) && CountsUpTo(pop, dom, n[..], p, p + 1)
    requires FrontUpTo(pop, dom, front, p) && RanksUpTo(pop, dom, ranks[..], p)
    modifies s, n, ranks
    ensures ListsUpTo(pop, dom, s[..], p + 1, p + 2) && CountsUpTo(pop, dom, n[..], p + 1, p + 2)
    ensures FrontUpTo(pop, dom, front', p + 1) && RanksUpTo(pop, dom, ranks[..], p + 1)
  {
    CompareRow(pop, dom, s, n, p);
    FrontStep(pop, dom, front, ranks[..], p, n[p] == 0);
    front' := front;
    if n[p] == 0 {
      ranks[p] := 0;
      front' := front + [p];
    }
  }

  /** Lines 23-32: compare `p` with every later individual; afterwards `n[p]` counts all dominators of `p`. */
  method CompareRow<T>(pop: seq<T>, dom: (T, T) -> Option<Ordering>, s: array<seq<nat>>, n: array<nat>, p: nat)
    requires p < |pop| && ListsUpTo(pop, dom, s[..], p, p + 1) && CountsUpTo(pop, dom, n[..], p, p + 1)
    modifies s, n
    ensures ListsUpTo(pop, dom, s[..], p + 1, p + 2) && CountsUpTo(pop, dom, n[..], p + 1, p + 2)
    ensures n[p] == |Dominators(pop, dom, p)|
  {
    for q := p + 1 to |pop|
      invariant ListsUpTo(pop, dom, s[..], p, q) && CountsUpTo(pop, dom, n[..], p, q)
    {
      PairwiseStep(pop, dom, s, n, p, q);
    }
    RowStep(pop, dom, s[..], n[..], p);
  }

  /** The body of the inner loop at `(p, q)`: one comparison, at most one recorded edge. */
  method PairwiseStep<T>(pop: seq<T>, dom: (T, T) -> Option<Ordering>, s: array<seq<nat>>, n: array<nat>, p: nat, q: nat)
    requires p < q < |pop| && ListsUpTo(pop, dom, s[..], p, q) && CountsUpTo(pop, dom, n[..], p, q)
    modifies s, n
    ensures ListsUpTo(pop, dom, s[..], p, q + 1) && CountsUpTo(pop, dom, n[..], p, q + 1)
  {
    ghost var sq, nq := s[..], n[..];
    ListsStep(pop, dom, sq, p, q);
    match UnwrapOr(dom(pop[p], pop[q]), Equal) {
      case Equal =>
      case Less =>
        s[p] := s[p] + [q];
        n[q] := n[q] + 1;
      case Greater =>
        s[q] := s[q] + [p];
        n[p] := n[p] + 1;
    }
    assert s[..] == RecordLists(sq, Compare(pop, dom, p, q), p, q);
    CountsStep(pop, dom, nq, p, q, n[..]);
  }

  // ---------------------------------------------------------------------------
  // The peeling phase.

  /** The individuals whose rank is below `k`: those listed in fronts `0..k`. */
  function Below(rq: seq<nat>, k: nat): set<nat>
  {
    set x: nat | x < |rq| && rq[x] < k
  }

  /** The total length of the fronts in `fs`. */
  function Size(fs: seq<seq<nat>>): nat
  {
    if |fs| == 0 then 0 else Size(fs[..|fs| - 1]) + |fs[|fs| - 1]|
  }

  lemma SizeSnoc(fs: seq<seq<nat>>, f: seq<nat>)
    ensures Size(fs + [f]) == Size(fs) + |f|
  {
    assert (fs + [f])[..|fs|] == fs;
  }

  /** The individuals whose rank is still `usize::MAX`. */
  function Unassigned(rq: seq<nat>): set<nat>
  {
    set x: nat | x < |rq| && rq[x] == UsizeMax
  }

  /**
   * The last position in the front `f` of an individual that dominates `x`
   * (-1 when there is none): while `f` is peeled, `x` joins the next front
   * when that individual's domination list is walked.
   */
  function LastDom<T>(pop: seq<T>, dom: (T, T) -> Option<Ordering>, f: seq<nat>, x: nat): (r: int)
    ensures -1 <= r < |f|
    ensures r >= 0 ==> Edge(pop, dom, f[r], x)
    ensures forall j :: r < j < |f| ==> !Edge(pop, dom, f[j], x)
  {
    if |f| == 0 then -1
    else if Edge(pop, dom, f[|f| - 1], x) then |f| - 1
    else LastDom(pop, dom, f[..|f| - 1], x)
  }

  /**
   * The order in which peeling `prev` lists the next front: by the position
   * of the last dominator in `prev`, and for the same dominator by index
   * (domination lists are increasing).
   */
  predicate DiscoveredBefore<T>(pop: seq<T>, dom: (T, T) -> Option<Ordering>, prev: seq<nat>, x: nat, y: nat)
  {
    var lx, ly := LastDom(pop, dom, prev, x), LastDom(pop, dom, prev, y);
    lx < ly || (lx == ly && x < y)
  }

  /** Every listed individual carries the index of its front as rank, and every ranked one is listed there. */
  ghost predicate RanksMatch(len: nat, rq: seq<nat>, fronts: seq<seq<nat>>)
  {
    |rq| == len &&
    (forall k :: 0 <= k < |fronts| ==> NoDup(fronts[k]) && forall x :: x in fronts[k] ==> x < len && rq[x] == k) &&
    (forall x :: 0 <= x < len && rq[x] != UsizeMax ==> rq[x] < |fronts| && x in fronts[rq[x]])
  }

  /**
   * Front `f`, the `k`-th, holds individuals whose dominators all have ranks
   * below `k`; for `k > 0` it is non-empty, each member has a dominator in
   * the previous front `prev`, and its members appear in discovery order.
   */
  ghost predicate Layer<T>(pop: seq<T>, dom: (T, T) -> Option<Ordering>, rq: seq<nat>, prev: seq<nat>, f: seq<nat>, k: nat)
    requires |rq| == |pop|
  {
    (forall x :: x in f ==> forall p :: p in Dominators(pop, dom, x) ==> rq[p] < k) &&
    (k > 0 ==>
      |f| > 0 &&
      (forall x :: x in f ==> LastDom(pop, dom, prev, x) >= 0) &&
      (forall a, b :: 0 <= a < b < |f| ==> DiscoveredBefore(pop, dom, prev, f[a], f[b])))
  }

  /** The front before the `k`-th (empty for front 0). */
  function Prev(fronts: seq<seq<nat>>, k: nat): seq<nat>
  {
    if 0 < k <= |fronts| then fronts[k - 1] else []
  }

  ghost predicate Layered<T>(pop: seq<T>, dom: (T, T) -> Option<Ordering>, rq: seq<nat>, fronts: seq<seq<nat>>)
  {
    |rq| == |pop| &&
    forall k :: 0 <= k < |fronts| ==> Layer(pop, dom, rq, Prev(fronts, k), fronts[k], k)
  }

  /** `n[x]` counts the dominators of `x` outside `consumed`. */
  ghost predicate Counted<T>(pop: seq<T>, dom: (T, T) -> Option<Ordering>, nq: seq<nat>, consumed: set<nat>)
  {
    |nq| == |pop| && forall x :: 0 <= x < |pop| ==> nq[x] == |Dominators(pop, dom, x) - consumed|
  }

  /** `x` is ranked exactly when all its dominators are in `consumed`. */
  ghost predicate RankedIff<T>(pop: seq<T>, dom: (T, T) -> Option<Ordering>, rq: seq<nat>, consumed: set<nat>)
  {
    |rq| == |pop| && forall x :: 0 <= x < |pop| ==> (rq[x] != UsizeMax <==> Dominators(pop, dom, x) <= consumed)
  }

  /**
   * The state at the head of the peeling loop, when every front but the last,
   * `fronts[i]`, has been peeled: `n[x]` counts the dominators of `x` outside those
   * fronts, and `x` is ranked exactly when that count has reached 0.
   */
  ghost predicate Peeled<T>(pop: seq<T>, dom: (T, T) -> Option<Ordering>, nq: seq<nat>, rq: seq<nat>, fronts: seq<seq<nat>>, i: nat)
  {
    i + 1 == |fronts| &&
    RanksMatch(|pop|, rq, fronts) &&
    Layered(pop, dom, rq, fronts) &&
    Counted(pop, dom, nq, Below(rq, i)) &&
    RankedIff(pop, dom, rq, Below(rq, i))
  }

  /** `n[x]` counts the dominators of `x` whose edge to `x` has not been walked yet. */
  ghost predicate PeelCounts<T>(pop: seq<T>, dom: (T, T) -> Option<Ordering>, nq: seq<nat>,
                                consumed: set<nat>, p: nat, walked: seq<nat>)
  {
    |nq| == |pop| &&
    forall x :: 0 <= x < |pop| ==>
      nq[x] == if x in walked then |Dominators(pop, dom, x) - (consumed + {p})| else |Dominators(pop, dom, x) - consumed|
  }

  /** Ranked individuals keep their rank; an unranked one joins `next` with rank `level` when its count reaches 0. */
  ghost predicate PeelRanks<T>(pop: seq<T>, dom: (T, T) -> Option<Ordering>, nq: seq<nat>, rq: seq<nat>, r0: seq<nat>,
                               consumed: set<nat>, next: seq<nat>, level: nat)
  {
    |nq| == |pop| && |rq| == |pop| && |r0| == |pop| && NoDup(next) &&
    (forall x :: 0 <= x < |pop| && r0[x] != UsizeMax ==>
      rq[x] == r0[x] && Dominators(pop, dom, x) <= consumed) &&
    (forall x :: 0 <= x < |pop| && r0[x] == UsizeMax ==>
      (x in next <==> nq[x] == 0) && rq[x] == if x in next then level else UsizeMax) &&
    (forall x :: x in next ==> x < |pop| && r0[x] == UsizeMax)
  }

  /** `next` is in discovery order, and holds no individual whose last dominator in `f` is still ahead. */
  ghost predicate PeelOrder<T>(pop: seq<T>, dom: (T, T) -> Option<Ordering>, walked: seq<nat>, f: seq<nat>, j: nat, next: seq<nat>)
  {
    (forall x :: x in next ==>
      LastDom(pop, dom, f, x) < j || (LastDom(pop, dom, f, x) == j && x in walked)) &&
    (forall a, b :: 0 <= a < b < |next| ==> DiscoveredBefore(pop, dom, f, next[a], next[b]))
  }

  /**
   * The state inside the peeling of front `f`: the individuals in `consumed`
   * have had their domination lists walked, and of `p`'s list the prefix
   * `walked`. `r0` are the ranks before this front was peeled.
   */
  ghost predicate Peeling<T>(pop: seq<T>, dom: (T, T) -> Option<Ordering>, nq: seq<nat>, rq: seq<nat>, r0: seq<nat>,
                             consumed: set<nat>, p: nat, walked: seq<nat>, f: seq<nat>, j: nat,
                             next: seq<nat>, level: nat)
  {
    PeelCounts(pop, dom, nq, consumed, p, walked) &&
    PeelRanks(pop, dom, nq, rq, r0, consumed, next, level) &&
    PeelOrder(pop, dom, walked, f, j, next)
  }

  /** No member of `a` remains outside `b` exactly when `a` is a subset of `b`. */
  lemma NoneLeft(a: set<nat>, b: set<nat>)
    ensures |a - b| == 0 <==> a <= b
  {
    if !(a <= b) {
      var y :| y in a && y !in b;
      assert y in a - b;
    }
  }

  lemma CardRemove(a: set<nat>, p: nat)
    requires p in a
    ensures |a - {p}| == |a| - 1
  {
    var b := a - {p};
    assert a == b + {p};
  }

  /** Before the decrement of `q = sp[m]`: the count of `q` is positive and `q` is not yet ranked. */
  lemma EdgeBefore<T>(pop: seq<T>, dom: (T, T) -> Option<Ordering>, sp: seq<nat>, m: nat, nq: seq<nat>, rq: seq<nat>,
                      f: seq<nat>, j: nat, consumed: set<nat>, r0: seq<nat>, level: nat, next: seq<nat>)
    requires j < |f| && f[j] < |pop| && f[j] !in consumed
    requires m < |sp| && Increasing(sp) && forall x :: x in sp <==> Edge(pop, dom, f[j], x)
    requires Peeling(pop, dom, nq, rq, r0, consumed, f[j], sp[..m], f, j, next, level)
    ensures sp[m] < |pop| && nq[sp[m]] > 0 && r0[sp[m]] == UsizeMax && sp[m] !in next && sp[m] !in sp[..m]
    ensures |Dominators(pop, dom, sp[m]) - (consumed + {f[j]})| == nq[sp[m]] - 1
  {
    var p, q := f[j], sp[m];
    assert sp[m] in sp;
    assert Edge(pop, dom, p, q) && q < |pop| && p in Dominators(pop, dom, q);
    assert q !in sp[..m] by {
      forall a | 0 <= a < m ensures sp[a] != q {
        assert sp[a] < sp[m];
      }
    }
    var before := Dominators(pop, dom, q) - consumed;
    assert p in before;
    CardRemove(before, p);
    assert Dominators(pop, dom, q) - (consumed + {p}) == before - {p};
  }

  lemma EdgeCounts<T>(pop: seq<T>, dom: (T, T) -> Option<Ordering>, sp: seq<nat>, m: nat, nq: seq<nat>,
                      consumed: set<nat>, p: nat, nq': seq<nat>)
    requires m < |sp| && sp[m] < |pop| && PeelCounts(pop, dom, nq, consumed, p, sp[..m])
    requires sp[m] !in sp[..m] && nq[sp[m]] > 0
    requires |Dominators(pop, dom, sp[m]) - (consumed + {p})| == nq[sp[m]] - 1
    requires nq' == nq[sp[m] := nq[sp[m]] - 1]
    ensures PeelCounts(pop, dom, nq', consumed, p, sp[..m + 1])
  {
    assert sp[..m + 1] == sp[..m] + [sp[m]];
  }

  lemma EdgeRanks<T>(pop: seq<T>, dom: (T, T) -> Option<Ordering>, q: nat, nq: seq<nat>, rq: seq<nat>, r0: seq<nat>,
                     consumed: set<nat>, next: seq<nat>, level: nat, nq': seq<nat>, rq': seq<nat>, next': seq<nat>)
    requires PeelRanks(pop, dom, nq, rq, r0, consumed, next, level)
    requires q < |pop| && nq[q] > 0 && r0[q] == UsizeMax && q !in next
    requires nq' == nq[q := nq[q] - 1]
    requires rq' == if nq'[q] == 0 then rq[q := level] else rq
    requires next' == if nq'[q] == 0 then next + [q] else next
    ensures PeelRanks(pop, dom, nq', rq', r0, consumed, next', level)
  {
  }

  lemma EdgeOrder<T>(pop: seq<T>, dom: (T, T) -> Option<Ordering>, sp: seq<nat>, m: nat, f: seq<nat>, j: nat,
                     consumed: set<nat>, next: seq<nat>, joins: bool, next': seq<nat>)
    requires j < |f| && NoDup(f) && forall j' :: j <= j' < |f| ==> f[j'] !in consumed
    requires m < |sp| && Increasing(sp) && forall x :: x in sp <==> Edge(pop, dom, f[j], x)
    requires PeelOrder(pop, dom, sp[..m], f, j, next)
    requires joins ==> Dominators(pop, dom, sp[m]) <= consumed + {f[j]}
    requires next' == if joins then next + [sp[m]] else next
    ensures PeelOrder(pop, dom, sp[..m + 1], f, j, next')
  {
    var p, q := f[j], sp[m];
    assert sp[..m + 1] == sp[..m] + [q];
    if joins {
      forall j' | j < j' < |f| ensures !Edge(pop, dom, f[j'], q) {
        assert f[j'] != p && f[j'] !in consumed;
      }
      assert Edge(pop, dom, p, q) by { assert q in sp; }
      assert LastDom(pop, dom, f, q) == j;
      forall x | x in next && LastDom(pop, dom, f, x) == j ensures x < q {
        assert x in sp[..m];
        var a :| 0 <= a < m && sp[a] == x;
      }
    }
  }

  /** Lines 50-55 for one entry `q` of `p`'s domination list. */
  method PeelEdge<T>(ghost pop: seq<T>, ghost dom: (T, T) -> Option<Ordering>, sp: seq<nat>, m: nat, n: array<nat>, ranks: array<nat>,
                     f: seq<nat>, j: nat, ghost consumed: set<nat>, ghost r0: seq<nat>, level: nat, next0: seq<nat>)
    returns (next: seq<nat>)
    requires n != ranks && level != UsizeMax
    requires j < |f| && f[j] < |pop| && NoDup(f)
    requires forall j' :: j <= j' < |f| ==> f[j'] !in consumed
    requires m < |sp| && Increasing(sp) && forall x :: x in sp <==> Edge(pop, dom, f[j], x)
    requires Peeling(pop, dom, n[..], ranks[..], r0, consumed, f[j], sp[..m], f, j, next0, level)
    modifies n, ranks
    ensures Peeling(pop, dom, n[..], ranks[..], r0, consumed, f[j], sp[..m + 1], f, j, next, level)
  {
    var q := sp[m];
    ghost var nq, rq := n[..], ranks[..];
    EdgeBefore(pop, dom, sp, m, nq, rq, f, j, consumed, r0, level, next0);
    n[q] := n[q] - 1;
    next := next0;
    if n[q] == 0 {
      ranks[q] := level;
      next := next0 + [q];
    }
    EdgeCounts(pop, dom, sp, m, nq, consumed, f[j], n[..]);
    EdgeRanks(pop, dom, q, nq, rq, r0, consumed, next0, level, n[..], ranks[..], next);
    EdgeOrder(pop, dom, sp, m, f, j, consumed, next0, n[q] == 0, next);
  }

  /** Once the whole list of `p = f[j]` is walked, `p` counts as consumed. */
  lemma RowDone<T>(pop: seq<T>, dom: (T, T) -> Option<Ordering>, sp: seq<nat>, nq: seq<nat>, rq: seq<nat>, r0: seq<nat>,
                   consumed: set<nat>, f: seq<nat>, j: nat, next: seq<nat>, level: nat)
    requires j < |f| && forall x :: x in sp <==> Edge(pop, dom, f[j], x)
    requires Peeling(pop, dom, nq, rq, r0, consumed, f[j], sp, f, j, next, level)
    ensures Peeling(pop, dom, nq, rq, r0, consumed + {f[j]}, 0, [], f, j + 1, next, level)
  {
    var p := f[j];
    forall x | 0 <= x < |pop|
      ensures nq[x] == |Dominators(pop, dom, x) - (consumed + {p})|
    {
      if x !in sp {
        assert Dominators(pop, dom, x) - consumed == Dominators(pop, dom, x) - (consumed + {p});
      }
    }
  }

  /** Lines 50-56: walk the domination list `sp` of `p = f[j]`, decrementing counts. */
  method PeelEdges<T>(ghost pop: seq<T>, ghost dom: (T, T) -> Option<Ordering>, sp: seq<nat>, n: array<nat>, ranks: array<nat>,
                      f: seq<nat>, j: nat, ghost consumed: set<nat>, ghost r0: seq<nat>, level: nat, next0: seq<nat>)
    returns (next: seq<nat>)
    requires n != ranks && level != UsizeMax
    requires j < |f| && f[j] < |pop| && NoDup(f)
    requires forall j' :: j <= j' < |f| ==> f[j'] !in consumed
    requires Increasing(sp) && forall x :: x in sp <==> Edge(pop, dom, f[j], x)
    requires Peeling(pop, dom, n[..], ranks[..], r0, consumed, f[j], [], f, j, next0, level)
    modifies n, ranks
    ensures Peeling(pop, dom, n[..], ranks[..], r0, consumed + {f[j]}, 0, [], f, j + 1, next, level)
  {
    next := next0;
    assert sp[..0] == [];
    for m := 0 to |sp|
      invariant Peeling(pop, dom, n[..], ranks[..], r0, consumed, f[j], sp[..m], f, j, next, level)
    {
      next := PeelEdge(pop, dom, sp, m, n, ranks, f, j, consumed, r0, level, next);
    }
    assert sp[..|sp|] == sp;
    RowDone(pop, dom, sp, n[..], ranks[..], r0, consumed, f, j, next, level);
  }

  /** The state at the start of peeling the last front `f = fronts[i]`. */
  lemma PeelStart<T>(pop: seq<T>, dom: (T, T) -> Option<Ordering>, nq: seq<nat>, rq: seq<nat>,
                     fronts: seq<seq<nat>>, i: nat, f: seq<nat>)
    requires i + 1 == |fronts| && f == fronts[i]
    requires RanksMatch(|pop|, rq, fronts)
    requires Counted(pop, dom, nq, Below(rq, i)) && RankedIff(pop, dom, rq, Below(rq, i))
    ensures Peeling(pop, dom, nq, rq, rq, Below(rq, i), 0, [], f, 0, [], i + 1)
    ensures forall x :: x in f ==> x < |pop| && x !in Below(rq, i)
    ensures NoDup(f)
  {
    var done := Below(rq, i);
    forall x | 0 <= x < |pop| && rq[x] == UsizeMax ensures nq[x] != 0 {
      assert !(Dominators(pop, dom, x) <= done);
      var y :| y in Dominators(pop, dom, x) && y !in done;
      assert y in Dominators(pop, dom, x) - done;
    }
    assert PeelCounts(pop, dom, nq, done, 0, []);
    assert PeelRanks(pop, dom, nq, rq, rq, done, [], i + 1);
  }

  /** After peeling `fronts[i]`, the individuals ranked below `i + 1` are the consumed ones. */
  lemma PeelEndBelow<T>(pop: seq<T>, dom: (T, T) -> Option<Ordering>, nq: seq<nat>, r0: seq<nat>, rq: seq<nat>,
                        fronts: seq<seq<nat>>, i: nat, next: seq<nat>)
    requires i + 1 == |fronts| && i + 1 < UsizeMax
    requires RanksMatch(|pop|, r0, fronts)
    requires PeelRanks(pop, dom, nq, rq, r0, Below(r0, i) + Elems(fronts[i]), next, i + 1)
    ensures Below(rq, i + 1) == Below(r0, i) + Elems(fronts[i])
  {
    forall x | x in Below(r0, i) + Elems(fronts[i]) ensures x in Below(rq, i + 1) {
      if x in Elems(fronts[i]) {
        assert x < |pop| && r0[x] == i;
      }
    }
    forall x | x in Below(rq, i + 1) ensures x in Below(r0, i) + Elems(fronts[i]) {
      if r0[x] != UsizeMax {
        assert rq[x] == r0[x] && x in fronts[r0[x]];
      }
    }
  }

  lemma PeelEndRanks<T>(pop: seq<T>, dom: (T, T) -> Option<Ordering>, r0: seq<nat>, consumed: set<nat>,
                        fronts: seq<seq<nat>>, nq: seq<nat>, rq: seq<nat>, next: seq<nat>)
    requires |fronts| < UsizeMax && RanksMatch(|pop|, r0, fronts)
    requires PeelRanks(pop, dom, nq, rq, r0, consumed, next, |fronts|)
    ensures RanksMatch(|pop|, rq, fronts + [next])
  {
    var fronts' := fronts + [next];
    forall k | 0 <= k < |fronts'|
      ensures NoDup(fronts'[k]) && forall x :: x in fronts'[k] ==> x < |pop| && rq[x] == k
    {
      if k < |fronts| {
        assert fronts'[k] == fronts[k];
      }
    }
  }

  /** An individual none of whose dominators is unranked has all of them among the consumed ones. */
  lemma DominatorsConsumed<T>(pop: seq<T>, dom: (T, T) -> Option<Ordering>, r0: seq<nat>, fronts: seq<seq<nat>>, i: nat, q: nat)
    requires i + 1 == |fronts| && RanksMatch(|pop|, r0, fronts)
    requires forall p :: p in Dominators(pop, dom, q) ==> r0[p] != UsizeMax
    ensures Dominators(pop, dom, q) <= Below(r0, i) + Elems(fronts[i])
  {
    forall p | p in Dominators(pop, dom, q) ensures p in Below(r0, i) + Elems(fronts[i]) {
      assert p in fronts[r0[p]];
    }
  }

  lemma PeelEndNonEmpty<T>(pop: seq<T>, dom: (T, T) -> Option<Ordering>, r0: seq<nat>, consumed: set<nat>,
                           fronts: seq<seq<nat>>, i: nat, nq: seq<nat>, rq: seq<nat>, next: seq<nat>)
    requires Acyclic(pop, dom) && i + 1 == |fronts|
    requires RanksMatch(|pop|, r0, fronts) && Unassigned(r0) != {}
    requires consumed == Below(r0, i) + Elems(fronts[i])
    requires PeelCounts(pop, dom, nq, consumed, 0, [])
    requires PeelRanks(pop, dom, nq, rq, r0, consumed, next, i + 1)
    ensures |next| > 0
  {
    var u := Unassigned(r0);
    SourceExists(pop, dom, u);
    var q :| q in u && forall p :: p in u ==> !Edge(pop, dom, p, q);
    assert q < |pop| && r0[q] == UsizeMax;
    forall p | p in Dominators(pop, dom, q) ensures r0[p] != UsizeMax {
      assert p !in u;
    }
    DominatorsConsumed(pop, dom, r0, fronts, i, q);
    assert Dominators(pop, dom, q) - consumed == {};
    assert q !in [];
    assert nq[q] == 0;
    assert q in next;
  }

  /** A front stays layered when no rank below its index changes. */
  lemma LayerKeep<T>(pop: seq<T>, dom: (T, T) -> Option<Ordering>, r0: seq<nat>, rq: seq<nat>, prev: seq<nat>, f: seq<nat>, k: nat)
    requires |r0| == |pop| == |rq| && Layer(pop, dom, r0, prev, f, k)
    requires forall p :: 0 <= p < |pop| && r0[p] < k ==> rq[p] == r0[p]
    ensures Layer(pop, dom, rq, prev, f, k)
  {
    forall x, p | x in f && p in Dominators(pop, dom, x) ensures rq[p] < k {
      assert r0[p] < k;
    }
  }

  /** The front produced by peeling `f` is the next layer. */
  lemma NextLayer<T>(pop: seq<T>, dom: (T, T) -> Option<Ordering>, r0: seq<nat>, consumed: set<nat>,
                     f: seq<nat>, i: nat, nq: seq<nat>, rq: seq<nat>, next: seq<nat>)
    requires |next| > 0 && RankedIff(pop, dom, r0, Below(r0, i))
    requires consumed == Below(r0, i) + Elems(f) && consumed == Below(rq, i + 1)
    requires Peeling(pop, dom, nq, rq, r0, consumed, 0, [], f, |f|, next, i + 1)
    ensures Layer(pop, dom, rq, f, next, i + 1)
  {
    forall x | x in next
      ensures forall p :: p in Dominators(pop, dom, x) ==> rq[p] < i + 1
      ensures LastDom(pop, dom, f, x) >= 0
    {
      assert x < |pop| && r0[x] == UsizeMax && nq[x] == 0;
      assert x !in [];
      NoneLeft(Dominators(pop, dom, x), consumed);
      assert Dominators(pop, dom, x) <= Below(rq, i + 1);
      assert !(Dominators(pop, dom, x) <= Below(r0, i));
      var p :| p in Dominators(pop, dom, x) && p !in Below(r0, i);
      assert p in Elems(f);
      var j :| 0 <= j < |f| && f[j] == p;
      assert Edge(pop, dom, f[j], x);
    }
  }

  lemma PeelEndLayered<T>(pop: seq<T>, dom: (T, T) -> Option<Ordering>, r0: seq<nat>,
                          fronts: seq<seq<nat>>, i: nat, rq: seq<nat>, next: seq<nat>)
    requires i + 1 == |fronts| && i + 1 < UsizeMax && |rq| == |pop|
    requires Layered(pop, dom, r0, fronts) && Layer(pop, dom, rq, fronts[i], next, i + 1)
    requires forall p :: 0 <= p < |pop| && r0[p] != UsizeMax ==> rq[p] == r0[p]
    ensures Layered(pop, dom, rq, fronts + [next])
  {
    var fronts' := fronts + [next];
    forall k | 0 <= k < |fronts'|
      ensures Layer(pop, dom, rq, Prev(fronts', k), fronts'[k], k)
    {
      if k < |fronts| {
        assert fronts'[k] == fronts[k] && Prev(fronts', k) == Prev(fronts, k);
        assert Layer(pop, dom, r0, Prev(fronts, k), fronts[k], k);
        LayerKeep(pop, dom, r0, rq, Prev(fronts, k), fronts[k], k);
      } else {
        assert fronts'[k] == next && Prev(fronts', k) == fronts[i];
      }
    }
  }

  /** Counts and ranks after peeling `fronts[i]`, against the new set of peeled fronts. */
  lemma PeelEndCounts<T>(pop: seq<T>, dom: (T, T) -> Option<Ordering>, r0: seq<nat>, consumed: set<nat>,
                         nq: seq<nat>, rq: seq<nat>, next: seq<nat>, level: nat)
    requires PeelCounts(pop, dom, nq, consumed, 0, [])
    requires PeelRanks(pop, dom, nq, rq, r0, consumed, next, level) && level != UsizeMax
    ensures Counted(pop, dom, nq, consumed) && RankedIff(pop, dom, rq, consumed)
  {
    forall x | 0 <= x < |pop| ensures nq[x] == |Dominators(pop, dom, x) - consumed| {
      assert x !in [];
    }
    forall x | 0 <= x < |pop| ensures rq[x] != UsizeMax <==> Dominators(pop, dom, x) <= consumed {
      if r0[x] == UsizeMax {
        var rest := Dominators(pop, dom, x) - consumed;
        assert nq[x] == |rest|;
        if Dominators(pop, dom, x) <= consumed {
          assert rest == {};
        } else {
          var y :| y in Dominators(pop, dom, x) && y !in consumed;
          assert y in rest;
        }
      }
    }
  }

  lemma PeelEndUnassigned<T>(pop: seq<T>, dom: (T, T) -> Option<Ordering>, r0: seq<nat>, consumed: set<nat>,
                             nq: seq<nat>, rq: seq<nat>, next: seq<nat>, level: nat)
    requires level != UsizeMax
    requires PeelRanks(pop, dom, nq, rq, r0, consumed, next, level)
    ensures |Unassigned(rq)| + |next| == |Unassigned(r0)|
  {
    var u0, u := Unassigned(r0), Unassigned(rq);
    assert Elems(next) <= u0;
    assert u == u0 - Elems(next);
    assert u0 == u + Elems(next);
    DistinctCard(next);
  }

  /** Lines 48-56: walk the domination list of every member of `front` in turn. */
  method PeelLists<T>(ghost pop: seq<T>, ghost dom: (T, T) -> Option<Ordering>, s: array<seq<nat>>, n: array<nat>, ranks: array<nat>,
                      front: seq<nat>, ghost done: set<nat>, ghost r0: seq<nat>, level: nat)
    returns (next: seq<nat>)
    requires n != ranks && level != UsizeMax
    requires IsDominationLists(pop, dom, s[..]) && NoDup(front)
    requires forall x :: x in front ==> x < |pop| && x !in done
    requires Peeling(pop, dom, n[..], ranks[..], r0, done, 0, [], front, 0, [], level)
    modifies n, ranks
    ensures Peeling(pop, dom, n[..], ranks[..], r0, done + Elems(front), 0, [], front, |front|, next, level)
  {
    next := [];
    assert done + Elems(front[..0]) == done;
    for j := 0 to |front|
      invariant Peeling(pop, dom, n[..], ranks[..], r0, done + Elems(front[..j]), 0, [], front, j, next, level)
    {
      next := PeelList(pop, dom, s, n, ranks, front, j, done, r0, level, next);
    }
    assert front[..|front|] == front;
  }

  /** Lines 49-56, one `p = f[j]`: walk its domination list. */
  method PeelList<T>(ghost pop: seq<T>, ghost dom: (T, T) -> Option<Ordering>, s: array<seq<nat>>, n: array<nat>, ranks: array<nat>,
                     f: seq<nat>, j: nat, ghost done: set<nat>, ghost r0: seq<nat>, level: nat, next0: seq<nat>)
    returns (next: seq<nat>)
    requires n != ranks && level != UsizeMax && j < |f|
    requires IsDominationLists(pop, dom, s[..]) && NoDup(f)
    requires forall x :: x in f ==> x < |pop| && x !in done
    requires Peeling(pop, dom, n[..], ranks[..], r0, done + Elems(f[..j]), 0, [], f, j, next0, level)
    modifies n, ranks
    ensures Peeling(pop, dom, n[..], ranks[..], r0, done + Elems(f[..j + 1]), 0, [], f, j + 1, next, level)
  {
    var p := f[j];
    assert p in f;
    assert s[..][p] == s[p];
    NotYetWalked(f, done, j);
    ElemsSnoc(f, done, j);
    next := PeelEdges(pop, dom, s[p], n, ranks, f, j, done + Elems(f[..j]), r0, level, next0);
  }

  /**
   * Lines 47-57 without assuming acyclic edges: peel the last front. A
   * non-empty next front extends the loop-head state; an empty one leaves
   * every rank as it was. With acyclic edges the next front is never empty.
   */
  method PeelNext<T>(ghost pop: seq<T>, ghost dom: (T, T) -> Option<Ordering>, s: array<seq<nat>>, n: array<nat>, ranks: array<nat>,
                     fronts: seq<seq<nat>>, i: nat)
    returns (next: seq<nat>)
    requires n != ranks && |fronts| < UsizeMax
    requires IsDominationLists(pop, dom, s[..])
    requires i + 1 == |fronts| && Peeled(pop, dom, n[..], ranks[..], fronts, i)
    requires Unassigned(ranks[..]) != {}
    modifies n, ranks
    ensures |next| > 0 ==> Peeled(pop, dom, n[..], ranks[..], fronts + [next], i + 1)
    ensures |next| == 0 ==> ranks[..] == old(ranks[..])
    ensures |Unassigned(ranks[..])| + |next| == |Unassigned(old(ranks[..]))|
    ensures Acyclic(pop, dom) ==> |next| > 0
  {
    var front := fronts[i];
    ghost var r0 := ranks[..];
    ghost var done := Below(r0, i);
    PeelStart(pop, dom, n[..], r0, fronts, i, front);
    next := PeelLists(pop, dom, s, n, ranks, front, done, r0, i + 1);
    PeelEnd(pop, dom, r0, fronts, i, n[..], ranks[..], next);
  }

  /** The state after peeling `fronts[i]`, from the ranks `r0` before it. */
  lemma PeelEnd<T>(pop: seq<T>, dom: (T, T) -> Option<Ordering>, r0: seq<nat>, fronts: seq<seq<nat>>, i: nat,
                   nq: seq<nat>, rq: seq<nat>, next: seq<nat>)
    requires i + 1 == |fronts| && |fronts| < UsizeMax
    requires RanksMatch(|pop|, r0, fronts) && Layered(pop, dom, r0, fronts) && RankedIff(pop, dom, r0, Below(r0, i))
    requires Unassigned(r0) != {}
    requires Peeling(pop, dom, nq, rq, r0, Below(r0, i) + Elems(fronts[i]), 0, [], fronts[i], |fronts[i]|, next, i + 1)
    ensures |next| > 0 ==> Peeled(pop, dom, nq, rq, fronts + [next], i + 1)
    ensures |next| == 0 ==> rq == r0
    ensures |Unassigned(rq)| + |next| == |Unassigned(r0)|
    ensures Acyclic(pop, dom) ==> |next| > 0
  {
    var consumed := Below(r0, i) + Elems(fronts[i]);
    if Acyclic(pop, dom) {
      PeelEndNonEmpty(pop, dom, r0, consumed, fronts, i, nq, rq, next);
    }
    if |next| > 0 {
      PeelEndGrow(pop, dom, r0, fronts, i, nq, rq, next);
    } else {
      PeelEndEmpty(pop, dom, r0, consumed, nq, rq, next, i + 1);
    }
    PeelEndUnassigned(pop, dom, r0, consumed, nq, rq, next, i + 1);
  }

  /** A non-empty next front extends the loop-head state by one front. */
  lemma PeelEndGrow<T>(pop: seq<T>, dom: (T, T) -> Option<Ordering>, r0: seq<nat>, fronts: seq<seq<nat>>, i: nat,
                       nq: seq<nat>, rq: seq<nat>, next: seq<nat>)
    requires i + 1 == |fronts| && |fronts| < UsizeMax && |next| > 0
    requires RanksMatch(|pop|, r0, fronts) && Layered(pop, dom, r0, fronts) && RankedIff(pop, dom, r0, Below(r0, i))
    requires Peeling(pop, dom, nq, rq, r0, Below(r0, i) + Elems(fronts[i]), 0, [], fronts[i], |fronts[i]|, next, i + 1)
    ensures Peeled(pop, dom, nq, rq, fronts + [next], i + 1)
  {
    var consumed := Below(r0, i) + Elems(fronts[i]);
    PeelEndBelow(pop, dom, nq, r0, rq, fronts, i, next);
    PeelEndRanks(pop, dom, r0, consumed, fronts, nq, rq, next);
    NextLayer(pop, dom, r0, consumed, fronts[i], i, nq, rq, next);
    PeelEndLayered(pop, dom, r0, fronts, i, rq, next);
    PeelEndCounts(pop, dom, r0, consumed, nq, rq, next, i + 1);
  }

  /** An empty next front leaves every rank as it was. */
  lemma PeelEndEmpty<T>(pop: seq<T>, dom: (T, T) -> Option<Ordering>, r0: seq<nat>, consumed: set<nat>,
                        nq: seq<nat>, rq: seq<nat>, next: seq<nat>, level: nat)
    requires PeelRanks(pop, dom, nq, rq, r0, consumed, next, level) && |next| == 0
    ensures rq == r0
  {
    forall x | 0 <= x < |pop| ensures rq[x] == r0[x] {
      assert x !in next;
    }
  }

  /** Lines 47-57: peel the last front, ranking and listing every individual whose last dominator it holds. */
  method PeelFront<T>(ghost pop: seq<T>, ghost dom: (T, T) -> Option<Ordering>, s: array<seq<nat>>, n: array<nat>, ranks: array<nat>,
                      fronts: seq<seq<nat>>, i: nat)
    returns (next: seq<nat>)
    requires n != ranks && Acyclic(pop, dom) && |fronts| < UsizeMax
    requires IsDominationLists(pop, dom, s[..])
    requires i + 1 == |fronts| && Peeled(pop, dom, n[..], ranks[..], fronts, i)
    requires Unassigned(ranks[..]) != {}
    modifies n, ranks
    ensures Peeled(pop, dom, n[..], ranks[..], fronts + [next], i + 1)
    ensures |next| > 0
    ensures |Unassigned(ranks[..])| + |next| == |Unassigned(old(ranks[..]))|
  {
    next := PeelNext(pop, dom, s, n, ranks, fronts, i);
  }

  /** The indices `0..len`. */
  function Range(len: nat): (r: set<nat>)
    ensures |r| == len
    ensures forall x: nat :: x in r <==> x < len
  {
    if len == 0 then {} else Range(len - 1) + {len - 1}
  }

  /** Front 0 alone: its members carry rank 0, and every ranked individual is one of them. */
  lemma StartRanks<T>(pop: seq<T>, dom: (T, T) -> Option<Ordering>, rq: seq<nat>, front: seq<nat>)
    requires |rq| == |pop| && IsFirstFront(pop, dom, front)
    requires forall x :: 0 <= x < |pop| ==> rq[x] == if Dominators(pop, dom, x) == {} then 0 else UsizeMax
    ensures RanksMatch(|pop|, rq, [front])
  {
    assert NoDup(front);
  }

  /** Front 0 alone is layered: its members have no dominators at all. */
  lemma StartLayered<T>(pop: seq<T>, dom: (T, T) -> Option<Ordering>, rq: seq<nat>, front: seq<nat>)
    requires |rq| == |pop| && IsFirstFront(pop, dom, front)
    ensures Layered(pop, dom, rq, [front])
  {
    assert Prev([front], 0) == [];
    assert Layer(pop, dom, rq, [], front, 0);
  }

  /** Nothing is consumed yet: counts are full, and exactly the undominated individuals are ranked. */
  lemma StartCounts<T>(pop: seq<T>, dom: (T, T) -> Option<Ordering>, nq: seq<nat>, rq: seq<nat>)
    requires |nq| == |pop| && |rq| == |pop|
    requires forall x :: 0 <= x < |pop| ==> nq[x] == |Dominators(pop, dom, x)|
    requires forall x :: 0 <= x < |pop| ==> rq[x] == if Dominators(pop, dom, x) == {} then 0 else UsizeMax
    ensures Counted(pop, dom, nq, Below(rq, 0)) && RankedIff(pop, dom, rq, Below(rq, 0))
  {
    assert Below(rq, 0) == {};
    forall x | 0 <= x < |pop| ensures Dominators(pop, dom, x) - {} == Dominators(pop, dom, x) {
    }
  }

  /** Lines 39-41: the state after the pairwise phase is the loop-head state for the single front 0. */
  lemma SortStart<T>(pop: seq<T>, dom: (T, T) -> Option<Ordering>, sq: seq<seq<nat>>, nq: seq<nat>, rq: seq<nat>, front: seq<nat>)
    requires IsDominationLists(pop, dom, sq) && |nq| == |pop| && |rq| == |pop|
    requires forall x :: 0 <= x < |pop| ==> nq[x] == |Dominators(pop, dom, x)|
    requires IsFirstFront(pop, dom, front)
    requires forall x :: 0 <= x < |pop| ==> rq[x] == if Dominators(pop, dom, x) == {} then 0 else UsizeMax
    ensures Peeled(pop, dom, nq, rq, [front], 0)
    ensures |front| <= |pop| && |Unassigned(rq)| == |pop| - |front|
    ensures Size([front]) == |front|
    ensures |pop| == 0 ==> front == []
  {
    StartRanks(pop, dom, rq, front);
    StartLayered(pop, dom, rq, front);
    StartCounts(pop, dom, nq, rq);
    StartSizes(pop, dom, rq, front);
  }

  /** Front 0 and the unranked individuals split the population. */
  lemma StartSizes<T>(pop: seq<T>, dom: (T, T) -> Option<Ordering>, rq: seq<nat>, front: seq<nat>)
    requires |rq| == |pop| && IsFirstFront(pop, dom, front)
    requires forall x :: 0 <= x < |pop| ==> rq[x] == if Dominators(pop, dom, x) == {} then 0 else UsizeMax
    ensures |front| <= |pop| && |Unassigned(rq)| == |pop| - |front|
    ensures Size([front]) == |front|
    ensures |pop| == 0 ==> front == []
  {
    assert NoDup(front);
    DistinctCard(front);
    assert Elems(front) <= Range(|pop|);
    assert Unassigned(rq) == Range(|pop|) - Elems(front);
    assert Range(|pop|) == Unassigned(rq) + Elems(front);
    assert Size([front]) == Size([]) + |front|;
  }

  /** Front 0 is empty only for an empty population: with no cycle, some individual has no dominator. */
  lemma FirstFrontNonEmpty<T>(pop: seq<T>, dom: (T, T) -> Option<Ordering>, front: seq<nat>)
    requires Acyclic(pop, dom) && IsFirstFront(pop, dom, front)
    ensures |pop| > 0 ==> |front| > 0
  {
    if |pop| > 0 {
      assert 0 in Range(|pop|);
      SourceExists(pop, dom, Range(|pop|));
      var q :| q in Range(|pop|) && forall p :: p in Range(|pop|) ==> !Edge(pop, dom, p, q);
      assert Dominators(pop, dom, q) == {};
      assert q in front;
    }
  }

  /** Read off the layering of front `k > 0`. */
  lemma LayerOf<T>(pop: seq<T>, dom: (T, T) -> Option<Ordering>, rq: seq<nat>, fronts: seq<seq<nat>>, k: nat)
    requires Layered(pop, dom, rq, fronts) && 0 < k < |fronts|
    ensures |fronts[k]| > 0
    ensures forall x :: x in fronts[k] ==> exists p :: p in fronts[k - 1] && Edge(pop, dom, p, x)
    ensures forall a, b :: 0 <= a < b < |fronts[k]| ==> DiscoveredBefore(pop, dom, fronts[k - 1], fronts[k][a], fronts[k][b])
  {
    var prev, f := fronts[k - 1], fronts[k];
    assert Prev(fronts, k) == prev;
    assert Layer(pop, dom, rq, prev, f, k);
    forall x | x in f ensures exists p :: p in prev && Edge(pop, dom, p, x) {
      var j := LastDom(pop, dom, prev, x);
      assert prev[j] in prev;
    }
  }

  /** Read off the layering of every front. */
  lemma LayersOf<T>(pop: seq<T>, dom: (T, T) -> Option<Ordering>, rq: seq<nat>, fronts: seq<seq<nat>>)
    requires Layered(pop, dom, rq, fronts)
    ensures forall k, x, p :: 0 <= k < |fronts| && x in fronts[k] && p in Dominators(pop, dom, x) ==> rq[p] < k
    ensures forall k :: 0 < k < |fronts| ==> |fronts[k]| > 0
    ensures forall k :: 0 < k < |fronts| ==>
      forall x :: x in fronts[k] ==> exists p :: p in fronts[k - 1] && Edge(pop, dom, p, x)
    ensures forall k :: 0 < k < |fronts| ==>
      forall a, b :: 0 <= a < b < |fronts[k]| ==> DiscoveredBefore(pop, dom, fronts[k - 1], fronts[k][a], fronts[k][b])
  {
    forall k | 0 <= k < |fronts| ensures Layer(pop, dom, rq, Prev(fronts, k), fronts[k], k) {
    }
    forall k | 0 < k < |fronts|
      ensures |fronts[k]| > 0
      ensures forall x :: x in fronts[k] ==> exists p :: p in fronts[k - 1] && Edge(pop, dom, p, x)
      ensures forall a, b :: 0 <= a < b < |fronts[k]| ==> DiscoveredBefore(pop, dom, fronts[k - 1], fronts[k][a], fronts[k][b])
    {
      LayerOf(pop, dom, rq, fronts, k);
    }
  }

  /** Line 63: once nothing is unassigned, every individual is listed in the front its rank names, and edges raise ranks. */
  lemma SortEnd<T>(pop: seq<T>, dom: (T, T) -> Option<Ordering>, nq: seq<nat>, ranks: seq<nat>, fronts: seq<seq<nat>>, i: nat)
    requires i + 1 == |fronts| && Peeled(pop, dom, nq, ranks, fronts, i)
    requires Unassigned(ranks) == {}
    ensures forall k :: 0 <= k < |fronts| ==>
      NoDup(fronts[k]) && forall x :: x in fronts[k] ==> x < |pop| && ranks[x] == k
    ensures forall x :: 0 <= x < |pop| ==> ranks[x] != UsizeMax && ranks[x] < |fronts| && x in fronts[ranks[x]]
    ensures forall p: nat, q: nat :: Edge(pop, dom, p, q) ==> ranks[p] < ranks[q]
    ensures forall k :: 0 < k < |fronts| ==> |fronts[k]| > 0
    ensures forall k :: 0 < k < |fronts| ==>
      forall x :: x in fronts[k] ==> exists p :: p in fronts[k - 1] && Edge(pop, dom, p, x)
    ensures forall k :: 0 < k < |fronts| ==>
      forall a, b :: 0 <= a < b < |fronts[k]| ==> DiscoveredBefore(pop, dom, fronts[k - 1], fronts[k][a], fronts[k][b])
  {
    AllRanked(pop, dom, ranks, fronts);
    EdgesRise(pop, dom, ranks, fronts);
    LayersOf(pop, dom, ranks, fronts);
  }

  /** With nothing unassigned, every individual is listed in the front its rank names. */
  lemma AllRanked<T>(pop: seq<T>, dom: (T, T) -> Option<Ordering>, ranks: seq<nat>, fronts: seq<seq<nat>>)
    requires RanksMatch(|pop|, ranks, fronts) && Unassigned(ranks) == {}
    ensures forall x :: 0 <= x < |pop| ==> ranks[x] != UsizeMax && ranks[x] < |fronts| && x in fronts[ranks[x]]
  {
    forall x | 0 <= x < |pop| ensures ranks[x] != UsizeMax {
      assert x !in Unassigned(ranks);
    }
  }

  /** With nothing unassigned, an edge `p -> q` goes from a lower rank to a higher one. */
  lemma EdgesRise<T>(pop: seq<T>, dom: (T, T) -> Option<Ordering>, ranks: seq<nat>, fronts: seq<seq<nat>>)
    requires RanksMatch(|pop|, ranks, fronts) && Layered(pop, dom, ranks, fronts) && Unassigned(ranks) == {}
    ensures forall p: nat, q: nat :: Edge(pop, dom, p, q) ==> ranks[p] < ranks[q]
  {
    LayersOf(pop, dom, ranks, fronts);
    forall p: nat, q: nat | Edge(pop, dom, p, q) ensures ranks[p] < ranks[q] {
      assert ranks[q] != UsizeMax by { assert q !in Unassigned(ranks); }
      assert q in fronts[ranks[q]];
      assert p in Dominators(pop, dom, q);
    }
  }

  /** Lines 44-60: peel fronts until every individual is ranked. */
  method PeelFronts<T>(ghost pop: seq<T>, ghost dom: (T, T) -> Option<Ordering>, s: array<seq<nat>>, n: array<nat>, rk: array<nat>,
                       front: seq<nat>)
    returns (fronts: seq<seq<nat>>, i: nat)
    requires n != rk && |pop| <= UsizeMax && Acyclic(pop, dom)
    requires IsDominationLists(pop, dom, s[..])
    requires Peeled(pop, dom, n[..], rk[..], [front], 0)
    requires |front| <= |pop| && |Unassigned(rk[..])| == |pop| - |front|
    requires |pop| == 0 ==> front == []
    requires |pop| > 0 ==> |front| > 0
    modifies n, rk
    ensures |fronts| >= 1 && fronts[0] == front
    ensures i + 1 == |fronts| && Peeled(pop, dom, n[..], rk[..], fronts, i) && Unassigned(rk[..]) == {}
    ensures Size(fronts) == |pop|
    ensures |pop| == 0 ==> fronts == [[]]
  {
    var remaining := s.Length - |front|;
    fronts := [front];
    i := 0;
    while remaining != 0
      invariant i + 1 == |fronts|
      invariant fronts[0] == front
      invariant Peeled(pop, dom, n[..], rk[..], fronts, i)
      invariant remaining == |Unassigned(rk[..])| && remaining + Size(fronts) == |pop|
      invariant |pop| == 0 ==> fronts == [[]]
      invariant |pop| > 0 ==> |fronts| <= Size(fronts)
      decreases remaining
    {
      fronts, remaining := PeelLevel(pop, dom, s, n, rk, front, fronts, i, remaining);
      i := i + 1;
    }
    assert Unassigned(rk[..]) == {};
  }

  /** Lines 43-60, one iteration: peel `fronts[i]`, append the next front and update `remaining`. */
  method PeelLevel<T>(ghost pop: seq<T>, ghost dom: (T, T) -> Option<Ordering>, s: array<seq<nat>>, n: array<nat>, rk: array<nat>,
                      ghost front: seq<nat>, fronts: seq<seq<nat>>, i: nat, remaining: nat)
    returns (fronts': seq<seq<nat>>, remaining': nat)
    requires n != rk && |pop| <= UsizeMax && Acyclic(pop, dom)
    requires IsDominationLists(pop, dom, s[..])
    requires remaining != 0
    requires i + 1 == |fronts|
    requires fronts[0] == front
    requires Peeled(pop, dom, n[..], rk[..], fronts, i)
    requires remaining == |Unassigned(rk[..])| && remaining + Size(fronts) == |pop|
    requires |pop| == 0 ==> fronts == [[]]
    requires |pop| > 0 ==> |fronts| <= Size(fronts)
    modifies n, rk
    ensures i + 2 == |fronts'|
    ensures fronts'[0] == front
    ensures Peeled(pop, dom, n[..], rk[..], fronts', i + 1)
    ensures remaining' == |Unassigned(rk[..])| && remaining' + Size(fronts') == |pop|
    ensures |pop| == 0 ==> fronts' == [[]]
    ensures |pop| > 0 ==> |fronts'| <= Size(fronts')
    ensures remaining' < remaining
  {
    var next := PeelFront(pop, dom, s, n, rk, fronts, i);
    remaining' := remaining - |next|;
    SizeSnoc(fronts, next);
    fronts' := fronts + [next];
  }

  /**
   * What the sort returns: `ranks[x]` is the index of the front that lists
   * `x`; front 0 is the undominated individuals in index order; every edge
   * goes from a lower rank to a higher one; each member of a later front has
   * a dominator in the front just before it, and is listed in the order its
   * last such dominator was walked (ties by index); no front but the single
   * front of an empty population is empty.
   */
  ghost predicate NonDominatedFronts<T>(pop: seq<T>, dom: (T, T) -> Option<Ordering>, ranks: seq<nat>, fronts: seq<seq<nat>>)
  {
    |ranks| == |pop| && |fronts| >= 1 &&
    IsFirstFront(pop, dom, fronts[0]) &&
    (forall k :: 0 <= k < |fronts| ==>
      NoDup(fronts[k]) && forall x :: x in fronts[k] ==> x < |pop| && ranks[x] == k) &&
    (forall x :: 0 <= x < |pop| ==> ranks[x] != UsizeMax && ranks[x] < |fronts| && x in fronts[ranks[x]]) &&
    Size(fronts) == |pop| &&
    (forall p: nat, q: nat :: Edge(pop, dom, p, q) ==> ranks[p] < ranks[q]) &&
    (forall k :: 0 < k < |fronts| ==>
      forall x :: x in fronts[k] ==> exists p :: p in fronts[k - 1] && Edge(pop, dom, p, x)) &&
    (forall k :: 0 < k < |fronts| ==>
      forall a, b :: 0 <= a < b < |fronts[k]| ==> DiscoveredBefore(pop, dom, fronts[k - 1], fronts[k][a], fronts[k][b])) &&
    (|pop| == 0 ==> fronts == [[]]) &&
    (|pop| > 0 ==> forall k :: 0 <= k < |fronts| ==> |fronts[k]| > 0)
  }

  /**
   * `fast_non_dominated_sort`: the ranks and fronts of `pop`. Requires the
   * recorded edges to be acyclic, since on a cycle the source never finishes
   * peeling (it pushes empty fronts forever).
   */
  method FastNonDominatedSort<T>(pop: seq<T>, dom: (T, T) -> Option<Ordering>) returns (ranks: seq<nat>, fronts: seq<seq<nat>>)
    requires |pop| <= UsizeMax
    requires Acyclic(pop, dom)
    ensures NonDominatedFronts(pop, dom, ranks, fronts)
  {
    var s, n, rk, front := Pairwise(pop, dom);
    SortStart(pop, dom, s[..], n[..], rk[..], front);
    FirstFrontNonEmpty(pop, dom, front);
    var last;
    fronts, last := PeelFronts(pop, dom, s, n, rk, front);
    ranks := rk[..];
    SortEnd(pop, dom, n[..], ranks, fronts, last);
  }
  // ---------------------------------------------------------------------------
  // A sort that stops on a cycle. Tuple dominance skips incomparable
  // positions, so it can record a cycle of edges (see the NaN scenario); the
  // loop of lines 42-61 then never ends. The evidently intended behaviour is
  // to stop when a front comes out empty, leaving the rest unranked.

  /** One iteration of the stopping loop: peel `fronts[i]`, then append the next front, or stop when it is empty. */
  method PeelOrStop<T>(ghost pop: seq<T>, ghost dom: (T, T) -> Option<Ordering>, s: array<seq<nat>>, n: array<nat>, rk: array<nat>,
                       ghost front: seq<nat>, fronts: seq<seq<nat>>, i: nat, remaining: nat)
    returns (fronts': seq<seq<nat>>, i': nat, remaining': nat, stuck: bool)
    requires n != rk && |pop| <= UsizeMax
    requires IsDominationLists(pop, dom, s[..])
    requires remaining != 0
    requires i + 1 == |fronts| && fronts[0] == front
    requires Peeled(pop, dom, n[..], rk[..], fronts, i)
    requires remaining == |Unassigned(rk[..])| && remaining + Size(fronts) == |pop|
    requires |fronts| <= Size(fronts)
    modifies n, rk
    ensures i' + 1 == |fronts'| && fronts'[0] == front
    ensures RanksMatch(|pop|, rk[..], fronts') && Layered(pop, dom, rk[..], fronts')
    ensures remaining' == |Unassigned(rk[..])| && remaining' + Size(fronts') == |pop|
    ensures !stuck ==> Peeled(pop, dom, n[..], rk[..], fronts', i') && |fronts'| <= Size(fronts') && remaining' < remaining
    ensures stuck ==> remaining' == remaining && !Acyclic(pop, dom)
  {
    var next := PeelNext(pop, dom, s, n, rk, fronts, i);
    if |next| == 0 {
      fronts', i', remaining', stuck := fronts, i, remaining, true;
    } else {
      SizeSnoc(fronts, next);
      fronts', i', remaining', stuck := fronts + [next], i + 1, remaining - |next|, false;
    }
  }

  /** Lines 42-61 with the stop: peel fronts until every individual is ranked or a front comes out empty. */
  method PeelUntilStuck<T>(ghost pop: seq<T>, ghost dom: (T, T) -> Option<Ordering>, s: array<seq<nat>>, n: array<nat>, rk: array<nat>,
                           front: seq<nat>)
    returns (fronts: seq<seq<nat>>, i: nat, stuck: bool)
    requires n != rk && |pop| <= UsizeMax
    requires IsDominationLists(pop, dom, s[..])
    requires Peeled(pop, dom, n[..], rk[..], [front], 0)
    requires |front| <= |pop| && |Unassigned(rk[..])| == |pop| - |front| && Size([front]) == |front|
    requires |pop| == 0 ==> front == []
    requires |pop| > 0 && |front| == 0 ==> !Acyclic(pop, dom)
    modifies n, rk
    ensures i + 1 == |fronts| && fronts[0] == front
    ensures RanksMatch(|pop|, rk[..], fronts) && Layered(pop, dom, rk[..], fronts)
    ensures Size(fronts) + |Unassigned(rk[..])| == |pop|
    ensures |pop| == 0 ==> fronts == [[]]
    ensures stuck ==> Unassigned(rk[..]) != {} && !Acyclic(pop, dom)
    ensures !stuck ==> Peeled(pop, dom, n[..], rk[..], fronts, i) && Unassigned(rk[..]) == {}
  {
    var remaining := s.Length - |front|;
    fronts := [front];
    i := 0;
    stuck := remaining != 0 && |front| == 0;
    while remaining != 0 && !stuck
      invariant i + 1 == |fronts| && fronts[0] == front
      invariant RanksMatch(|pop|, rk[..], fronts) && Layered(pop, dom, rk[..], fronts)
      invariant !stuck ==> Peeled(pop, dom, n[..], rk[..], fronts, i)
      invariant remaining == |Unassigned(rk[..])| && remaining + Size(fronts) == |pop|
      invariant |pop| == 0 ==> fronts == [[]]
      invariant !stuck && remaining != 0 ==> |fronts| <= Size(fronts)
      invariant stuck ==> remaining != 0 && !Acyclic(pop, dom)
      decreases remaining, if stuck then 0 else 1
    {
      fronts, i, remaining, stuck := PeelOrStop(pop, dom, s, n, rk, front, fronts, i, remaining);
    }
    if stuck {
      assert |Unassigned(rk[..])| != 0;
    }
  }

  /**
   * `fast_non_dominated_sort` with the stop on an empty front: it finishes on
   * every population, ranks every individual exactly when the recorded edges
   * are acyclic, and then returns what the sort of lines 13-64 returns.
   */
  method StoppingNonDominatedSort<T>(pop: seq<T>, dom: (T, T) -> Option<Ordering>) returns (ranks: seq<nat>, fronts: seq<seq<nat>>)
    requires |pop| <= UsizeMax
    ensures |ranks| == |pop|
    ensures Acyclic(pop, dom) <==> forall x :: 0 <= x < |pop| ==> ranks[x] != UsizeMax
    ensures Acyclic(pop, dom) ==> NonDominatedFronts(pop, dom, ranks, fronts)
  {
    var s, n, rk, front := Pairwise(pop, dom);
    SortStart(pop, dom, s[..], n[..], rk[..], front);
    if Acyclic(pop, dom) {
      FirstFrontNonEmpty(pop, dom, front);
    }
    var last, stuck;
    fronts, last, stuck := PeelUntilStuck(pop, dom, s, n, rk, front);
    ranks := rk[..];
    if stuck {
      var x :| x in Unassigned(ranks);
      assert 0 <= x < |pop| && ranks[x] == UsizeMax;
    } else {
      EdgesRise(pop, dom, ranks, fronts);
      AcyclicByLevel(pop, dom, ranks);
      AllRanked(pop, dom, ranks, fronts);
      SortResult(pop, dom, n[..], ranks, fronts, last);
    }
  }

  /** A peel that ranked everyone under acyclic edges is the result the sort promises. */
  lemma SortResult<T>(pop: seq<T>, dom: (T, T) -> Option<Ordering>, nq: seq<nat>, ranks: seq<nat>, fronts: seq<seq<nat>>, i: nat)
    requires Acyclic(pop, dom)
    requires i + 1 == |fronts| && Peeled(pop, dom, nq, ranks, fronts, i) && Unassigned(ranks) == {}
    requires IsFirstFront(pop, dom, fronts[0]) && Size(fronts) + |Unassigned(ranks)| == |pop|
    requires |pop| == 0 ==> fronts == [[]]
    ensures NonDominatedFronts(pop, dom, ranks, fronts)
  {
    SortEnd(pop, dom, nq, ranks, fronts, i);
    if |pop| > 0 {
      FirstFrontNonEmpty(pop, dom, fronts[0]);
      forall k | 0 <= k < |fronts| ensures |fronts[k]| > 0 {
        if k > 0 { assert |fronts[k]| > 0; }
      }
    }
  }
}
