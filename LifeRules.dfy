/**
 * The Game of Life rule (B3/S23) on the unbounded integer plane, and the
 * dirty-set theory behind the incremental engine of LifeGameManager.
 *
 * A grid is the finite set of its live cells: a cell that is absent is dead.
 */
module LifeRules {

  /** A grid cell; the source's Vector3Int, whose z is always 0. */
  datatype Pos = Pos(x: int, y: int)

  /** q lies in the 3x3 block centred on p (p itself included). */
  predicate Near(p: Pos, q: Pos)
  {
    -1 <= p.x - q.x <= 1 && -1 <= p.y - q.y <= 1
  }

  /**
   * The eight Moore neighbours of p, in the order GetAdjacentPositions
   * lists them: exactly the cells of the 3x3 block other than p, each once.
   */
  function AdjacentPositions(p: Pos): (r: seq<Pos>)
    ensures |r| == 8
    ensures forall i, j :: 0 <= i < j < |r| ==> r[i] != r[j]
    ensures forall i :: 0 <= i < |r| ==> r[i] != p && Near(p, r[i])
    ensures forall q :: Near(p, q) && q != p ==> q in r
  {
    [ Pos(p.x - 1, p.y), Pos(p.x - 1, p.y - 1), Pos(p.x, p.y - 1), Pos(p.x + 1, p.y - 1),
      Pos(p.x + 1, p.y), Pos(p.x + 1, p.y + 1), Pos(p.x, p.y + 1), Pos(p.x - 1, p.y + 1) ]
  }

  /** The neighbours of p as a set. */
  function Neighbours(p: Pos): set<Pos>
  {
    set q | q in AdjacentPositions(p)
  }

  /** The cells whose rule result may depend on p: the 3x3 block around p. */
  function Cells(p: Pos): set<Pos>
  {
    {p} + Neighbours(p)
  }

  /** How many of the positions in s are alive (counted with repetition). */
  function CountAlive(live: set<Pos>, s: seq<Pos>): (n: nat)
    ensures n <= |s|
  {
    if s == [] then 0
    else CountAlive(live, s[..|s| - 1]) + (if s[|s| - 1] in live then 1 else 0)
  }

  /** GetNumberOfAliveAdjacents, as a value. */
  function AliveAdjacents(live: set<Pos>, p: Pos): (n: nat)
    ensures n <= 8
  {
    CountAlive(live, AdjacentPositions(p))
  }

  /**
   * The state UseGameRules gives p: an alive cell with fewer than two or
   * more than three live neighbours dies, a dead cell with exactly three is
   * born, any other cell keeps its state.
   */
  predicate NextAlive(live: set<Pos>, p: Pos)
  {
    var n := AliveAdjacents(live, p);
    if p in live && (n < 2 || n > 3) then false
    else if p !in live && n == 3 then true
    else p in live
  }

  /** The rule changes the state of p. */
  predicate Flips(live: set<Pos>, p: Pos)
  {
    NextAlive(live, p) != (p in live)
  }

  /** The Moore closure of d: every cell of d together with its neighbours. */
  function Closure(d: set<Pos>): set<Pos>
  {
    set p, q | p in d && q in Cells(p) :: q
  }

  /** The dirty set one pass of the engine produces from the dirty set d. */
  function NextDirty(live: set<Pos>, d: set<Pos>): (r: set<Pos>)
    ensures r <= Closure(d)
  {
    set q | q in Closure(d) && Flips(live, q)
  }

  /** The grid with every cell of d switched to the other state. */
  function Toggle(live: set<Pos>, d: set<Pos>): (r: set<Pos>)
    ensures forall q :: q in r <==> ((q in live) != (q in d))
  {
    (live - d) + (d - live)
  }

  /** The full Game of Life generation of live, evaluated everywhere it can differ from dead. */
  function Generation(live: set<Pos>): (r: set<Pos>)
    ensures forall q :: q in r <==> NextAlive(live, q)
  {
    BirthsNearLife(live);
    set q | q in Closure(live) && NextAlive(live, q)
  }

  /**
   * The engine's invariant: every cell the rule would change lies in the
   * Moore closure of the dirty set d.
   */
  ghost predicate Stable(live: set<Pos>, d: set<Pos>)
    ensures Stable(live, d) <==> (forall q :: Flips(live, q) <==> q in NextDirty(live, d))
  {
    forall q :: Flips(live, q) ==> q in Closure(d)
  }

  // ---------------------------------------------------------------------
  // Neighbourhood facts

  lemma NearSymmetric(p: Pos, q: Pos)
    ensures Near(p, q) <==> Near(q, p)
  {
  }

  /** The neighbour set is the 3x3 block without its centre. */
  lemma NeighboursAreNear(p: Pos, q: Pos)
    ensures q in Neighbours(p) <==> Near(p, q) && q != p
  {
  }

  /** The Moore closure of d is exactly the set of cells near some cell of d. */
  lemma {:induction false} ClosureMeaning(d: set<Pos>, q: Pos)
    ensures q in Closure(d) <==> exists p :: p in d && Near(p, q)
  {
    if q in Closure(d) {
      var p :| p in d && q in Cells(p);
      NeighboursAreNear(p, q);
    }
    if p :| p in d && Near(p, q) {
      NeighboursAreNear(p, q);
      assert q in Cells(p);
    }
  }

  /** A cell near a cell of d lies in the closure of d. */
  lemma InClosure(d: set<Pos>, p: Pos, q: Pos)
    requires p in d && Near(p, q)
    ensures q in Closure(d)
  {
    ClosureMeaning(d, q);
  }

  // ---------------------------------------------------------------------
  // Counting facts

  /** Over a list without repetition, the count is the size of the live part of its elements. */
  lemma {:induction false} CountAliveDistinct(live: set<Pos>, s: seq<Pos>)
    requires forall i, j :: 0 <= i < j < |s| ==> s[i] != s[j]
    ensures CountAlive(live, s) == |(set q | q in s) * live|
  {
    if s != [] {
      var init, last := s[..|s| - 1], s[|s| - 1];
      DistinctSnoc(s, init, last);
      CountAliveDistinct(live, init);
      LiveCountGrows(live, (set q | q in init), last);
    }
  }

  /** Adding a new element to a set adds one to its live part exactly when that element is alive. */
  lemma LiveCountGrows(live: set<Pos>, before: set<Pos>, last: Pos)
    requires last !in before
    ensures |(before + {last}) * live| == |before * live| + (if last in live then 1 else 0)
  {
    if last in live {
      assert (before + {last}) * live == before * live + {last};
    } else {
      assert (before + {last}) * live == before * live;
    }
  }

  /** Dropping the last element of a list without repetition: the rest has none, and lacks that element. */
  lemma DistinctSnoc(s: seq<Pos>, init: seq<Pos>, last: Pos)
    requires s == init + [last]
    requires forall i, j :: 0 <= i < j < |s| ==> s[i] != s[j]
    ensures forall i, j :: 0 <= i < j < |init| ==> init[i] != init[j]
    ensures (set q | q in s) == (set q | q in init) + {last}
    ensures last !in (set q | q in init)
  {
    assert last == s[|init|];
    forall i | 0 <= i < |init|
      ensures init[i] != last
    {
      assert init[i] == s[i];
    }
    forall i, j | 0 <= i < j < |init|
      ensures init[i] != init[j]
    {
      assert init[i] == s[i] && init[j] == s[j];
    }
  }

  /** GetNumberOfAliveAdjacents is the number of live cells among the eight neighbours, so at most 8. */
  lemma AliveAdjacentsCounts(live: set<Pos>, p: Pos)
    ensures AliveAdjacents(live, p) == |Neighbours(p) * live|
    ensures AliveAdjacents(live, p) <= 8
  {
    CountAliveDistinct(live, AdjacentPositions(p));
  }

  /** Two grids that agree on the positions of s give the same count. */
  lemma {:induction false} CountAliveAgree(l1: set<Pos>, l2: set<Pos>, s: seq<Pos>)
    requires forall i :: 0 <= i < |s| ==> (s[i] in l1 <==> s[i] in l2)
    ensures CountAlive(l1, s) == CountAlive(l2, s)
  {
    if s != [] {
      CountAliveAgree(l1, l2, s[..|s| - 1]);
    }
  }

  /** A positive count means some position of s is alive. */
  lemma {:induction false} CountAlivePositive(live: set<Pos>, s: seq<Pos>)
    requires CountAlive(live, s) > 0
    ensures exists i :: 0 <= i < |s| && s[i] in live
  {
    if s[|s| - 1] !in live {
      CountAlivePositive(live, s[..|s| - 1]);
      var i :| 0 <= i < |s| - 1 && s[..|s| - 1][i] in live;
      assert s[i] in live;
    }
  }

  /** The rule at q only looks at the 3x3 block around q. */
  lemma LocalRule(l1: set<Pos>, l2: set<Pos>, q: Pos)
    requires forall r :: Near(q, r) ==> (r in l1 <==> r in l2)
    ensures NextAlive(l1, q) == NextAlive(l2, q)
    ensures Flips(l1, q) == Flips(l2, q)
  {
    assert Near(q, q);
    CountAliveAgree(l1, l2, AdjacentPositions(q));
  }

  // ---------------------------------------------------------------------
  // The rule

  /** The source's rule is B3/S23, read off the number of live neighbours. */
  lemma RuleIsB3S23(live: set<Pos>, p: Pos)
    ensures NextAlive(live, p) <==>
              (|Neighbours(p) * live| == 3 || (p in live && |Neighbours(p) * live| == 2))
  {
    AliveAdjacentsCounts(live, p);
  }

  /** A cell away from every live cell stays dead. */
  lemma {:induction false} FarCellStaysDead(live: set<Pos>, q: Pos)
    requires q !in Closure(live)
    ensures q !in live && !NextAlive(live, q)
  {
    assert Near(q, q);
    if q in live {
      InClosure(live, q, q);
    }
    if AliveAdjacents(live, q) > 0 {
      var adj := AdjacentPositions(q);
      CountAlivePositive(live, adj);
      var i :| 0 <= i < |adj| && adj[i] in live;
      NearSymmetric(q, adj[i]);
      InClosure(live, adj[i], q);
    }
  }

  /** Only a cell of the closure of the live cells can be alive in the next generation. */
  lemma {:induction false} BirthsNearLife(live: set<Pos>)
    ensures forall q :: NextAlive(live, q) ==> q in Closure(live)
  {
    forall q | NextAlive(live, q)
      ensures q in Closure(live)
    {
      if q !in Closure(live) {
        FarCellStaysDead(live, q);
      }
    }
  }

  /** The full generation holds exactly the cells the B3/S23 rule makes alive. */
  lemma {:induction false} GenerationIsB3S23(live: set<Pos>, q: Pos)
    ensures q in Generation(live) <==>
              (|Neighbours(q) * live| == 3 || (q in live && |Neighbours(q) * live| == 2))
  {
    RuleIsB3S23(live, q);
  }

  // ---------------------------------------------------------------------
  // The dirty-set invariant

  /**
   * Incremental equals full: when every changing cell is in the closure of
   * the dirty set, toggling the new dirty set yields the full generation,
   * and the new dirty set covers the next generation's changes in turn.
   */
  lemma {:induction false} IncrementalIsFull(live: set<Pos>, d: set<Pos>)
    requires Stable(live, d)
    ensures Toggle(live, NextDirty(live, d)) == Generation(live)
    ensures Stable(Generation(live), NextDirty(live, d))
  {
    var nd := NextDirty(live, d);
    var next := Toggle(live, nd);
    forall q
      ensures q in next <==> NextAlive(live, q)
    {
      if q !in Closure(d) {
        assert !Flips(live, q);
      }
    }
    assert next == Generation(live);
    forall q | Flips(next, q)
      ensures q in Closure(nd)
    {
      assert Near(q, q);
      if r :| Near(q, r) && r in nd {
        NearSymmetric(q, r);
        InClosure(nd, r, q);
      } else {
        // no neighbour of q changed, so q changes now only if it changed before
        LocalRule(next, live, q);
      }
    }
  }

  /** With an empty dirty set nothing is evaluated, nothing changes, and the set stays empty. */
  lemma NoDirtyNoChange(live: set<Pos>)
    ensures NextDirty(live, {}) == {}
    ensures Toggle(live, NextDirty(live, {})) == live
  {
    assert Closure({}) == {};
  }

  /** Dirtying every live cell establishes the invariant (the initial scan). */
  lemma {:induction false} LiveIsStable(live: set<Pos>, d: set<Pos>)
    requires live <= d
    ensures Stable(live, d)
  {
    forall q | Flips(live, q)
      ensures q in Closure(d)
    {
      assert Near(q, q);
      if q in live {
        InClosure(d, q, q);
      } else {
        var adj := AdjacentPositions(q);
        CountAlivePositive(live, adj);
        var i :| 0 <= i < |adj| && adj[i] in live;
        NearSymmetric(q, adj[i]);
        InClosure(d, adj[i], q);
      }
    }
  }

  /** An edit that toggles p and marks p dirty keeps the invariant. */
  lemma {:induction false} EditPreservesStable(live: set<Pos>, d: set<Pos>, p: Pos)
    requires Stable(live, d)
    ensures Stable(Toggle(live, {p}), d + {p})
  {
    var edited := Toggle(live, {p});
    forall q | Flips(edited, q)
      ensures q in Closure(d + {p})
    {
      NearSymmetric(p, q);
      if Near(p, q) {
        InClosure(d + {p}, p, q);
      } else {
        LocalRule(edited, live, q);
        ClosureMeaning(d, q);
        var r :| r in d && Near(r, q);
        InClosure(d + {p}, r, q);
      }
    }
  }

  /** Nothing is alive in the empty grid. */
  lemma {:induction false} CountAliveEmpty(s: seq<Pos>)
    ensures CountAlive({}, s) == 0
  {
    if s != [] {
      CountAliveEmpty(s[..|s| - 1]);
    }
  }

  /** An empty grid satisfies the invariant for any dirty set (the state after a reset). */
  lemma {:induction false} EmptyGridStable(d: set<Pos>)
    ensures Stable({}, d)
  {
    forall q
      ensures !Flips({}, q)
    {
      CountAliveEmpty(AdjacentPositions(q));
    }
  }
}
