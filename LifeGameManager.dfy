/**
 * LifeGameManager: the incremental Game of Life engine. The live tilemap,
 * the scratch tilemap and the dirty set are sets of cells; the bounds box,
 * the scan extent and the pause flag are plain fields, updated in place as
 * the source updates them.
 */
module Game {
  import opened LifeRules
  import opened GameSpeed

  /** The target grid with the cells of keys taken from source (CopyTilemapInto). */
  function Overlay(source: set<Pos>, target: set<Pos>, keys: set<Pos>): (r: set<Pos>)
    ensures forall p :: p in r <==> (if p in keys then p in source else p in target)
  {
    (target - keys) + (source * keys)
  }

  /** SetTile: the grid with p made alive or dead. */
  function SetTile(grid: set<Pos>, p: Pos, alive: bool): (r: set<Pos>)
    ensures p in r <==> alive
    ensures r - {p} == grid - {p}
  {
    if alive then grid + {p} else grid - {p}
  }

  /** What UseGameRules writes into the scratch grid at p: the rule result, where it differs. */
  function RuleWrite(live: set<Pos>, grid: set<Pos>, p: Pos): (r: set<Pos>)
    ensures Flips(live, p) ==> (p in r <==> p !in live)
    ensures !Flips(live, p) ==> r == grid
    ensures r - {p} == grid - {p}
  {
    if Flips(live, p) then SetTile(grid, p, NextAlive(live, p)) else grid
  }

  /** What UseGameRules adds to the new dirty set: p, where the rule changes it. */
  function RuleMark(live: set<Pos>, acc: set<Pos>, p: Pos): (r: set<Pos>)
    ensures acc <= r && r - acc <= {p}
    ensures p in r <==> p in acc || Flips(live, p)
  {
    if Flips(live, p) then acc + {p} else acc
  }

  /** Calling UseGameRules twice on the same position has the effect of calling it once. */
  lemma RuleIdempotent(live: set<Pos>, grid: set<Pos>, acc: set<Pos>, p: Pos)
    ensures RuleWrite(live, RuleWrite(live, grid, p), p) == RuleWrite(live, grid, p)
    ensures RuleMark(live, RuleMark(live, acc, p), p) == RuleMark(live, acc, p)
  {
  }

  /** The cells of [-w, w] x [-h, h] that are alive: what the initial scan collects. */
  function ScanArea(live: set<Pos>, w: int, h: int): (r: set<Pos>)
    ensures forall q :: q in r <==> q in live && -w <= q.x <= w && -h <= q.y <= h
  {
    ScanRect(live, -w, w + 1, -h, h + 1)
  }

  /** The live cells of the half-open rectangle [x0, x1) x [y0, y1). */
  function ScanRect(live: set<Pos>, x0: int, x1: int, y0: int, y1: int): set<Pos>
  {
    set p | p in live && x0 <= p.x < x1 && y0 <= p.y < y1
  }

  /** The x coordinates of the cells of d. */
  function Xs(d: set<Pos>): set<int>
  {
    set p | p in d :: p.x
  }

  /** The y coordinates of the cells of d. */
  function Ys(d: set<Pos>): set<int>
  {
    set p | p in d :: p.y
  }

  predicate IsLeast(m: int, s: set<int>)
  {
    m in s && forall v :: v in s ==> m <= v
  }

  predicate IsGreatest(m: int, s: set<int>)
  {
    m in s && forall v :: v in s ==> v <= m
  }

  /**
   * The box (min1, size1) is what UpdateTilemapBounds builds from the box
   * (min0, size0) and the dirty set d: its min is the least of the old min
   * and every dirty cell, and its exclusive max is one past the greatest of
   * the old exclusive max and every dirty cell.
   */
  ghost predicate Grown(min0: Pos, size0: Pos, d: set<Pos>, min1: Pos, size1: Pos)
    ensures Grown(min0, size0, d, min1, size1) ==>
              && min1.x <= min0.x && min1.y <= min0.y
              && min1.x + size1.x > min0.x + size0.x && min1.y + size1.y > min0.y + size0.y
  {
    && IsLeast(min1.x, {min0.x} + Xs(d))
    && IsLeast(min1.y, {min0.y} + Ys(d))
    && IsGreatest(min1.x + size1.x - 1, {min0.x + size0.x} + Xs(d))
    && IsGreatest(min1.y + size1.y - 1, {min0.y + size0.y} + Ys(d))
  }

  /** p lies in the box with corner min and extent size (max exclusive). */
  predicate InBox(min: Pos, size: Pos, p: Pos)
  {
    min.x <= p.x < min.x + size.x && min.y <= p.y < min.y + size.y
  }

  /**
   * A grown box never shrinks: its min does not rise, its exclusive max
   * rises by at least one, it contains the old box and every dirty cell.
   */
  lemma {:induction false} GrownNeverShrinks(min0: Pos, size0: Pos, d: set<Pos>, min1: Pos, size1: Pos)
    requires Grown(min0, size0, d, min1, size1)
    ensures min1.x <= min0.x && min1.y <= min0.y
    ensures min1.x + size1.x > min0.x + size0.x && min1.y + size1.y > min0.y + size0.y
    ensures forall p :: InBox(min0, size0, p) ==> InBox(min1, size1, p)
    ensures forall p :: p in d ==> InBox(min1, size1, p)
  {
    forall p | p in d
      ensures InBox(min1, size1, p)
    {
      assert p.x in Xs(d) && p.y in Ys(d);
    }
  }

  /**
   * lo and hi are the min and the (inclusive) max that UpdateTilemapBounds
   * has folded so far, starting from the box (min0, size0), over the cells
   * of done.
   */
  ghost predicate Folded(min0: Pos, size0: Pos, done: set<Pos>, lo: Pos, hi: Pos)
  {
    && IsLeast(lo.x, {min0.x} + Xs(done))
    && IsLeast(lo.y, {min0.y} + Ys(done))
    && IsGreatest(hi.x, {min0.x + size0.x} + Xs(done))
    && IsGreatest(hi.y, {min0.y + size0.y} + Ys(done))
  }

  /** Folding one more cell: Vector3Int.Min and Vector3Int.Max, component by component. */
  lemma FoldStep(min0: Pos, size0: Pos, done: set<Pos>, lo: Pos, hi: Pos, p: Pos)
    requires Folded(min0, size0, done, lo, hi)
    ensures Folded(min0, size0, done + {p},
                   Pos(if p.x < lo.x then p.x else lo.x, if p.y < lo.y then p.y else lo.y),
                   Pos(if p.x > hi.x then p.x else hi.x, if p.y > hi.y then p.y else hi.y))
  {
    CoordinatesGrow(done, p);
    LeastStep(lo.x, {min0.x} + Xs(done), p.x, {min0.x} + Xs(done + {p}));
    LeastStep(lo.y, {min0.y} + Ys(done), p.y, {min0.y} + Ys(done + {p}));
    GreatestStep(hi.x, {min0.x + size0.x} + Xs(done), p.x, {min0.x + size0.x} + Xs(done + {p}));
    GreatestStep(hi.y, {min0.y + size0.y} + Ys(done), p.y, {min0.y + size0.y} + Ys(done + {p}));
  }

  /** The coordinates of done + {p} are those of done and those of p. */
  lemma CoordinatesGrow(done: set<Pos>, p: Pos)
    ensures Xs(done + {p}) == Xs(done) + {p.x}
    ensures Ys(done + {p}) == Ys(done) + {p.y}
  {
  }

  /** Vector3Int.Min on one component keeps the least element of a growing set. */
  lemma LeastStep(m: int, s: set<int>, v: int, t: set<int>)
    requires IsLeast(m, s) && t == s + {v}
    ensures IsLeast(if v < m then v else m, t)
  {
  }

  /** Vector3Int.Max on one component keeps the greatest element of a growing set. */
  lemma GreatestStep(m: int, s: set<int>, v: int, t: set<int>)
    requires IsGreatest(m, s) && t == s + {v}
    ensures IsGreatest(if v > m then v else m, t)
  {
  }

  /** The box rebuilt as (lo, hi - lo + 1) from a finished fold is the grown box. */
  lemma GrownFromFold(min0: Pos, size0: Pos, d: set<Pos>, lo: Pos, hi: Pos)
    requires Folded(min0, size0, d, lo, hi)
    ensures Grown(min0, size0, d, lo, Pos(hi.x - lo.x + 1, hi.y - lo.y + 1))
  {
  }

  /** A grown box still covers every cell the old one covered, and the dirty cells. */
  lemma GrownCovers(min0: Pos, size0: Pos, d: set<Pos>, min1: Pos, size1: Pos, seen: set<Pos>)
    requires Grown(min0, size0, d, min1, size1)
    requires forall p :: p in seen ==> InBox(min0, size0, p)
    ensures forall p :: p in seen + d ==> InBox(min1, size1, p)
  {
    GrownNeverShrinks(min0, size0, d, min1, size1);
  }

  /**
   * The scratch grid holds the rule result at every cell of the new dirty
   * set and its old contents elsewhere; one more UseGameRules keeps that.
   */
  lemma RuleStepKeeps(live: set<Pos>, original: set<Pos>, grid: set<Pos>, acc: set<Pos>, q: Pos)
    requires grid == (original - acc) + (acc - live)
    ensures RuleWrite(live, grid, q) == (original - RuleMark(live, acc, q)) + (RuleMark(live, acc, q) - live)
  {
  }

  /** The changing cells of s + [q]. */
  lemma FlipsAmongStep(live: set<Pos>, s: seq<Pos>, q: Pos)
    ensures FlipsAmong(live, s + [q]) == RuleMark(live, FlipsAmong(live, s), q)
  {
  }

  /**
   * One UseGameRules call of LoopThroughChangedTiles on the cell q that
   * follows the visited cells s: the new dirty set gains q's change and the
   * scratch grid keeps holding the rule result on the new dirty set.
   */
  lemma VisitKeeps(live: set<Pos>, original: set<Pos>, grid: set<Pos>, before: set<Pos>, acc: set<Pos>,
                   s: seq<Pos>, q: Pos)
    requires acc == before + FlipsAmong(live, s)
    requires grid == (original - acc) + (acc - live)
    ensures RuleMark(live, acc, q) == before + FlipsAmong(live, s + [q])
    ensures RuleWrite(live, grid, q) == (original - RuleMark(live, acc, q)) + (RuleMark(live, acc, q) - live)
  {
    RuleStepKeeps(live, original, grid, acc, q);
    FlipsAmongStep(live, s, q);
  }

  /** VisitKeeps for the i-th neighbour of p, after p and the first i neighbours. */
  lemma VisitNeighbour(live: set<Pos>, original: set<Pos>, grid: set<Pos>, before: set<Pos>, acc: set<Pos>,
                       p: Pos, adjacent: seq<Pos>, i: int)
    requires 0 <= i < |adjacent|
    requires acc == before + FlipsAmong(live, [p] + adjacent[..i])
    requires grid == (original - acc) + (acc - live)
    ensures RuleMark(live, acc, adjacent[i]) == before + FlipsAmong(live, [p] + adjacent[..i + 1])
    ensures RuleWrite(live, grid, adjacent[i]) == (original - RuleMark(live, acc, adjacent[i])) + (RuleMark(live, acc, adjacent[i]) - live)
  {
    VisitKeeps(live, original, grid, before, acc, [p] + adjacent[..i], adjacent[i]);
    assert [p] + adjacent[..i + 1] == ([p] + adjacent[..i]) + [adjacent[i]];
  }

  /** VisitKeeps for p itself, first of its block. */
  lemma VisitCentre(live: set<Pos>, original: set<Pos>, grid: set<Pos>, acc: set<Pos>, p: Pos)
    requires grid == (original - acc) + (acc - live)
    ensures RuleMark(live, acc, p) == acc + FlipsAmong(live, [p])
    ensures RuleWrite(live, grid, p) == (original - RuleMark(live, acc, p)) + (RuleMark(live, acc, p) - live)
  {
    assert acc == acc + FlipsAmong(live, []);
    VisitKeeps(live, original, grid, acc, acc, [], p);
    assert [] + [p] == [p];
  }

  /** Having visited p and its eight neighbours, the new dirty set is the one for done + {p}. */
  lemma BlockDone(live: set<Pos>, done: set<Pos>, p: Pos, acc: set<Pos>, adjacent: seq<Pos>, i: int)
    requires adjacent == AdjacentPositions(p) && i == |adjacent|
    requires acc == NextDirty(live, done) + FlipsAmong(live, [p] + adjacent[..i])
    ensures acc == NextDirty(live, done + {p})
  {
    assert adjacent[..i] == adjacent;
    NextDirtyGrows(live, done, p);
  }

  class LifeGameManager {
    /** GameSpeed: the wait between two ticks, in seconds. */
    var speed: real
    /** Tilemap: the live grid. */
    var live: set<Pos>
    /** TilemapTemp: the scratch grid. */
    var temp: set<Pos>
    /** tilemapBounds, as its min corner and its size. */
    var min: Pos
    var size: Pos
    /** changedTiles: the dirty set. */
    var changed: set<Pos>
    var width: int
    var height: int
    /** gameResume: the simulation runs. */
    var resume: bool
    /** Every cell that has been in the dirty set when the bounds were updated. */
    ghost var touched: set<Pos>

    /** The engine's invariant: the rule changes no cell outside the closure of the dirty set. */
    ghost predicate Consistent()
      reads this
    {
      Stable(live, changed)
    }

    /** The bounds box holds every cell it has been updated with. */
    ghost predicate BoundsCover()
      reads this
    {
      forall p :: p in touched ==> InBox(min, size, p)
    }

    /**
     * The field initialisers followed by Start(): the bounds are the
     * tilemap's own cell bounds, the game is paused and the initial scan
     * seeds the dirty set. When every live cell lies in the scanned area
     * the engine's invariant holds from the start.
     */
    constructor (tiles: set<Pos>, scratch: set<Pos>, cellMin: Pos, cellSize: Pos)
      requires cellSize.x >= 0 && cellSize.y >= 0
      ensures live == tiles && temp == scratch
      ensures min == cellMin && size == cellSize
      ensures width == 36 && height == 20
      ensures speed == 0.1 && !resume
      ensures changed == ScanArea(tiles, 36, 20)
      ensures touched == {} && BoundsCover()
      ensures tiles == ScanArea(tiles, 36, 20) ==> Consistent()
    {
      speed := 0.1;
      live := tiles;
      temp := scratch;
      changed := {};
      width := 36;
      height := 20;
      resume := true;
      min := cellMin;
      size := cellSize;
      touched := {};
      new;
      OnPauseButtonClick();
      InitializeChangedTiles();
      if tiles == ScanArea(tiles, 36, 20) {
        LiveIsStable(live, changed);
      }
    }

    /** OnPauseButtonClick: toggles between running and paused. */
    method OnPauseButtonClick()
      modifies this`resume
      ensures resume == !old(resume)
    {
      resume := !resume;
    }

    /**
     * OnResetButtonClick: clears the live grid and toggles pause; the dirty
     * set and the scratch grid are kept. An empty grid satisfies the
     * invariant whatever the dirty set.
     */
    method OnResetButtonClick()
      modifies this`live, this`resume
      ensures live == {} && resume == !old(resume)
      ensures Consistent()
    {
      live := {};
      OnPauseButtonClick();
      EmptyGridStable(changed);
    }

    /**
     * OnGameSpeedChange: the wait between ticks becomes the raw slider
     * value; the interpolated value (or its error) only feeds the label.
     */
    method OnGameSpeedChange(value: real) returns (shown: Result<real>)
      modifies this`speed
      ensures speed == value
      ensures shown == GameSpeedByValue(value)
      ensures shown.OutOfRange? <==> value < X1 || value > X2
    {
      speed := value;
      shown := GameSpeedByValue(value);
    }

    /**
     * The edit branch of Update: a click while paused toggles the clicked
     * cell, marks it dirty and grows the bounds; otherwise nothing happens.
     * Either way the engine's invariant and the bounds cover are kept.
     */
    method Update(mouseDown: bool, cell: Pos)
      modifies this`live, this`changed, this`min, this`size, this`width, this`height, this`touched
      ensures if !old(resume) && mouseDown then
                && live == Toggle(old(live), {cell})
                && changed == old(changed) + {cell}
                && Grown(old(min), old(size), changed, min, size)
                && width == size.x && height == size.y
                && touched == old(touched) + changed
              else
                && live == old(live) && changed == old(changed)
                && min == old(min) && size == old(size)
                && width == old(width) && height == old(height) && touched == old(touched)
      ensures old(Consistent()) ==> Consistent()
      ensures old(BoundsCover()) ==> BoundsCover()
    {
      if !resume && mouseDown {
        ghost var before := live;
        if cell in live {
          live := live - {cell};
        } else {
          live := live + {cell};
        }
        assert live == Toggle(before, {cell});
        if Stable(before, changed) {
          EditPreservesStable(before, changed, cell);
        }
        changed := changed + {cell};
        UpdateTilemapBounds();
      }
    }

    /**
     * One tick of StartGame while the game runs: copy the dirty cells into
     * the scratch grid, evaluate the rule around every dirty cell, copy the
     * new dirty cells back and grow the bounds. The live grid changes exactly
     * at the new dirty set, which is exactly the set of cells of the closure
     * of the old one that the rule changes. Under the engine's invariant the
     * result is the full Game of Life generation and the invariant holds
     * again. While paused nothing happens.
     */
    method Tick()
      modifies this`live, this`temp, this`changed, this`min, this`size, this`width, this`height, this`touched
      ensures !old(resume) ==> unchanged(this)
      ensures old(resume) ==>
                && changed == NextDirty(old(live), old(changed))
                && live == Toggle(old(live), changed)
                && temp == (Overlay(old(live), old(temp), old(changed)) - changed) + (changed - old(live))
                && (if changed == {} then min == old(min) && size == old(size) && width == old(width) && height == old(height)
                    else Grown(old(min), old(size), changed, min, size) && width == size.x && height == size.y)
                && touched == old(touched) + changed
      ensures old(resume) && old(changed) == {} ==>
                live == old(live) && changed == {} && min == old(min) && size == old(size)
      ensures old(resume) && old(Consistent()) ==> live == Generation(old(live)) && Consistent()
      ensures old(BoundsCover()) ==> BoundsCover()
    {
      if resume {
        ghost var before, dirty := live, changed;
        temp := CopyTilemapInto(live, temp);
        LoopThroughChangedTiles();
        live := CopyTilemapInto(temp, live);
        assert live == Toggle(before, changed);
        if dirty == {} {
          NoDirtyNoChange(before);
        }
        if Stable(before, dirty) {
          IncrementalIsFull(before, dirty);
        }
        UpdateTilemapBounds();
      }
    }

    /**
     * InitializeChangedTiles and LoopInTheTilemap: adds to the dirty set
     * every live cell of [-width, width] x [-height, height].
     */
    method InitializeChangedTiles()
      modifies this`changed
      ensures changed == old(changed) + ScanArea(live, width, height)
    {
      var x := -width;
      while x <= width
        invariant x == -width || x <= width + 1
        invariant changed == old(changed) + ScanRect(live, -width, x, -height, height + 1)
      {
        var y := -height;
        while y <= height
          invariant y == -height || y <= height + 1
          invariant changed == old(changed) + ScanRect(live, -width, x, -height, height + 1)
                                            + ScanRect(live, x, x + 1, -height, y)
        {
          var p := Pos(x, y);
          if p in live {
            changed := changed + {p};
          }
          assert ScanRect(live, x, x + 1, -height, y + 1)
              == ScanRect(live, x, x + 1, -height, y) + (live * {p});
          y := y + 1;
        }
        assert ScanRect(live, x, x + 1, -height, y) == ScanRect(live, x, x + 1, -height, height + 1);
        assert ScanRect(live, -width, x + 1, -height, height + 1)
            == ScanRect(live, -width, x, -height, height + 1) + ScanRect(live, x, x + 1, -height, height + 1);
        x := x + 1;
      }
      assert ScanRect(live, -width, x, -height, height + 1) == ScanArea(live, width, height);
    }

    /**
     * UpdateTilemapBounds: nothing when the dirty set is empty; otherwise
     * folds the dirty cells into the min and the exclusive max of the box
     * and rebuilds it as (min, max - min + 1), so the max moves one further
     * out on every call; width and height follow the new size.
     */
    method UpdateTilemapBounds()
      modifies this`min, this`size, this`width, this`height, this`touched
      ensures changed == {} ==>
                min == old(min) && size == old(size) && width == old(width) && height == old(height)
      ensures changed != {} ==>
                Grown(old(min), old(size), changed, min, size) && width == size.x && height == size.y
      ensures touched == old(touched) + changed
      ensures old(BoundsCover()) ==> BoundsCover()
    {
      if changed == {} {
        touched := touched + changed;
        return;
      }
      ghost var min0, size0, covered := min, size, BoundsCover();
      var lo := min;
      var hi := Pos(min.x + size.x, min.y + size.y);
      var todo := changed;
      ghost var done: set<Pos> := {};
      while todo != {}
        invariant todo + done == changed && todo !! done
        invariant Folded(min0, size0, done, lo, hi)
        modifies {}
        decreases todo
      {
        var p :| p in todo;
        FoldStep(min0, size0, done, lo, hi, p);
        lo := Pos(if p.x < lo.x then p.x else lo.x, if p.y < lo.y then p.y else lo.y);
        hi := Pos(if p.x > hi.x then p.x else hi.x, if p.y > hi.y then p.y else hi.y);
        todo := todo - {p};
        done := done + {p};
      }
      assert done == changed;
      GrownFromFold(min0, size0, changed, lo, hi);
      if covered {
        GrownCovers(min0, size0, changed, lo, Pos(hi.x - lo.x + 1, hi.y - lo.y + 1), touched);
      }
      min := lo;
      size := Pos(hi.x - lo.x + 1, hi.y - lo.y + 1);
      width := size.x;
      height := size.y;
      touched := touched + changed;
    }

    /**
     * CopyTilemapInto: the target grid with every dirty cell set to its
     * state in the source grid; the other cells of the target are kept.
     */
    method CopyTilemapInto(source: set<Pos>, target: set<Pos>) returns (r: set<Pos>)
      ensures r == Overlay(source, target, changed)
      ensures forall p :: p !in changed ==> (p in r <==> p in target)
    {
      r := target;
      var todo := changed;
      while todo != {}
        invariant todo <= changed
        invariant r == Overlay(source, target, changed - todo)
        decreases todo
      {
        var p :| p in todo;
        r := SetTile(r, p, p in source);
        todo := todo - {p};
      }
    }

    /**
     * UseGameRules: reads the live grid only; where the rule changes the
     * state of p it writes the new state into the scratch grid and adds p
     * to the new dirty set, and otherwise changes neither.
     */
    method UseGameRules(newChanged: set<Pos>, p: Pos) returns (next: set<Pos>)
      modifies this`temp
      ensures temp == RuleWrite(live, old(temp), p)
      ensures next == RuleMark(live, newChanged, p)
      ensures Flips(live, p) ==> (p in temp <==> NextAlive(live, p)) && p in next
      ensures !Flips(live, p) ==> temp == old(temp) && next == newChanged
    {
      var n := GetNumberOfAliveAdjacents(p);
      var current := p in live;
      next := newChanged;
      if current && (n < 2 || n > 3) {
        temp := SetTile(temp, p, false);
        next := next + {p};
      } else if !current && n == 3 {
        temp := SetTile(temp, p, true);
        next := next + {p};
      }
    }

    /**
     * LoopThroughChangedTiles: evaluates the rule at every dirty cell and
     * its eight neighbours and replaces the dirty set by the cells that
     * changed, which is the same set whatever the order of evaluation.
     * Each of them holds its new state in the scratch grid, which is
     * otherwise unchanged.
     */
    method LoopThroughChangedTiles()
      modifies this`temp, this`changed
      ensures changed == NextDirty(live, old(changed))
      ensures temp == (old(temp) - changed) + (changed - live)
    {
      ghost var original := temp;
      var next: set<Pos> := {};
      var todo := changed;
      ghost var done: set<Pos> := {};
      while todo != {}
        invariant todo + done == old(changed) && todo !! done
        invariant next == NextDirty(live, done)
        invariant temp == (original - next) + (next - live)
        decreases todo
      {
        var p :| p in todo;
        ghost var before := next;
        VisitCentre(live, original, temp, next, p);
        next := UseGameRules(next, p);
        var adjacent := AdjacentPositions(p);
        var i := 0;
        while i < |adjacent|
          invariant 0 <= i <= |adjacent|
          invariant next == before + FlipsAmong(live, [p] + adjacent[..i])
          invariant temp == (original - next) + (next - live)
        {
          VisitNeighbour(live, original, temp, before, next, p, adjacent, i);
          next := UseGameRules(next, adjacent[i]);
          i := i + 1;
        }
        BlockDone(live, done, p, next, adjacent, i);
        todo := todo - {p};
        done := done + {p};
      }
      changed := next;
    }

    /** GetAdjacentTiles: the state of each of the eight neighbours, in order. */
    method GetAdjacentTiles(p: Pos) returns (tiles: seq<bool>)
      ensures |tiles| == 8
      ensures forall i :: 0 <= i < 8 ==> tiles[i] == (AdjacentPositions(p)[i] in live)
    {
      var adjacent := AdjacentPositions(p);
      tiles := [];
      for i := 0 to |adjacent|
        invariant |tiles| == i
        invariant forall k :: 0 <= k < i ==> tiles[k] == (adjacent[k] in live)
      {
        tiles := tiles + [adjacent[i] in live];
      }
    }

    /** GetNumberOfAliveAdjacents: the number of live cells among the eight neighbours of p. */
    method GetNumberOfAliveAdjacents(p: Pos) returns (n: nat)
      ensures n == AliveAdjacents(live, p)
      ensures n == |Neighbours(p) * live| && n <= 8
    {
      var tiles := GetAdjacentTiles(p);
      ghost var adjacent := AdjacentPositions(p);
      n := 0;
      for i := 0 to |tiles|
        invariant n == CountAlive(live, adjacent[..i])
      {
        assert adjacent[..i + 1][..i] == adjacent[..i];
        if tiles[i] {
          n := n + 1;
        }
      }
      assert adjacent[..|tiles|] == adjacent;
      AliveAdjacentsCounts(live, p);
    }
  }

  /** The cells of s that the rule changes. */
  function FlipsAmong(live: set<Pos>, s: seq<Pos>): set<Pos>
  {
    set q | q in s && Flips(live, q)
  }

  /** Marking p dirty adds exactly the changing cells of the 3x3 block around p to the next dirty set. */
  lemma {:induction false} NextDirtyGrows(live: set<Pos>, d: set<Pos>, p: Pos)
    ensures NextDirty(live, d + {p}) == NextDirty(live, d) + FlipsAmong(live, [p] + AdjacentPositions(p))
  {
    var adjacent := [p] + AdjacentPositions(p);
    forall q
      ensures q in NextDirty(live, d + {p}) <==> q in NextDirty(live, d) || q in FlipsAmong(live, adjacent)
    {
      ClosureMeaning(d + {p}, q);
      ClosureMeaning(d, q);
      NeighboursAreNear(p, q);
      if Near(p, q) && q != p {
        assert q in Neighbours(p);
      }
      if Near(p, q) {
        InClosure(d + {p}, p, q);
      }
    }
  }
}
