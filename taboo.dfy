/**
 * Taboo cells of puzzler.py: gen_taboos (Rule 1 corners, the target filter,
 * the bounding-box trim, Rule 2 runs along walls between two corners) and
 * taboo_cells, which draws them.
 */
module TabooRules {
  import opened Common
  import opened Warehouses

  // ---------------------------------------------------------------------------
  // Rule 1: corners

  /** What the corner loop appends for one wall (x, y): the gap on its right, then the gap on its left. */
  function CornerStep(walls: seq<Cell>, c: Cell): seq<Cell>
  {
    var x, y := c.0, c.1;
    (if (x + 1, y) !in walls && ((x + 1, y + 1) in walls || (x + 1, y - 1) in walls) then [(x + 1, y)] else [])
    + (if (x - 1, y) !in walls && ((x - 1, y + 1) in walls || (x - 1, y - 1) in walls) then [(x - 1, y)] else [])
  }

  /** The taboo list after the corner loop has visited the first `n` walls. */
  function Corners(walls: seq<Cell>, n: nat): seq<Cell>
    requires n <= |walls|
  {
    if n == 0 then [] else Corners(walls, n - 1) + CornerStep(walls, walls[n - 1])
  }

  /** A free cell with a wall to its left or right and a wall above or below it. */
  predicate IsCorner(walls: seq<Cell>, c: Cell)
  {
    && c !in walls
    && ((c.0 - 1, c.1) in walls || (c.0 + 1, c.1) in walls)
    && ((c.0, c.1 - 1) in walls || (c.0, c.1 + 1) in walls)
  }

  /** The step for one wall appends exactly the corners beside that wall. */
  lemma CornerStepSpec(walls: seq<Cell>, wall: Cell, c: Cell)
    requires wall in walls
    ensures c in CornerStep(walls, wall) <==> IsCorner(walls, c) && ((c.0 - 1, c.1) == wall || (c.0 + 1, c.1) == wall)
  {
  }

  /** After `n` walls, the corner loop has found exactly the corners beside one of those walls. */
  lemma {:induction false} CornersSpec(walls: seq<Cell>, n: nat)
    requires n <= |walls|
    ensures forall c :: c in Corners(walls, n) <==>
      IsCorner(walls, c) && ((c.0 - 1, c.1) in walls[..n] || (c.0 + 1, c.1) in walls[..n])
  {
    if n > 0 {
      CornersSpec(walls, n - 1);
      var wall := walls[n - 1];
      assert walls[..n] == walls[..n - 1] + [wall];
      forall c ensures c in Corners(walls, n) <==>
        IsCorner(walls, c) && ((c.0 - 1, c.1) in walls[..n] || (c.0 + 1, c.1) in walls[..n])
      {
        CornerStepSpec(walls, wall, c);
      }
    }
  }

  /** The corner loop finds every corner of the walls, and nothing else. */
  lemma CornersAreCorners(walls: seq<Cell>)
    ensures forall c :: c in Corners(walls, |walls|) <==> IsCorner(walls, c)
  {
    CornersSpec(walls, |walls|);
    assert walls[..|walls|] == walls;
  }

  // ---------------------------------------------------------------------------
  // The two filters

  /** `[t for t in taboo if t not in warehouse.targets]`. */
  function Untargeted(ts: seq<Cell>, targets: seq<Cell>): (r: seq<Cell>)
    ensures forall t :: t in r <==> t in ts && t !in targets
  {
    if ts == [] then []
    else (if ts[0] !in targets then [ts[0]] else []) + Untargeted(ts[1..], targets)
  }

  function MinX(walls: seq<Cell>): int requires |walls| > 0 { Min(Xs(walls)) }
  function MaxX(walls: seq<Cell>): int requires |walls| > 0 { Max(Xs(walls)) }
  function MinY(walls: seq<Cell>): int requires |walls| > 0 { Min(Ys(walls)) }
  function MaxY(walls: seq<Cell>): int requires |walls| > 0 { Max(Ys(walls)) }

  /** Every wall lies in the walls' bounding box. */
  lemma WallInBox(walls: seq<Cell>, p: Cell)
    requires p in walls
    ensures MinX(walls) <= p.0 <= MaxX(walls) && MinY(walls) <= p.1 <= MaxY(walls)
  {
    var k :| 0 <= k < |walls| && walls[k] == p;
    assert Xs(walls)[k] == p.0 && Ys(walls)[k] == p.1;
  }

  /** Not in line with the topmost, bottommost, leftmost or rightmost wall. */
  predicate OffEdge(walls: seq<Cell>, t: Cell)
    requires |walls| > 0
  {
    t.1 != MinY(walls) && t.1 != MaxY(walls) && t.0 != MaxX(walls) && t.0 != MinX(walls)
  }

  /** The trimming comprehension. */
  function Trimmed(ts: seq<Cell>, walls: seq<Cell>): (r: seq<Cell>)
    requires |walls| > 0
    ensures forall t :: t in r <==> t in ts && OffEdge(walls, t)
  {
    if ts == [] then []
    else (if OffEdge(walls, ts[0]) then [ts[0]] else []) + Trimmed(ts[1..], walls)
  }

  /** The Rule 1 taboo list, before the Rule 2 runs are appended. */
  function Candidates(walls: seq<Cell>, targets: seq<Cell>): seq<Cell>
    requires |walls| > 0
  {
    Trimmed(Untargeted(Corners(walls, |walls|), targets), walls)
  }

  /** A corner lies within the walls' bounding box, since walls flank it on two sides. */
  lemma CornerInBox(walls: seq<Cell>, c: Cell)
    requires |walls| > 0 && IsCorner(walls, c)
    ensures MinX(walls) <= c.0 <= MaxX(walls) && MinY(walls) <= c.1 <= MaxY(walls)
  {
    if (c.0 - 1, c.1) in walls {
      WallInBox(walls, (c.0 - 1, c.1));
    } else {
      WallInBox(walls, (c.0 + 1, c.1));
    }
    if (c.0, c.1 - 1) in walls {
      WallInBox(walls, (c.0, c.1 - 1));
    } else {
      WallInBox(walls, (c.0, c.1 + 1));
    }
  }

  /** Rule 1 taboo cells: the corners that are not targets and lie strictly inside the walls' bounding box. */
  lemma CandidatesSpec(walls: seq<Cell>, targets: seq<Cell>, t: Cell)
    requires |walls| > 0
    ensures t in Candidates(walls, targets) <==> IsCorner(walls, t) && t !in targets && OffEdge(walls, t)
    ensures t in Candidates(walls, targets) ==>
      MinX(walls) < t.0 < MaxX(walls) && MinY(walls) < t.1 < MaxY(walls)
  {
    CornersAreCorners(walls);
    if IsCorner(walls, t) {
      CornerInBox(walls, t);
    }
  }

  // ---------------------------------------------------------------------------
  // Pairs of corners in line

  /** Two cells share a column or a row. */
  predicate Lined(a: Cell, b: Cell)
  {
    a.0 == b.0 || a.1 == b.1
  }

  /** One pass of the inner pair loop: `[t, T]` is added unless both orders are already present. */
  function PairStep(c: seq<Cell>, i: nat, j: nat, acc: seq<(Cell, Cell)>): seq<(Cell, Cell)>
    requires i < |c| && j < |c|
  {
    if Lined(c[j], c[i]) && i != j && ((c[j], c[i]) !in acc || (c[i], c[j]) !in acc)
    then acc + [(c[i], c[j])]
    else acc
  }

  /** The pair list after the inner loop has visited the first `j` partners of `c[i]`. */
  function PairsInner(c: seq<Cell>, i: nat, j: nat, acc: seq<(Cell, Cell)>): seq<(Cell, Cell)>
    requires i < |c| && j <= |c|
  {
    if j == 0 then acc else PairStep(c, i, j - 1, PairsInner(c, i, j - 1, acc))
  }

  /** The pair list after the outer loop has visited the first `i` cells. */
  function PairsOuter(c: seq<Cell>, i: nat): seq<(Cell, Cell)>
    requires i <= |c|
  {
    if i == 0 then [] else PairsInner(c, i - 1, |c|, PairsOuter(c, i - 1))
  }

  function Pairs(c: seq<Cell>): seq<(Cell, Cell)>
  {
    PairsOuter(c, |c|)
  }

  /** Positions `i` and `j` of `c` differ and hold cells in line. */
  predicate InLine(c: seq<Cell>, i: int, j: int)
  {
    0 <= i < |c| && 0 <= j < |c| && i != j && Lined(c[i], c[j])
  }

  /** `pr` is the ordered pair of the in-line cells at positions `i` and `j` of `c`. */
  predicate PairAt(c: seq<Cell>, i: int, j: int, pr: (Cell, Cell))
  {
    InLine(c, i, j) && pr == (c[i], c[j])
  }

  lemma {:induction false} PairsInnerSpec(c: seq<Cell>, i: nat, j: nat, acc: seq<(Cell, Cell)>)
    requires i < |c| && j <= |c|
    ensures forall pr :: pr in PairsInner(c, i, j, acc) <==> pr in acc || exists k :: 0 <= k < j && PairAt(c, i, k, pr)
  {
    if j > 0 {
      PairsInnerSpec(c, i, j - 1, acc);
      var before := PairsInner(c, i, j - 1, acc);
      assert PairsInner(c, i, j, acc) == PairStep(c, i, j - 1, before);
      forall pr ensures pr in PairStep(c, i, j - 1, before) <==> pr in before || PairAt(c, i, j - 1, pr) {
      }
    }
  }

  lemma {:induction false} PairsOuterSpec(c: seq<Cell>, i: nat)
    requires i <= |c|
    ensures forall pr :: pr in PairsOuter(c, i) <==> exists m, k :: 0 <= m < i && PairAt(c, m, k, pr)
  {
    if i > 0 {
      PairsOuterSpec(c, i - 1);
      PairsInnerSpec(c, i - 1, |c|, PairsOuter(c, i - 1));
      forall pr ensures pr in PairsOuter(c, i) <==> exists m, k :: 0 <= m < i && PairAt(c, m, k, pr) {
        if exists m, k :: 0 <= m < i && PairAt(c, m, k, pr) {
          var m, k :| 0 <= m < i && PairAt(c, m, k, pr);
          if m < i - 1 {
            assert exists m, k :: 0 <= m < i - 1 && PairAt(c, m, k, pr);
          } else {
            assert 0 <= k < |c| && PairAt(c, i - 1, k, pr);
          }
        }
      }
    }
  }

  /**
   * The pair list holds every ordered pair of in-line cells at different
   * positions (duplicates of one cell count as different), and nothing else.
   */
  lemma PairsSpec(c: seq<Cell>)
    ensures forall pr :: pr in Pairs(c) <==> exists i, j :: PairAt(c, i, j, pr)
  {
    PairsOuterSpec(c, |c|);
  }


  // ---------------------------------------------------------------------------
  // Rule 2: runs along a wall

  /** The column checked for walls beside a vertical run from `a`. */
  function SideColumn(walls: seq<Cell>, a: Cell): int
  {
    if (a.0 + 1, a.1) in walls then a.0 + 1 else a.0 - 1
  }

  /** The row checked for walls beside a horizontal run from `a`. */
  function SideRow(walls: seq<Cell>, a: Cell): int
  {
    if (a.0, a.1 + 1) in walls then a.1 + 1 else a.1 - 1
  }

  /** The cell at coordinate `i` of the run from `a`: down its column, or else along its row. */
  function RunCell(a: Cell, vertical: bool, i: int): Cell
  {
    if vertical then (a.0, i) else (i, a.1)
  }

  /** The cell beside `RunCell(a, vertical, i)` on the side chosen at the run's start. */
  function SideCell(walls: seq<Cell>, a: Cell, vertical: bool, i: int): Cell
  {
    if vertical then (SideColumn(walls, a), i) else (i, SideRow(walls, a))
  }

  /** The first coordinate of `range(...)` for the run from `a` to `b`, and the bound it stops before. */
  function Lo(a: Cell, b: Cell): int { if a.0 == b.0 then a.1 else a.0 }
  function Hi(a: Cell, b: Cell): int { if a.0 == b.0 then b.1 else b.0 }

  /** A cell of a run that sets `gap`: no wall beside it, or it is a wall or a target. */
  predicate Blocks(walls: seq<Cell>, targets: seq<Cell>, a: Cell, b: Cell, i: int)
  {
    var vertical := a.0 == b.0;
    SideCell(walls, a, vertical, i) !in walls || RunCell(a, vertical, i) in walls || RunCell(a, vertical, i) in targets
  }

  /** Some cell of the run from `a` to `b` blocks it. */
  predicate Gap(walls: seq<Cell>, targets: seq<Cell>, a: Cell, b: Cell)
  {
    exists i :: Lo(a, b) <= i < Hi(a, b) && Blocks(walls, targets, a, b, i)
  }

  /** Python's `len(range(lo, hi))`. */
  function Span(lo: int, hi: int): nat
  {
    if lo < hi then hi - lo else 0
  }

  /**
   * What one pair `[a, b]` contributes: every cell of `range(a, b)` along
   * their shared column (or else their shared row) when no cell blocks the
   * run, and nothing otherwise.
   */
  function Run(walls: seq<Cell>, targets: seq<Cell>, a: Cell, b: Cell): seq<Cell>
  {
    if Gap(walls, targets, a, b) then []
    else seq(Span(Lo(a, b), Hi(a, b)), k => RunCell(a, a.0 == b.0, Lo(a, b) + k))
  }

  /** `t` is a cell of `range(a, b)` along the shared column, or else the shared row. */
  predicate Between(a: Cell, b: Cell, t: Cell)
  {
    if a.0 == b.0 then t.0 == a.0 && a.1 <= t.1 < b.1 else t.1 == a.1 && a.0 <= t.0 < b.0
  }

  /** A wall stands beside `t` on the side chosen at the start of the run from `a` to `b`. */
  predicate AlongWall(walls: seq<Cell>, a: Cell, b: Cell, t: Cell)
  {
    if a.0 == b.0 then (SideColumn(walls, a), t.1) in walls else (t.0, SideRow(walls, a)) in walls
  }

  /**
   * Rule 2 for one pair: a run holds only free, non-target cells between the
   * two corners with a wall beside each; it is all of those cells or none,
   * and it is empty exactly when the range is empty or a cell blocks it.
   */
  lemma RunSpec(walls: seq<Cell>, targets: seq<Cell>, a: Cell, b: Cell, t: Cell)
    ensures t in Run(walls, targets, a, b) ==>
      Between(a, b, t) && t !in walls && t !in targets && AlongWall(walls, a, b, t)
    ensures Run(walls, targets, a, b) != [] && Between(a, b, t) ==> t in Run(walls, targets, a, b)
    ensures Run(walls, targets, a, b) == [] <==> Span(Lo(a, b), Hi(a, b)) == 0 || Gap(walls, targets, a, b)
  {
    var r := Run(walls, targets, a, b);
    var vertical := a.0 == b.0;
    var lo := Lo(a, b);
    if t in r {
      var k :| 0 <= k < |r| && r[k] == t;
      assert !Blocks(walls, targets, a, b, lo + k);
    }
    if r != [] && Between(a, b, t) {
      assert !Gap(walls, targets, a, b);
      var k := (if vertical then t.1 else t.0) - lo;
      assert 0 <= k < |r|;
      assert r[k] == RunCell(a, vertical, lo + k);
      if vertical {
        assert RunCell(a, vertical, lo + k) == (a.0, t.1);
      } else {
        assert RunCell(a, vertical, lo + k) == (t.0, a.1);
      }
    }
  }

  /** The cells appended for the first `n` pairs. */
  function Runs(walls: seq<Cell>, targets: seq<Cell>, pairs: seq<(Cell, Cell)>, n: nat): seq<Cell>
    requires n <= |pairs|
  {
    if n == 0 then [] else Runs(walls, targets, pairs, n - 1) + Run(walls, targets, pairs[n - 1].0, pairs[n - 1].1)
  }

  lemma {:induction false} RunsSpec(walls: seq<Cell>, targets: seq<Cell>, pairs: seq<(Cell, Cell)>, n: nat)
    requires n <= |pairs|
    ensures forall t :: t in Runs(walls, targets, pairs, n) <==>
      exists k :: 0 <= k < n && t in Run(walls, targets, pairs[k].0, pairs[k].1)
  {
    if n > 0 {
      RunsSpec(walls, targets, pairs, n - 1);
    }
  }

  /** gen_taboos: the Rule 1 cells, then every Rule 2 run; None where `min` meets an empty wall list. */
  function TabooList(walls: seq<Cell>, targets: seq<Cell>): Option<seq<Cell>>
  {
    if |walls| == 0 then None
    else
      var c := Candidates(walls, targets);
      Some(c + Runs(walls, targets, Pairs(c), |Pairs(c)|))
  }

  /** gen_taboos reads only the warehouse's walls and targets. */
  function Taboos(w: Warehouse): Option<seq<Cell>>
  {
    TabooList(w.walls, w.targets)
  }

  // ---------------------------------------------------------------------------
  // The imperative gen_taboos

  /** The corner loop of gen_taboos. */
  method FindCorners(walls: seq<Cell>) returns (taboo: seq<Cell>)
    ensures taboo == Corners(walls, |walls|)
  {
    taboo := [];
    for k := 0 to |walls|
      invariant taboo == Corners(walls, k)
    {
      var x, y := walls[k].0, walls[k].1;
      if (x + 1, y) !in walls && ((x + 1, y + 1) in walls || (x + 1, y - 1) in walls) {
        taboo := taboo + [(x + 1, y)];
      }
      if (x - 1, y) !in walls && ((x - 1, y + 1) in walls || (x - 1, y - 1) in walls) {
        taboo := taboo + [(x - 1, y)];
      }
      assert taboo == Corners(walls, k) + CornerStep(walls, walls[k]);
    }
  }

  /** The nested loops of gen_taboos that collect the pairs of in-line cells. */
  method FindPairs(c: seq<Cell>) returns (pairs: seq<(Cell, Cell)>)
    ensures pairs == Pairs(c)
  {
    pairs := [];
    for i := 0 to |c|
      invariant pairs == PairsOuter(c, i)
    {
      for j := 0 to |c|
        invariant pairs == PairsInner(c, i, j, PairsOuter(c, i))
      {
        var t, other := c[i], c[j];
        if (other.0 == t.0 || t.1 == other.1) && i != j {
          if (other, t) !in pairs || (t, other) !in pairs {
            pairs := pairs + [(t, other)];
          }
        }
      }
    }
  }

  /** One iteration of the pair loop of gen_taboos: scan the run for a gap, then list its cells. */
  method WallRun(walls: seq<Cell>, targets: seq<Cell>, a: Cell, b: Cell) returns (cells: seq<Cell>)
    ensures cells == Run(walls, targets, a, b)
  {
    var vertical := a.0 == b.0;
    var lo, hi := Lo(a, b), Hi(a, b);
    var gap := false;
    var i := lo;
    while i < hi
      invariant lo <= i && (i <= hi || i == lo)
      invariant gap <==> exists k :: lo <= k < i && Blocks(walls, targets, a, b, k)
      decreases hi - i
    {
      var cell, beside := RunCell(a, vertical, i), SideCell(walls, a, vertical, i);
      if beside !in walls || cell in walls || cell in targets {
        assert Blocks(walls, targets, a, b, i);
        gap := true;
      } else {
        assert !Blocks(walls, targets, a, b, i);
      }
      i := i + 1;
    }
    assert gap <==> Gap(walls, targets, a, b);
    cells := [];
    if !gap {
      i := lo;
      while i < hi
        invariant lo <= i && (i <= hi || i == lo)
        invariant cells == seq(i - lo, k => RunCell(a, vertical, lo + k))
        decreases hi - i
      {
        cells := cells + [RunCell(a, vertical, i)];
        i := i + 1;
      }
    }
  }

  /** gen_taboos: the corner loop, the two filters, the pair loops and the run loop. */
  method GenTaboos(w: Warehouse) returns (r: Option<seq<Cell>>)
    ensures r == Taboos(w)
  {
    var taboo := FindCorners(w.walls);
    taboo := Untargeted(taboo, w.targets);
    if |w.walls| == 0 {
      // min() of an empty sequence raises
      return None;
    }
    taboo := Trimmed(taboo, w.walls);
    assert taboo == Candidates(w.walls, w.targets);
    var pairs := FindPairs(taboo);
    ghost var candidates := taboo;
    for k := 0 to |pairs|
      invariant taboo == candidates + Runs(w.walls, w.targets, pairs, k)
    {
      var run := WallRun(w.walls, w.targets, pairs[k].0, pairs[k].1);
      assert candidates + Runs(w.walls, w.targets, pairs, k + 1) == candidates + Runs(w.walls, w.targets, pairs, k) + run;
      taboo := taboo + run;
    }
    r := Some(taboo);
  }

  // ---------------------------------------------------------------------------
  // What gen_taboos promises

  /**
   * The taboo cells are exactly the Rule 1 cells (corners, not targets, off
   * the bounding box's edges) and the cells of every unblocked run between
   * two in-line Rule 1 cells.
   */
  lemma TaboosSpec(w: Warehouse, t: Cell)
    ensures Taboos(w).Some? <==> |w.walls| > 0
    ensures Taboos(w).Some? ==> (t in Taboos(w).value <==>
      (IsCorner(w.walls, t) && t !in w.targets && OffEdge(w.walls, t)) ||
      exists i, j :: InLine(Candidates(w.walls, w.targets), i, j) &&
        t in Run(w.walls, w.targets, Candidates(w.walls, w.targets)[i], Candidates(w.walls, w.targets)[j]))
  {
    if |w.walls| > 0 {
      var c := Candidates(w.walls, w.targets);
      var pairs := Pairs(c);
      CandidatesSpec(w.walls, w.targets, t);
      RunsSpec(w.walls, w.targets, pairs, |pairs|);
      PairsSpec(c);
      if t in Runs(w.walls, w.targets, pairs, |pairs|) {
        var k :| 0 <= k < |pairs| && t in Run(w.walls, w.targets, pairs[k].0, pairs[k].1);
        assert pairs[k] in pairs;
        var i, j :| PairAt(c, i, j, pairs[k]);
        assert InLine(c, i, j) && t in Run(w.walls, w.targets, c[i], c[j]);
      }
      if exists i, j :: InLine(c, i, j) && t in Run(w.walls, w.targets, c[i], c[j]) {
        var i, j :| InLine(c, i, j) && t in Run(w.walls, w.targets, c[i], c[j]);
        assert PairAt(c, i, j, (c[i], c[j]));
        assert (c[i], c[j]) in pairs;
        var k :| 0 <= k < |pairs| && pairs[k] == (c[i], c[j]);
        assert t in Run(w.walls, w.targets, pairs[k].0, pairs[k].1);
      }
    }
  }

  /** A run between two in-line Rule 1 cells stays strictly inside the walls' bounding box. */
  lemma RunInside(walls: seq<Cell>, targets: seq<Cell>, a: Cell, b: Cell, t: Cell)
    requires |walls| > 0 && a in Candidates(walls, targets) && b in Candidates(walls, targets) && Lined(a, b)
    requires t in Run(walls, targets, a, b)
    ensures t !in walls && t !in targets
    ensures MinX(walls) < t.0 < MaxX(walls) && MinY(walls) < t.1 < MaxY(walls)
  {
    CandidatesSpec(walls, targets, a);
    CandidatesSpec(walls, targets, b);
    RunSpec(walls, targets, a, b, t);
  }

  /**
   * No taboo cell is a target or a wall, and every taboo cell lies strictly
   * inside the walls' bounding box.
   */
  lemma TaboosSound(w: Warehouse, t: Cell)
    requires Taboos(w).Some? && t in Taboos(w).value
    ensures t !in w.targets && t !in w.walls
    ensures MinX(w.walls) < t.0 < MaxX(w.walls) && MinY(w.walls) < t.1 < MaxY(w.walls)
  {
    TaboosSpec(w, t);
    var c := Candidates(w.walls, w.targets);
    CandidatesSpec(w.walls, w.targets, t);
    if !(IsCorner(w.walls, t) && t !in w.targets && OffEdge(w.walls, t)) {
      var i, j :| InLine(c, i, j) && t in Run(w.walls, w.targets, c[i], c[j]);
      RunInside(w.walls, w.targets, c[i], c[j], t);
    }
  }

  // ---------------------------------------------------------------------------
  // taboo_cells

  /** The character taboo_cells leaves at `p`: `X` over `#` over blank. */
  function TabooGlyph(walls: seq<Cell>, taboo: seq<Cell>, width: int, height: int, p: Cell): char
  {
    Painted(taboo, width, height, p, 'X', Painted(walls, width, height, p, '#', ' '))
  }

  function TabooRows(walls: seq<Cell>, taboo: seq<Cell>, width: nat, height: nat): seq<string>
  {
    seq(height, y requires 0 <= y < height =>
      seq(width, x requires 0 <= x < width => TabooGlyph(walls, taboo, width, height, (x, y))))
  }

  /**
   * What taboo_cells returns, or None where it raises: gen_taboos fails on an
   * empty wall list, and a wall or taboo cell may index outside the grid.
   */
  function TabooDrawing(w: Warehouse): Option<string>
  {
    match Taboos(w)
    case None => None
    case Some(taboo) =>
      var width, height := Width(w), Height(w);
      if width > 0 && height > 0 && AllFit(w.walls, width, height) && AllFit(taboo, width, height)
      then Some(JoinLines(TabooRows(w.walls, taboo, width, height)))
      else None
  }

  /** Rows that agree with TabooGlyph everywhere are the drawn rows. */
  lemma TabooRowsFromGlyphs(walls: seq<Cell>, taboo: seq<Cell>, width: nat, height: nat, rows: seq<string>)
    requires |rows| == height && forall y :: 0 <= y < height ==> |rows[y]| == width
    requires forall y, x :: 0 <= y < height && 0 <= x < width ==> rows[y][x] == TabooGlyph(walls, taboo, width, height, (x, y))
    ensures rows == TabooRows(walls, taboo, width, height)
  {
    var expected := TabooRows(walls, taboo, width, height);
    forall y | 0 <= y < height
      ensures rows[y] == expected[y]
    {
      assert |expected[y]| == width;
    }
  }

  /** taboo_cells: draw the walls, then the taboo cells, on a blank grid the size of the walls. */
  method TabooCells(w: Warehouse) returns (r: Option<string>)
    ensures r == TabooDrawing(w)
  {
    var taboo := GenTaboos(w);
    if taboo.None? {
      return None;
    }
    var width := 1 + Max(Xs(w.walls));
    var height := 1 + Max(Ys(w.walls));
    if width <= 0 || height <= 0 {
      // every wall index fails on an empty grid
      assert !Fits(w.walls[0], width, height);
      return None;
    }
    var vis := new char[height, width]((_, _) => ' ');
    var ok := PaintCells(vis, w.walls, '#');
    if !ok {
      return None;
    }
    ok := PaintCells(vis, taboo.value, 'X');
    if !ok {
      return None;
    }
    var rows := GridRows(vis);
    TabooRowsFromGlyphs(w.walls, taboo.value, width, height, rows);
    assert Width(w) == width && Height(w) == height;
    r := Some(JoinLines(rows));
  }

  lemma TabooRowsAt(walls: seq<Cell>, taboo: seq<Cell>, width: nat, height: nat, p: Cell)
    ensures forall c :: At(TabooRows(walls, taboo, width, height), p, c) <==>
      0 <= p.0 < width && 0 <= p.1 < height && TabooGlyph(walls, taboo, width, height, p) == c
  {
  }

  /** On walls with non-negative coordinates, the walls and the taboo cells index the grid as they are. */
  lemma TaboosOnGrid(w: Warehouse)
    requires |w.walls| > 0 && NonNegative(w.walls)
    ensures Taboos(w).Some?
    ensures Width(w) > 0 && Height(w) > 0
    ensures Slots(w.walls, Width(w), Height(w)) == w.walls
    ensures Slots(Taboos(w).value, Width(w), Height(w)) == Taboos(w).value
    ensures AllFit(w.walls, Width(w), Height(w)) && AllFit(Taboos(w).value, Width(w), Height(w))
  {
    var taboo := Taboos(w).value;
    var width, height := Width(w), Height(w);
    assert MinX(w.walls) >= 0 && MinY(w.walls) >= 0 by {
      assert Xs(w.walls)[0] == w.walls[0].0;
      assert Ys(w.walls)[0] == w.walls[0].1;
    }
    WallInBox(w.walls, w.walls[0]);
    assert AllFit(w.walls, width, height) by {
      forall k | 0 <= k < |w.walls| ensures Fits(w.walls[k], width, height) {
        WallInBox(w.walls, w.walls[k]);
      }
    }
    assert AllFit(taboo, width, height) && NonNegative(taboo) by {
      forall k | 0 <= k < |taboo| ensures Fits(taboo[k], width, height) && taboo[k].0 >= 0 && taboo[k].1 >= 0 {
        TaboosSound(w, taboo[k]);
      }
    }
    SlotsIdentity(w.walls, width, height);
    SlotsIdentity(taboo, width, height);
  }

  /** On a grid where the cells index as they are and no taboo cell is a wall, the drawing shows each as drawn. */
  lemma TabooGridSpec(walls: seq<Cell>, taboo: seq<Cell>, width: nat, height: nat, p: Cell)
    requires Slots(walls, width, height) == walls && Slots(taboo, width, height) == taboo
    requires forall t :: t in walls || t in taboo ==> 0 <= t.0 < width && 0 <= t.1 < height
    requires forall t :: t in taboo ==> t !in walls
    ensures At(TabooRows(walls, taboo, width, height), p, 'X') <==> p in taboo
    ensures At(TabooRows(walls, taboo, width, height), p, '#') <==> p in walls
  {
    TabooRowsAt(walls, taboo, width, height, p);
  }

  /**
   * On walls with non-negative coordinates, taboo_cells succeeds, and its
   * rows show `#` exactly at the walls and `X` exactly at the taboo cells.
   */
  lemma TabooDrawingSpec(w: Warehouse, p: Cell)
    requires |w.walls| > 0 && NonNegative(w.walls)
    ensures Taboos(w).Some?
    ensures TabooDrawing(w) == Some(JoinLines(TabooRows(w.walls, Taboos(w).value, Width(w), Height(w))))
    ensures var rows := TabooRows(w.walls, Taboos(w).value, Width(w), Height(w));
      && (At(rows, p, 'X') <==> p in Taboos(w).value)
      && (At(rows, p, '#') <==> p in w.walls)
  {
    var taboo := Taboos(w).value;
    var width, height := Width(w), Height(w);
    TaboosOnGrid(w);
    forall t | t in w.walls || t in taboo
      ensures 0 <= t.0 < width && 0 <= t.1 < height && (t in taboo ==> t !in w.walls)
    {
      if t in taboo {
        TaboosSound(w, t);
      } else {
        WallInBox(w.walls, t);
      }
    }
    TabooGridSpec(w.walls, taboo, width, height, p);
  }
}
