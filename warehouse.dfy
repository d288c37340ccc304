/**
 * The warehouse value of sokoban.py: locating characters in the text of a
 * puzzle, building a warehouse from those locations, rendering it back to
 * text, and the equality and hash that the search uses on states.
 */
module Warehouses {
  import opened Common
  import opened Folds
  import opened XorLaws

  // ---------------------------------------------------------------------------
  // Locating characters: find_1D_iterator and find_2D_iterator

  /** Python's `line.find(c, start)`: the lowest index at or after `start` holding `c`, or -1. */
  function FindFrom(line: string, c: char, start: nat): (r: int)
    ensures r == -1 || (start <= r < |line| && line[r] == c)
    ensures forall i :: start <= i < |line| && (r == -1 || i < r) ==> line[i] != c
    decreases |line| - start
  {
    if start >= |line| then -1
    else if line[start] == c then start
    else FindFrom(line, c, start + 1)
  }

  /** The offsets at or after `start` where `c` occurs in `line`, in increasing order. */
  function OccurrencesFrom(line: string, c: char, start: nat): (r: seq<nat>)
    decreases |line| - start
  {
    if start >= |line| then []
    else (if line[start] == c then [start] else []) + OccurrencesFrom(line, c, start + 1)
  }

  /** OccurrencesFrom lists exactly the offsets at or after `start` holding `c`, strictly increasing. */
  lemma {:induction false} OccurrencesFromSpec(line: string, c: char, start: nat)
    ensures forall k :: 0 <= k < |OccurrencesFrom(line, c, start)| ==>
      start <= OccurrencesFrom(line, c, start)[k] < |line| && line[OccurrencesFrom(line, c, start)[k]] == c
    ensures forall i :: start <= i < |line| && line[i] == c ==> i in OccurrencesFrom(line, c, start)
    ensures forall j, k :: 0 <= j < k < |OccurrencesFrom(line, c, start)| ==>
      OccurrencesFrom(line, c, start)[j] < OccurrencesFrom(line, c, start)[k]
    decreases |line| - start
  {
    if start < |line| {
      OccurrencesFromSpec(line, c, start + 1);
    }
  }

  /** All offsets of `c` in `line`, in increasing order: what find_1D_iterator yields. */
  function Occurrences(line: string, c: char): seq<nat>
  {
    OccurrencesFrom(line, c, 0)
  }

  /** One call of `find` skips exactly the offsets that do not hold `c`. */
  lemma {:induction false} FindFromOccurrences(line: string, c: char, start: nat)
    ensures FindFrom(line, c, start) == -1 ==> OccurrencesFrom(line, c, start) == []
    ensures FindFrom(line, c, start) != -1 ==>
      OccurrencesFrom(line, c, start) == [FindFrom(line, c, start) as nat] + OccurrencesFrom(line, c, FindFrom(line, c, start) + 1)
    decreases |line| - start
  {
    var p := FindFrom(line, c, start);
    if start >= |line| {
      assert p == -1;
    } else if line[start] == c {
      assert p == start;
    } else {
      FindFromOccurrences(line, c, start + 1);
      assert p == FindFrom(line, c, start + 1);
      assert OccurrencesFrom(line, c, start) == [] + OccurrencesFrom(line, c, start + 1);
    }
  }

  /** find_1D_iterator: the generator's `while` loop, collecting what it yields. */
  method Find1DIterator(line: string, c: char) returns (ps: seq<nat>)
    ensures ps == Occurrences(line, c)
    ensures forall i :: 0 <= i < |line| ==> (line[i] == c <==> i in ps)
    ensures forall j, k :: 0 <= j < k < |ps| ==> ps[j] < ps[k]
  {
    ps := [];
    var pos := FindFrom(line, c, 0);
    ghost var from: nat := 0;
    while pos != -1
      invariant pos == FindFrom(line, c, from)
      invariant ps + OccurrencesFrom(line, c, from) == Occurrences(line, c)
      decreases |line| - from
    {
      YieldStep(line, c, ps, from);
      ps := ps + [pos as nat];
      from := pos + 1;
      pos := FindFrom(line, c, pos + 1);
    }
    FindFromOccurrences(line, c, from);
    assert ps + [] == ps;
    OccurrencesSpec(line, c);
  }

  /** One pass of find_1D_iterator's loop: the offset `find` returns is the next one still to be yielded. */
  lemma YieldStep(line: string, c: char, ps: seq<nat>, from: nat)
    requires FindFrom(line, c, from) != -1
    requires ps + OccurrencesFrom(line, c, from) == Occurrences(line, c)
    ensures (ps + [FindFrom(line, c, from) as nat]) + OccurrencesFrom(line, c, FindFrom(line, c, from) + 1) == Occurrences(line, c)
  {
    var pos := FindFrom(line, c, from);
    FindFromOccurrences(line, c, from);
    var next := OccurrencesFrom(line, c, pos + 1);
    assert ps + [pos as nat] + next == ps + ([pos as nat] + next);
  }

  /** Occurrences lists every offset of `c` in `line` and nothing else, in increasing order. */
  lemma OccurrencesSpec(line: string, c: char)
    ensures forall i :: 0 <= i < |line| ==> (line[i] == c <==> i in Occurrences(line, c))
    ensures forall j, k :: 0 <= j < k < |Occurrences(line, c)| ==> Occurrences(line, c)[j] < Occurrences(line, c)[k]
  {
    OccurrencesFromSpec(line, c, 0);
  }

  /** Grid position `p` = (x, y) of `lines` holds `c`. */
  predicate At(lines: seq<string>, p: Cell, c: char)
  {
    0 <= p.1 < |lines| && 0 <= p.0 < |lines[p.1]| && lines[p.1][p.0] == c
  }

  /** The cells (x, y) for the offsets `xs` of row `y`. */
  function RowCells(xs: seq<nat>, y: int): seq<Cell>
  {
    seq(|xs|, k requires 0 <= k < |xs| => (xs[k] as int, y))
  }

  /** The cells of one row are exactly that row's occurrences, in increasing column order. */
  lemma RowCellsSpec(lines: seq<string>, c: char, n: nat)
    requires n < |lines|
    ensures forall p :: p in RowCells(Occurrences(lines[n], c), n) <==> At(lines, p, c) && p.1 == n
    ensures forall j, k :: 0 <= j < k < |RowCells(Occurrences(lines[n], c), n)| ==>
      RowMajorBefore(RowCells(Occurrences(lines[n], c), n)[j], RowCells(Occurrences(lines[n], c), n)[k])
  {
    var xs := Occurrences(lines[n], c);
    var last := RowCells(xs, n);
    OccurrencesFromSpec(lines[n], c, 0);
    forall p | At(lines, p, c) && p.1 == n ensures p in last {
      var k :| 0 <= k < |xs| && xs[k] == p.0;
      assert last[k] == p;
    }
  }

  /** Rows above the last are located the same way in the whole grid as in the grid without its last row. */
  lemma AtPrefix(lines: seq<string>, c: char, n: nat, p: Cell)
    requires n == |lines| - 1
    ensures At(lines[..n], p, c) <==> At(lines, p, c) && p.1 < n
  {
  }

  /** find_2D_iterator: every (x, y) with `lines[y][x] == c`, in row-major order. */
  function Find2D(lines: seq<string>, c: char): (r: seq<Cell>)
    ensures forall p :: p in r <==> At(lines, p, c)
    ensures forall j, k :: 0 <= j < k < |r| ==> RowMajorBefore(r[j], r[k])
  {
    if lines == [] then []
    else
      var n := |lines| - 1;
      var front := Find2D(lines[..n], c);
      var last := RowCells(Occurrences(lines[n], c), n);
      RowCellsSpec(lines, c, n);
      assert forall p :: p in front <==> At(lines, p, c) && p.1 < n by {
        forall p ensures p in front <==> At(lines, p, c) && p.1 < n {
          AtPrefix(lines, c, n, p);
        }
      }
      assert forall j, k :: 0 <= j < k < |front + last| ==> RowMajorBefore((front + last)[j], (front + last)[k]) by {
        forall j, k | 0 <= j < k < |front + last|
          ensures RowMajorBefore((front + last)[j], (front + last)[k])
        {
          if k < |front| {
            assert (front + last)[j] == front[j] && (front + last)[k] == front[k];
          } else if j >= |front| {
            assert (front + last)[j] == last[j - |front|] && (front + last)[k] == last[k - |front|];
          } else {
            assert (front + last)[j] == front[j] && front[j] in front;
            assert (front + last)[k] == last[k - |front|] && last[k - |front|] in last;
          }
        }
      }
      front + last
  }

  // ---------------------------------------------------------------------------
  // The Warehouse value

  /**
   * A warehouse: the worker's cell and the boxes (both change as the puzzle
   * is played), and the targets and walls (fixed).  All four are Python lists;
   * the box list's order matters for equality.
   */
  datatype Warehouse = Warehouse(worker: Cell, boxes: seq<Cell>, targets: seq<Cell>, walls: seq<Cell>)

  /**
   * copy: the walls and targets are shared with the original; a worker or box
   * list given as an argument replaces the original's unless it is falsy,
   * and an empty box list is falsy.
   */
  function Copy(w: Warehouse, worker: Option<Cell>, boxes: Option<seq<Cell>>): (r: Warehouse)
    ensures r.walls == w.walls && r.targets == w.targets
    ensures r.worker == (if worker.Some? then worker.value else w.worker)
    ensures boxes.Some? && boxes.value != [] ==> r.boxes == boxes.value
    ensures boxes.None? || boxes.value == [] ==> r.boxes == w.boxes
  {
    Warehouse(if worker.Some? then worker.value else w.worker,
              if boxes.Some? && boxes.value != [] then boxes.value else w.boxes,
              w.targets, w.walls)
  }

  /**
   * extract_locations: None when its assertions fail (not exactly one worker,
   * or a different number of boxes and targets).  Boxes are the `$` cells
   * followed by the `*` cells; targets are the `.` cells, then the `*` cells,
   * then the worker's cell if it is `!`; walls are the `#` cells.
   */
  function ExtractLocations(lines: seq<string>): (r: Option<Warehouse>)
    ensures r.None? <==>
      |Find2D(lines, '@')| + |Find2D(lines, '!')| != 1 ||
      |Find2D(lines, '$')| != |Find2D(lines, '.')| + |Find2D(lines, '!')|
    ensures r.Some? ==> forall p :: (At(lines, p, '@') || At(lines, p, '!')) <==> p == r.value.worker
    ensures r.Some? ==> forall p :: p in r.value.boxes <==> At(lines, p, '$') || At(lines, p, '*')
    ensures r.Some? ==> forall p :: p in r.value.targets <==> At(lines, p, '.') || At(lines, p, '*') || At(lines, p, '!')
    ensures r.Some? ==> forall p :: p in r.value.walls <==> At(lines, p, '#')
    ensures r.Some? ==> |r.value.boxes| == |r.value.targets|
    ensures r.Some? ==> r.value.worker == (if |Find2D(lines, '@')| == 1 then Find2D(lines, '@')[0] else Find2D(lines, '!')[0])
    ensures r.Some? ==> r.value.boxes == Find2D(lines, '$') + Find2D(lines, '*')
    ensures r.Some? ==>
      r.value.targets == Find2D(lines, '.') + Find2D(lines, '*') + (if |Find2D(lines, '!')| == 1 then [r.value.worker] else [])
    ensures r.Some? ==> r.value.walls == Find2D(lines, '#')
  {
    var workers := Find2D(lines, '@');
    var workersOnTarget := Find2D(lines, '!');
    if |workers| + |workersOnTarget| != 1 then None
    else
      var worker := if |workers| == 1 then workers[0] else workersOnTarget[0];
      var boxes := Find2D(lines, '$') + Find2D(lines, '*');
      var targets := Find2D(lines, '.') + Find2D(lines, '*') + (if |workersOnTarget| == 1 then [worker] else []);
      var walls := Find2D(lines, '#');
      if |boxes| != |targets| then None
      else
        SoleWorker(lines, worker);
        Some(Warehouse(worker, boxes, targets, walls))
  }

  /** With exactly one worker glyph, `worker` is the one cell showing `@` or `!`. */
  lemma SoleWorker(lines: seq<string>, worker: Cell)
    requires |Find2D(lines, '@')| + |Find2D(lines, '!')| == 1
    requires worker == if |Find2D(lines, '@')| == 1 then Find2D(lines, '@')[0] else Find2D(lines, '!')[0]
    ensures forall p :: (At(lines, p, '@') || At(lines, p, '!')) <==> p == worker
  {
    var both := Find2D(lines, '@') + Find2D(lines, '!');
    assert |both| == 1 && both[0] == worker;
    assert forall p :: p in both <==> p == worker;
  }

  /** `__eq__`: two warehouses are equal when their workers and ordered box lists are; walls and targets are ignored. */
  predicate Equal(a: Warehouse, b: Warehouse): (r: bool)
    ensures a == b ==> r
    ensures r && a.walls == b.walls && a.targets == b.targets ==> a == b
    ensures r ==> multiset(a.boxes) == multiset(b.boxes)
  {
    a.worker == b.worker && a.boxes == b.boxes
  }

  /** Among warehouses sharing their walls and targets, `__eq__` is exactly value equality. */
  lemma EqualIsIdentityOnSharedBoard(a: Warehouse, b: Warehouse)
    requires a.walls == b.walls && a.targets == b.targets
    ensures Equal(a, b) <==> a == b
  {
  }

  /**
   * `__hash__`, with the hash of a cell supplied as `h` (Python's built-in
   * tuple hash is not modelled).  `reduce` over an empty box list raises, so
   * a warehouse without boxes has no hash.
   */
  function Hash(w: Warehouse, h: Cell -> bv64): (r: Option<bv64>)
    ensures r.None? <==> w.boxes == []
  {
    if w.boxes == [] then None else Some(Xor(h(w.worker), Reduce(w.boxes, h, Xor)))
  }

  /** Equal warehouses hash alike, and so do warehouses whose box lists are permutations of each other. */
  lemma HashRespectsEquality(a: Warehouse, b: Warehouse, h: Cell -> bv64)
    requires a.worker == b.worker && multiset(a.boxes) == multiset(b.boxes)
    ensures Hash(a, h) == Hash(b, h)
  {
    if a.boxes != [] {
      XorCommutes();
      XorAssociates();
      ReducePermutation(a.boxes, b.boxes, h, Xor);
    } else {
      assert |b.boxes| == |multiset(b.boxes)| == 0;
    }
  }


  // ---------------------------------------------------------------------------
  // Rendering: __str__

  /** A Python list of length n accepts the index i when -n <= i < n. */
  predicate IndexOk(i: int, n: int)
  {
    -n <= i < n
  }

  /** The position a legal Python index addresses: negative indices count from the end. */
  function Wrap(i: int, n: int): int
  {
    if i < 0 then i + n else i
  }

  /** `vis[p.1][p.0]` is a legal access on a grid of the given size. */
  predicate Fits(p: Cell, width: int, height: int)
  {
    IndexOk(p.0, width) && IndexOk(p.1, height)
  }

  /** The grid position that `vis[p.1][p.0]` addresses. */
  function Slot(p: Cell, width: int, height: int): Cell
  {
    (Wrap(p.0, width), Wrap(p.1, height))
  }

  function Slots(cells: seq<Cell>, width: int, height: int): seq<Cell>
  {
    seq(|cells|, k requires 0 <= k < |cells| => Slot(cells[k], width, height))
  }

  predicate AllFit(cells: seq<Cell>, width: int, height: int)
  {
    forall k :: 0 <= k < |cells| ==> Fits(cells[k], width, height)
  }

  /** `x_size`: one more than the largest wall column. */
  function Width(w: Warehouse): int
    requires |w.walls| > 0
  {
    1 + Max(Xs(w.walls))
  }

  /** `y_size`: one more than the largest wall row. */
  function Height(w: Warehouse): int
    requires |w.walls| > 0
  {
    1 + Max(Ys(w.walls))
  }

  /**
   * `__str__` raises unless there is a wall (else `zip(*self.walls)` cannot be
   * unpacked) and every wall, target, box and the worker index the grid legally.
   */
  predicate Renderable(w: Warehouse)
  {
    && |w.walls| > 0
    && Width(w) > 0 && Height(w) > 0
    && AllFit(w.walls, Width(w), Height(w))
    && AllFit(w.targets, Width(w), Height(w))
    && Fits(w.worker, Width(w), Height(w))
    && AllFit(w.boxes, Width(w), Height(w))
  }

  /** `ch` where one of `cells` lands on position `p`, `under` elsewhere. */
  function Painted(cells: seq<Cell>, width: int, height: int, p: Cell, ch: char, under: char): char
  {
    if p in Slots(cells, width, height) then ch else under
  }

  /** The grid after walls (`#`) and then targets (`.`) are painted on blank floor. */
  function Floor(w: Warehouse, width: int, height: int, p: Cell): char
  {
    Painted(w.targets, width, height, p, '.', Painted(w.walls, width, height, p, '#', ' '))
  }

  /** The worker is `!` over a target and `@` elsewhere. */
  function WorkerLayer(w: Warehouse, width: int, height: int, p: Cell, under: char): char
  {
    if Slot(w.worker, width, height) == p then (if under == '.' then '!' else '@') else under
  }

  /**
   * After `k` boxes are painted on a position showing `under`: the first box
   * turns `.` into `*` and anything else into `$`; a further box sees no `.`.
   */
  function BoxLayer(under: char, k: nat): char
  {
    if k == 0 then under else if k == 1 && under == '.' then '*' else '$'
  }

  /** The character `__str__` leaves at position `p`. */
  function Glyph(w: Warehouse, width: int, height: int, p: Cell): char
  {
    BoxLayer(WorkerLayer(w, width, height, p, Floor(w, width, height, p)), multiset(Slots(w.boxes, width, height))[p])
  }

  /** The rows of the rendered grid. */
  function Rows(w: Warehouse, width: nat, height: nat): seq<string>
  {
    seq(height, y requires 0 <= y < height => seq(width, x requires 0 <= x < width => Glyph(w, width, height, (x, y))))
  }

  /** What `__str__` returns, or None where it raises. */
  function Rendered(w: Warehouse): Option<string>
  {
    if Renderable(w) then Some(JoinLines(Rows(w, Width(w), Height(w)))) else None
  }

  /** One painting loop of `__str__`: write `ch` at every cell, raising at the first illegal index. */
  method PaintCells(vis: array2<char>, cells: seq<Cell>, ch: char) returns (ok: bool)
    modifies vis
    ensures ok <==> AllFit(cells, vis.Length1, vis.Length0)
    ensures ok ==> forall y, x :: 0 <= y < vis.Length0 && 0 <= x < vis.Length1 ==>
      vis[y, x] == Painted(cells, vis.Length1, vis.Length0, (x, y), ch, old(vis[y, x]))
  {
    var width, height := vis.Length1, vis.Length0;
    var i := 0;
    while i < |cells|
      invariant 0 <= i <= |cells|
      invariant AllFit(cells[..i], width, height)
      invariant forall y, x :: 0 <= y < height && 0 <= x < width ==>
        vis[y, x] == Painted(cells[..i], width, height, (x, y), ch, old(vis[y, x]))
    {
      var p := cells[i];
      if !Fits(p, width, height) {
        return false;
      }
      vis[Wrap(p.1, height), Wrap(p.0, width)] := ch;
      assert Slots(cells[..i + 1], width, height) == Slots(cells[..i], width, height) + [Slot(p, width, height)];
      i := i + 1;
    }
    assert cells[..i] == cells;
    return true;
  }

  /** The box loop of `__str__`: `*` over a `.`, `$` over anything else. */
  method PaintBoxes(vis: array2<char>, boxes: seq<Cell>) returns (ok: bool)
    modifies vis
    ensures ok <==> AllFit(boxes, vis.Length1, vis.Length0)
    ensures ok ==> forall y, x :: 0 <= y < vis.Length0 && 0 <= x < vis.Length1 ==>
      vis[y, x] == BoxLayer(old(vis[y, x]), multiset(Slots(boxes, vis.Length1, vis.Length0))[(x, y)])
  {
    var width, height := vis.Length1, vis.Length0;
    var i := 0;
    while i < |boxes|
      invariant 0 <= i <= |boxes|
      invariant AllFit(boxes[..i], width, height)
      invariant forall y, x :: 0 <= y < height && 0 <= x < width ==>
        vis[y, x] == BoxLayer(old(vis[y, x]), multiset(Slots(boxes[..i], width, height))[(x, y)])
    {
      var p := boxes[i];
      if !Fits(p, width, height) {
        return false;
      }
      var px, py := Wrap(p.0, width), Wrap(p.1, height);
      if vis[py, px] == '.' {
        vis[py, px] := '*';
      } else {
        vis[py, px] := '$';
      }
      assert Slots(boxes[..i + 1], width, height) == Slots(boxes[..i], width, height) + [Slot(p, width, height)];
      i := i + 1;
    }
    assert boxes[..i] == boxes;
    return true;
  }

  /** The worker step of `__str__`: `!` over a `.`, `@` over anything else. */
  method PaintWorker(vis: array2<char>, worker: Cell) returns (ok: bool)
    modifies vis
    ensures ok <==> Fits(worker, vis.Length1, vis.Length0)
    ensures ok ==> forall y, x :: 0 <= y < vis.Length0 && 0 <= x < vis.Length1 ==>
      vis[y, x] == (if Slot(worker, vis.Length1, vis.Length0) == (x, y)
                    then (if old(vis[y, x]) == '.' then '!' else '@')
                    else old(vis[y, x]))
  {
    if !Fits(worker, vis.Length1, vis.Length0) {
      return false;
    }
    var wx, wy := Wrap(worker.0, vis.Length1), Wrap(worker.1, vis.Length0);
    if vis[wy, wx] == '.' {
      vis[wy, wx] := '!';
    } else {
      vis[wy, wx] := '@';
    }
    return true;
  }

  /** The four painting steps of `__str__` on a blank grid; false where one of them raises. */
  method PaintGrid(vis: array2<char>, w: Warehouse) returns (ok: bool)
    requires forall y, x :: 0 <= y < vis.Length0 && 0 <= x < vis.Length1 ==> vis[y, x] == ' '
    modifies vis
    ensures ok <==> && AllFit(w.walls, vis.Length1, vis.Length0) && AllFit(w.targets, vis.Length1, vis.Length0)
                    && Fits(w.worker, vis.Length1, vis.Length0) && AllFit(w.boxes, vis.Length1, vis.Length0)
    ensures ok ==> forall y, x :: 0 <= y < vis.Length0 && 0 <= x < vis.Length1 ==>
      vis[y, x] == Glyph(w, vis.Length1, vis.Length0, (x, y))
  {
    ok := PaintCells(vis, w.walls, '#');
    if !ok {
      return;
    }
    ok := PaintCells(vis, w.targets, '.');
    if !ok {
      return;
    }
    ok := PaintWorker(vis, w.worker);
    if !ok {
      return;
    }
    ok := PaintBoxes(vis, w.boxes);
  }

  /** `["".join(line) for line in vis]`: the grid's rows as strings. */
  method GridRows(vis: array2<char>) returns (rows: seq<string>)
    ensures |rows| == vis.Length0
    ensures forall y :: 0 <= y < vis.Length0 ==> |rows[y]| == vis.Length1
    ensures forall y, x :: 0 <= y < vis.Length0 && 0 <= x < vis.Length1 ==> rows[y][x] == vis[y, x]
  {
    rows := seq(vis.Length0, y requires 0 <= y < vis.Length0 reads vis =>
                  seq(vis.Length1, x requires 0 <= x < vis.Length1 reads vis => vis[y, x]));
  }

  /** Rows that agree with Glyph everywhere are the rendered rows. */
  lemma RowsFromGlyphs(w: Warehouse, width: nat, height: nat, rows: seq<string>)
    requires |rows| == height && forall y :: 0 <= y < height ==> |rows[y]| == width
    requires forall y, x :: 0 <= y < height && 0 <= x < width ==> rows[y][x] == Glyph(w, width, height, (x, y))
    ensures rows == Rows(w, width, height)
  {
    var expected := Rows(w, width, height);
    forall y | 0 <= y < height
      ensures rows[y] == expected[y]
    {
      assert |expected[y]| == width;
    }
  }

  /** `__str__`: paint walls, targets, the worker and the boxes, in that order, on a grid of blanks. */
  method Render(w: Warehouse) returns (r: Option<string>)
    ensures r == Rendered(w)
  {
    if |w.walls| == 0 {
      return None;
    }
    var width := 1 + Max(Xs(w.walls));
    var height := 1 + Max(Ys(w.walls));
    if width <= 0 || height <= 0 {
      // every wall index fails on an empty grid
      assert !Fits(w.walls[0], width, height);
      return None;
    }
    assert Width(w) == width && Height(w) == height;
    var vis := new char[height, width]((_, _) => ' ');
    var ok := PaintGrid(vis, w);
    if !ok {
      assert !Renderable(w);
      return None;
    }
    var rows := GridRows(vis);
    RowsFromGlyphs(w, width, height, rows);
    assert Renderable(w);
    r := Some(JoinLines(rows));
  }

  // ---------------------------------------------------------------------------
  // What the rendering shows

  /** The rendered rows hold `c` at `p` exactly when `p` is on the grid and its glyph is `c`. */
  lemma RowsAt(w: Warehouse, width: nat, height: nat, p: Cell, c: char)
    ensures At(Rows(w, width, height), p, c) <==> 0 <= p.0 < width && 0 <= p.1 < height && Glyph(w, width, height, p) == c
  {
  }

  /** A cell that indexes the grid legally lands on the grid. */
  lemma SlotOnGrid(p: Cell, width: int, height: int)
    requires Fits(p, width, height)
    ensures 0 <= Slot(p, width, height).0 < width && 0 <= Slot(p, width, height).1 < height
  {
  }

  /**
   * Box `k` is shown as `*`: it lands on a target's position, the worker is
   * elsewhere, and no other box shares its position.
   */
  predicate BoxSettled(w: Warehouse, width: int, height: int, k: int)
    requires 0 <= k < |w.boxes|
  {
    var p := Slot(w.boxes[k], width, height);
    && p in Slots(w.targets, width, height)
    && p != Slot(w.worker, width, height)
    && multiset(Slots(w.boxes, width, height))[p] == 1
  }

  /** No position of the rendered grid shows `$` iff every box is settled. */
  lemma GlyphsDollarFree(w: Warehouse)
    requires Renderable(w)
    ensures (forall y, x :: 0 <= y < Height(w) && 0 <= x < Width(w) ==> Glyph(w, Width(w), Height(w), (x, y)) != '$') <==>
            (forall k :: 0 <= k < |w.boxes| ==> BoxSettled(w, Width(w), Height(w), k))
  {
    var width, height := Width(w), Height(w);
    var slots := Slots(w.boxes, width, height);
    if forall y, x :: 0 <= y < height && 0 <= x < width ==> Glyph(w, width, height, (x, y)) != '$' {
      forall k | 0 <= k < |w.boxes| ensures BoxSettled(w, width, height, k) {
        var p := slots[k];
        SlotOnGrid(w.boxes[k], width, height);
        assert Glyph(w, width, height, (p.0, p.1)) != '$';
        assert slots[k] in multiset(slots);
      }
    }
    if forall k :: 0 <= k < |w.boxes| ==> BoxSettled(w, width, height, k) {
      forall y, x | 0 <= y < height && 0 <= x < width ensures Glyph(w, width, height, (x, y)) != '$' {
        var p := (x, y);
        if multiset(slots)[p] > 0 {
          assert p in slots;
          var k :| 0 <= k < |slots| && slots[k] == p;
          assert BoxSettled(w, width, height, k);
        }
      }
    }
  }

  /**
   * The rendering of a renderable warehouse contains no `$` exactly when
   * every box is settled: on a target, not under the worker, alone.
   */
  lemma RenderedDollarFree(w: Warehouse)
    requires Renderable(w)
    ensures Rendered(w).Some?
    ensures '$' !in Rendered(w).value <==> forall k :: 0 <= k < |w.boxes| ==> BoxSettled(w, Width(w), Height(w), k)
  {
    var rows := Rows(w, Width(w), Height(w));
    assert Rendered(w) == Some(JoinLines(rows));
    JoinLinesContains(rows, '$');
    RowsShowGlyph(w, Width(w), Height(w), '$');
    GlyphsDollarFree(w);
  }

  /** A row of the rendered grid contains `c` exactly when some position's glyph is `c`. */
  lemma RowsShowGlyph(w: Warehouse, width: nat, height: nat, c: char)
    ensures (exists y :: 0 <= y < height && c in Rows(w, width, height)[y]) <==>
            (exists y, x :: 0 <= y < height && 0 <= x < width && Glyph(w, width, height, (x, y)) == c)
  {
    var rows := Rows(w, width, height);
    if exists y :: 0 <= y < height && c in rows[y] {
      var y :| 0 <= y < height && c in rows[y];
      var x :| 0 <= x < |rows[y]| && rows[y][x] == c;
      assert Glyph(w, width, height, (x, y)) == c;
    }
    if exists y, x :: 0 <= y < height && 0 <= x < width && Glyph(w, width, height, (x, y)) == c {
      var y, x :| 0 <= y < height && 0 <= x < width && Glyph(w, width, height, (x, y)) == c;
      assert rows[y][x] == c;
    }
  }

  // ---------------------------------------------------------------------------
  // Rendering then parsing

  predicate NonNegative(cells: seq<Cell>)
  {
    forall k :: 0 <= k < |cells| ==> cells[k].0 >= 0 && cells[k].1 >= 0
  }

  predicate Distinct(cells: seq<Cell>)
  {
    forall j, k :: 0 <= j < k < |cells| ==> cells[j] != cells[k]
  }

  /**
   * A warehouse as a well-formed puzzle text describes it: every cell on the
   * grid the walls span, no two boxes or two targets on one cell, as many
   * boxes as targets, nothing on a wall, and the worker not on a box.
   */
  predicate WellFormed(w: Warehouse)
  {
    && Renderable(w)
    && NonNegative(w.walls) && NonNegative(w.targets) && NonNegative(w.boxes) && NonNegative([w.worker])
    && Distinct(w.boxes) && Distinct(w.targets) && |w.boxes| == |w.targets|
    && (forall p :: p in w.walls ==> p !in w.targets && p !in w.boxes && p != w.worker)
    && w.worker !in w.boxes
  }

  /** On cells with non-negative coordinates that index the grid, Python's index wrap-around does nothing. */
  lemma SlotsIdentity(cells: seq<Cell>, width: int, height: int)
    requires AllFit(cells, width, height) && NonNegative(cells)
    ensures Slots(cells, width, height) == cells
  {
  }

  /** The glyph of each position of a well-formed warehouse, case by case. */
  lemma WellFormedGlyph(w: Warehouse, p: Cell)
    requires WellFormed(w)
    ensures var g := Glyph(w, Width(w), Height(w), p);
      && (g == '#' <==> p in w.walls)
      && (g == '@' <==> p == w.worker && p !in w.targets)
      && (g == '!' <==> p == w.worker && p in w.targets)
      && (g == '$' <==> p in w.boxes && p !in w.targets)
      && (g == '*' <==> p in w.boxes && p in w.targets)
      && (g == '.' <==> p in w.targets && p !in w.boxes && p != w.worker)
  {
    var width, height := Width(w), Height(w);
    SlotsIdentity(w.walls, width, height);
    SlotsIdentity(w.targets, width, height);
    SlotsIdentity(w.boxes, width, height);
    SlotsIdentity([w.worker], width, height);
    assert Slot(w.worker, width, height) == w.worker by {
      assert Slots([w.worker], width, height)[0] == Slot(w.worker, width, height);
    }
    DistinctCount(w.boxes, p);
  }

  /** A list without repetitions holds each cell at most once. */
  lemma {:induction false} DistinctCount(cells: seq<Cell>, p: Cell)
    requires Distinct(cells)
    ensures multiset(cells)[p] == if p in cells then 1 else 0
  {
    if cells != [] {
      assert cells == [cells[0]] + cells[1..];
      DistinctCount(cells[1..], p);
      assert cells[0] !in cells[1..];
    }
  }

  /** A list without repetitions has as many elements as its set. */
  lemma {:induction false} DistinctCardinality(cells: seq<Cell>)
    requires Distinct(cells)
    ensures |set p | p in cells| == |cells|
  {
    if cells != [] {
      DistinctCardinality(cells[1..]);
      assert (set p | p in cells) == {cells[0]} + (set p | p in cells[1..]);
      assert cells[0] !in (set p | p in cells[1..]);
    }
  }

  /** What find_2D_iterator returns has no repetitions. */
  lemma Find2DDistinct(lines: seq<string>, c: char)
    ensures Distinct(Find2D(lines, c))
  {
    var r := Find2D(lines, c);
    forall j, k | 0 <= j < k < |r| ensures r[j] != r[k] {
      assert RowMajorBefore(r[j], r[k]);
    }
  }

  /** The number of positions of the rendered grid showing `c`. */
  lemma RowsCount(rows: seq<string>, c: char, cells: set<Cell>)
    requires forall p :: p in cells <==> At(rows, p, c)
    ensures |Find2D(rows, c)| == |cells|
  {
    var r := Find2D(rows, c);
    Find2DDistinct(rows, c);
    DistinctCardinality(r);
    assert (set p | p in r) == cells;
  }

  /** Every cell of a well-formed warehouse lies on the grid its walls span. */
  lemma WellFormedOnGrid(w: Warehouse, p: Cell)
    requires WellFormed(w)
    requires p in w.walls || p in w.targets || p in w.boxes || p == w.worker
    ensures 0 <= p.0 < Width(w) && 0 <= p.1 < Height(w)
  {
    if p in w.walls {
      var k :| 0 <= k < |w.walls| && w.walls[k] == p;
    } else if p in w.targets {
      var k :| 0 <= k < |w.targets| && w.targets[k] == p;
    } else if p in w.boxes {
      var k :| 0 <= k < |w.boxes| && w.boxes[k] == p;
    } else {
      assert [w.worker][0] == p;
    }
  }

  /** Which character the rendered rows of a well-formed warehouse hold at each cell. */
  lemma RowsClassify(w: Warehouse, p: Cell)
    requires WellFormed(w)
    ensures var rows := Rows(w, Width(w), Height(w));
      && (At(rows, p, '#') <==> p in w.walls)
      && (At(rows, p, '@') <==> p == w.worker && p !in w.targets)
      && (At(rows, p, '!') <==> p == w.worker && p in w.targets)
      && (At(rows, p, '$') <==> p in w.boxes && p !in w.targets)
      && (At(rows, p, '*') <==> p in w.boxes && p in w.targets)
      && (At(rows, p, '.') <==> p in w.targets && p !in w.boxes && p != w.worker)
  {
    var width, height := Width(w), Height(w);
    WellFormedGlyph(w, p);
    if p in w.walls || p in w.targets || p in w.boxes || p == w.worker {
      WellFormedOnGrid(w, p);
    }
    RowsAt(w, width, height, p, '#');
    RowsAt(w, width, height, p, '@');
    RowsAt(w, width, height, p, '!');
    RowsAt(w, width, height, p, '$');
    RowsAt(w, width, height, p, '*');
    RowsAt(w, width, height, p, '.');
  }

  /** The rendered rows of a well-formed warehouse hold exactly one worker glyph. */
  lemma RoundTripWorkerCount(w: Warehouse)
    requires WellFormed(w)
    ensures var rows := Rows(w, Width(w), Height(w));
      |Find2D(rows, '@')| + |Find2D(rows, '!')| == 1
  {
    var rows := Rows(w, Width(w), Height(w));
    var onTarget := w.worker in w.targets;
    var bangs: set<Cell> := if onTarget then {w.worker} else {};
    var ats: set<Cell> := if onTarget then {} else {w.worker};
    forall p ensures (p in bangs <==> At(rows, p, '!')) && (p in ats <==> At(rows, p, '@')) {
      RowsClassify(w, p);
    }
    RowsCount(rows, '!', bangs);
    RowsCount(rows, '@', ats);
  }

  /** With as many boxes as targets, boxes off targets balance free targets plus a worker on a target. */
  lemma BalanceSets(boxes: set<Cell>, targets: set<Cell>, worker: Cell)
    requires |boxes| == |targets| && worker !in boxes
    ensures |boxes - targets| == |targets - boxes - {worker}| + |targets * {worker}|
  {
    var both := boxes * targets;
    var free := targets - boxes;
    assert boxes == (boxes - targets) + both && (boxes - targets) !! both;
    assert targets == free + both && free !! both;
    if worker in targets {
      assert free == (free - {worker}) + {worker} && worker !in free - {worker};
      assert targets * {worker} == {worker};
    } else {
      assert free - {worker} == free;
      assert targets * {worker} == {};
    }
  }

  /** The rendered rows of a well-formed warehouse hold as many box glyphs as free targets. */
  lemma RoundTripBoxCount(w: Warehouse)
    requires WellFormed(w)
    ensures var rows := Rows(w, Width(w), Height(w));
      |Find2D(rows, '$')| == |Find2D(rows, '.')| + |Find2D(rows, '!')|
  {
    var rows := Rows(w, Width(w), Height(w));
    var boxSet := set p | p in w.boxes;
    var targetSet := set p | p in w.targets;
    DistinctCardinality(w.boxes);
    DistinctCardinality(w.targets);
    forall p ensures (p in boxSet - targetSet <==> At(rows, p, '$'))
      && (p in targetSet - boxSet - {w.worker} <==> At(rows, p, '.'))
      && (p in targetSet * {w.worker} <==> At(rows, p, '!'))
    {
      RowsClassify(w, p);
    }
    CountBalance(rows, boxSet, targetSet, w.worker);
  }

  /** Rows showing `$`, `.` and `!` exactly on the loose boxes, free targets and a worker on a target pass the count check. */
  lemma CountBalance(rows: seq<string>, boxSet: set<Cell>, targetSet: set<Cell>, worker: Cell)
    requires |boxSet| == |targetSet| && worker !in boxSet
    requires forall p :: p in boxSet - targetSet <==> At(rows, p, '$')
    requires forall p :: p in targetSet - boxSet - {worker} <==> At(rows, p, '.')
    requires forall p :: p in targetSet * {worker} <==> At(rows, p, '!')
    ensures |Find2D(rows, '$')| == |Find2D(rows, '.')| + |Find2D(rows, '!')|
  {
    RowsCount(rows, '$', boxSet - targetSet);
    RowsCount(rows, '.', targetSet - boxSet - {worker});
    RowsCount(rows, '!', targetSet * {worker});
    BalanceSets(boxSet, targetSet, worker);
  }

  /** No rendered row holds a newline, so the rows are the lines of the joined text. */
  lemma RowsNewlineFree(w: Warehouse, width: nat, height: nat)
    ensures forall y :: 0 <= y < height ==> '\n' !in Rows(w, width, height)[y]
  {
    RowsShowGlyph(w, width, height, '\n');
    forall y, x | 0 <= y < height && 0 <= x < width ensures Glyph(w, width, height, (x, y)) != '\n' {
    }
  }

  /**
   * Rendering a well-formed warehouse gives rows free of newlines, the lines
   * of `__str__`'s text; parsing them back with extract_locations succeeds and gives the same worker and the same sets
   * of walls, targets and boxes (the order of boxes may change).
   */
  lemma RenderParseRoundTrip(w: Warehouse)
    requires WellFormed(w)
    ensures Rendered(w) == Some(JoinLines(Rows(w, Width(w), Height(w))))
    ensures forall y :: 0 <= y < Height(w) ==> '\n' !in Rows(w, Width(w), Height(w))[y]
    ensures ExtractLocations(Rows(w, Width(w), Height(w))).Some?
    ensures var v := ExtractLocations(Rows(w, Width(w), Height(w))).value;
      && v.worker == w.worker
      && (forall p :: p in v.walls <==> p in w.walls)
      && (forall p :: p in v.targets <==> p in w.targets)
      && (forall p :: p in v.boxes <==> p in w.boxes)
  {
    var rows := Rows(w, Width(w), Height(w));
    RowsNewlineFree(w, Width(w), Height(w));
    RoundTripWorkerCount(w);
    RoundTripBoxCount(w);
    var v := ExtractLocations(rows).value;
    forall p ensures (p in v.walls <==> p in w.walls) && (p in v.targets <==> p in w.targets) && (p in v.boxes <==> p in w.boxes) {
      RowsClassify(w, p);
    }
    RowsClassify(w, v.worker);
    RowsClassify(w, w.worker);
  }
}
