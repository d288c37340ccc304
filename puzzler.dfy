/**
 * The Sokoban puzzle of puzzler.py: the legal moves of a state, the state a
 * move leads to, the two goal tests, and check_action_seq.
 */
module Puzzler {
  import opened Common
  import opened Warehouses
  import opened TabooRules

  /** A move label; `Other` stands for any string that is not one of the four directions. */
  datatype Action = Up | Down | Left | Right | Other(name: string)

  /** The four directions, in the order `actions` tries them. */
  const Directions: seq<Action> := [Up, Down, Left, Right]

  /** The offset of one step; an unrecognised label leaves the coordinates unchanged. */
  function Delta(a: Action): Cell
  {
    match a
    case Up => (0, -1)
    case Down => (0, 1)
    case Left => (-1, 0)
    case Right => (1, 0)
    case Other(_) => (0, 0)
  }

  /** The cell `k` steps from `c` in direction `a`. */
  function Step(c: Cell, a: Action, k: int): Cell
  {
    (c.0 + k * Delta(a).0, c.1 + k * Delta(a).1)
  }

  /**
   * A SokobanPuzzle: the initial warehouse, the taboo cells computed from it,
   * and in "can go there" mode the cell the worker has to reach.
   */
  datatype Puzzle = Puzzle(initial: Warehouse, taboos: seq<Cell>, cgtGoal: Option<Cell>)

  /**
   * `__init__`: the taboo cells of the warehouse, and the destination given
   * as (row, column) stored as the cell (column - 1, row - 1).
   */
  function NewPuzzle(w: Warehouse, dst: Option<Cell>): (p: Puzzle)
    requires |w.walls| > 0
    ensures p.initial == w && Taboos(w) == Some(p.taboos)
    ensures p.cgtGoal.Some? <==> dst.Some?
    ensures dst.Some? ==> p.cgtGoal.value.0 + 1 == dst.value.1 && p.cgtGoal.value.1 + 1 == dst.value.0
  {
    Puzzle(w, Taboos(w).value, if dst.Some? then Some((dst.value.1 - 1, dst.value.0 - 1)) else None)
  }

  // ---------------------------------------------------------------------------
  // actions

  /**
   * A direction `actions` offers: the adjacent cell is not a wall, and if it
   * holds a box, the puzzle is not in "can go there" mode and the cell
   * beyond is neither a taboo cell, a wall nor a box.
   */
  predicate Allowed(p: Puzzle, s: Warehouse, d: Action)
  {
    var next, beyond := Step(s.worker, d, 1), Step(s.worker, d, 2);
    && (next in s.boxes ==> p.cgtGoal.None? && beyond !in p.taboos && beyond !in s.walls && beyond !in s.boxes)
    && next !in s.walls
  }

  /** The directions among the first `n` of Up, Down, Left, Right that are allowed, in that order. */
  function AllowedAmong(p: Puzzle, s: Warehouse, n: nat): seq<Action>
    requires n <= |Directions|
  {
    if n == 0 then []
    else AllowedAmong(p, s, n - 1) + (if Allowed(p, s, Directions[n - 1]) then [Directions[n - 1]] else [])
  }

  function LegalActions(p: Puzzle, s: Warehouse): seq<Action>
  {
    AllowedAmong(p, s, |Directions|)
  }

  /** The position of a direction in Up, Down, Left, Right. */
  function Rank(d: Action): nat
  {
    match d
    case Up => 0
    case Down => 1
    case Left => 2
    case Right => 3
    case Other(_) => 4
  }

  lemma {:induction false} AllowedAmongSpec(p: Puzzle, s: Warehouse, n: nat)
    requires n <= |Directions|
    ensures forall d :: d in AllowedAmong(p, s, n) <==> d in Directions[..n] && Allowed(p, s, d)
    ensures forall i, j :: 0 <= i < j < |AllowedAmong(p, s, n)| ==>
      Rank(AllowedAmong(p, s, n)[i]) < Rank(AllowedAmong(p, s, n)[j])
    ensures forall i :: 0 <= i < |AllowedAmong(p, s, n)| ==> Rank(AllowedAmong(p, s, n)[i]) < n
  {
    if n > 0 {
      AllowedAmongSpec(p, s, n - 1);
      assert Directions[..n] == Directions[..n - 1] + [Directions[n - 1]];
      assert Rank(Directions[n - 1]) == n - 1;
    }
  }

  /**
   * `actions` lists exactly the allowed directions, each once, in the order
   * Up, Down, Left, Right.
   */
  lemma LegalActionsSpec(p: Puzzle, s: Warehouse)
    ensures forall d :: d in LegalActions(p, s) <==> d in Directions && Allowed(p, s, d)
    ensures forall i, j :: 0 <= i < j < |LegalActions(p, s)| ==> Rank(LegalActions(p, s)[i]) < Rank(LegalActions(p, s)[j])
  {
    AllowedAmongSpec(p, s, |Directions|);
    assert Directions[..|Directions|] == Directions;
  }

  /** `actions`: try the four directions in turn, appending each one that is allowed. */
  method Actions(p: Puzzle, s: Warehouse) returns (acts: seq<Action>)
    ensures acts == LegalActions(p, s)
  {
    var px, py := s.worker.0, s.worker.1;
    acts := [];
    var ac := [Up, Down, Left, Right];
    var position := [(px, py - 1), (px, py + 1), (px - 1, py), (px + 1, py)];
    var check := [(px, py - 2), (px, py + 2), (px - 2, py), (px + 2, py)];
    for i := 0 to 4
      invariant acts == AllowedAmong(p, s, i)
    {
      assert position[i] == Step(s.worker, ac[i], 1) && check[i] == Step(s.worker, ac[i], 2);
      if position[i] in s.boxes {
        if p.cgtGoal.Some? {
          continue;
        }
        if check[i] in p.taboos || check[i] in s.walls || check[i] in s.boxes {
          continue;
        }
      }
      if position[i] in s.walls {
        continue;
      }
      acts := acts + [ac[i]];
    }
  }

  // ---------------------------------------------------------------------------
  // result

  /** The lowest index holding `x`: the box `enumerate` stops at. */
  function FirstIndex(xs: seq<Cell>, x: Cell): (i: nat)
    requires x in xs
    ensures i < |xs| && xs[i] == x && x !in xs[..i]
  {
    if xs[0] == x then 0
    else
      var i := FirstIndex(xs[1..], x);
      assert xs[..i + 1] == [xs[0]] + xs[1..][..i];
      i + 1
  }

  /**
   * `result`: the state after the move.  A move into a wall, into a box in
   * "can go there" mode, or pushing a box into a wall or another box, leaves
   * the state as it was; otherwise the worker steps and the first box on the
   * cell it steps to moves one further.  Taboo cells are not consulted.
   */
  function Successor(p: Puzzle, s: Warehouse, a: Action): (r: Warehouse)
    ensures r.walls == s.walls && r.targets == s.targets && |r.boxes| == |s.boxes|
    ensures r == s || r.worker == Step(s.worker, a, 1)
    ensures p.cgtGoal.Some? ==> r.boxes == s.boxes
  {
    var next, beyond := Step(s.worker, a, 1), Step(s.worker, a, 2);
    if next in s.walls then s
    else if p.cgtGoal.Some? && next in s.boxes then s
    else if next in s.boxes then
      if beyond in s.boxes || beyond in s.walls then s
      else s.(worker := next, boxes := s.boxes[FirstIndex(s.boxes, next) := beyond])
    else s.(worker := next)
  }

  /** `result`: copy the state, work out the two cells ahead, then move the worker and perhaps one box. */
  method Result(p: Puzzle, s: Warehouse, action: Action) returns (state: Warehouse)
    ensures state == Successor(p, s, action)
  {
    state := Copy(s, None, Some(s.boxes));
    var nx, ny := state.worker.0, state.worker.1;
    var cx, cy := state.worker.0, state.worker.1;
    if action == Up {
      ny := ny - 1;
      cy := cy - 2;
    } else if action == Down {
      ny := ny + 1;
      cy := cy + 2;
    } else if action == Right {
      nx := nx + 1;
      cx := cx + 2;
    } else if action == Left {
      nx := nx - 1;
      cx := cx - 2;
    }
    assert (nx, ny) == Step(s.worker, action, 1) && (cx, cy) == Step(s.worker, action, 2);
    if (nx, ny) in state.walls {
      return;
    }
    if p.cgtGoal.Some? {
      if (nx, ny) in state.boxes {
        return;
      }
    }
    var boxes := state.boxes;
    var thebox := 0;
    while thebox < |boxes|
      invariant 0 <= thebox <= |boxes|
      invariant boxes == s.boxes && (nx, ny) !in boxes[..thebox]
    {
      if (nx, ny) == boxes[thebox] {
        if (cx, cy) in boxes || (cx, cy) in state.walls {
          return;
        }
        assert thebox == FirstIndex(s.boxes, (nx, ny));
        boxes := boxes[thebox := (cx, cy)];
        break;
      }
      thebox := thebox + 1;
    }
    if boxes == s.boxes {
      assert s.boxes[..|s.boxes|] == s.boxes;
    }
    state := state.(worker := (nx, ny), boxes := boxes);
  }

  /** `actions` and `result` agree: a direction is offered exactly when it moves the worker without pushing a box onto a taboo cell. */
  lemma ActionsMatchResult(p: Puzzle, s: Warehouse, d: Action)
    requires d in Directions
    ensures d in LegalActions(p, s) <==>
      Successor(p, s, d).worker != s.worker && !(Step(s.worker, d, 1) in s.boxes && Step(s.worker, d, 2) in p.taboos)
  {
    LegalActionsSpec(p, s);
  }

  /**
   * `result` leaves the state as it was exactly when the label is not a
   * direction, the worker would walk into a wall, into a box in "can go
   * there" mode, or push a box into a wall or another box.
   */
  lemma ResultNoOp(p: Puzzle, s: Warehouse, a: Action)
    ensures Successor(p, s, a) == s <==>
      || a.Other?
      || Step(s.worker, a, 1) in s.walls
      || (p.cgtGoal.Some? && Step(s.worker, a, 1) in s.boxes)
      || (Step(s.worker, a, 1) in s.boxes && (Step(s.worker, a, 2) in s.boxes || Step(s.worker, a, 2) in s.walls))
  {
    if a.Other? {
      assert Step(s.worker, a, 1) == s.worker && Step(s.worker, a, 2) == s.worker;
      if s.worker in s.boxes {
        var i := FirstIndex(s.boxes, s.worker);
        assert s.boxes[i := s.worker] == s.boxes;
      }
    }
  }

  /**
   * A move that changes the state takes the worker one step in its
   * direction; the walls and targets stay, and the box list keeps its length
   * and order with at most one box moved: the first box on the cell the
   * worker steps onto, pushed one cell further; with no box there, no box
   * moves.
   */
  lemma ResultStep(p: Puzzle, s: Warehouse, a: Action)
    ensures Successor(p, s, a).walls == s.walls && Successor(p, s, a).targets == s.targets
    ensures Successor(p, s, a) != s ==>
      var r := Successor(p, s, a);
      && r.worker == Step(s.worker, a, 1)
      && |r.boxes| == |s.boxes|
      && (forall k :: 0 <= k < |s.boxes| ==>
            r.boxes[k] == s.boxes[k] || (s.boxes[k] == r.worker && r.boxes[k] == Step(s.worker, a, 2)))
      && (forall j, k :: 0 <= j < k < |s.boxes| ==> r.boxes[j] == s.boxes[j] || r.boxes[k] == s.boxes[k])
    ensures var r := Successor(p, s, a);
      r != s && Step(s.worker, a, 1) in s.boxes ==>
        r.boxes == s.boxes[FirstIndex(s.boxes, Step(s.worker, a, 1)) := Step(s.worker, a, 2)]
    ensures var r := Successor(p, s, a);
      r != s && Step(s.worker, a, 1) !in s.boxes ==> r.boxes == s.boxes
  {
  }

  /** In "can go there" mode the worker never pushes: no offered move is onto a box, and no move changes the boxes. */
  lemma CanGoThereNeverPushes(p: Puzzle, s: Warehouse, a: Action)
    requires p.cgtGoal.Some?
    ensures a in LegalActions(p, s) ==> Step(s.worker, a, 1) !in s.boxes
    ensures Successor(p, s, a).boxes == s.boxes
  {
    LegalActionsSpec(p, s);
  }

  // ---------------------------------------------------------------------------
  // goal_test

  /**
   * `goal_test`: in "can go there" mode, the worker is on the goal cell;
   * otherwise the rendering shows no `$`.  A rendering that raises counts
   * as not a goal.
   */
  predicate GoalTest(p: Puzzle, s: Warehouse): (b: bool)
    ensures p.cgtGoal.Some? ==> (b <==> s.worker == p.cgtGoal.value)
    ensures p.cgtGoal.None? ==> (b <==> Rendered(s).Some? && '$' !in Rendered(s).value)
  {
    if p.cgtGoal.Some? then s.worker == p.cgtGoal.value
    else if Rendered(s).None? then false
    else
      CountCharZero(Rendered(s).value, '$');
      CountChar(Rendered(s).value, '$') == 0
  }

  /** On a renderable state, the Sokoban goal test holds exactly when every box shows as `*`. */
  lemma GoalTestRendered(p: Puzzle, s: Warehouse)
    requires p.cgtGoal.None? && Renderable(s)
    ensures GoalTest(p, s) <==> forall k :: 0 <= k < |s.boxes| ==> BoxSettled(s, Width(s), Height(s), k)
  {
    RenderedDollarFree(s);
    CountCharZero(Rendered(s).value, '$');
  }

  /** On a well-formed state, a box shows as `*` exactly when it is on a target. */
  lemma WellFormedSettled(s: Warehouse, k: int)
    requires WellFormed(s) && 0 <= k < |s.boxes|
    ensures BoxSettled(s, Width(s), Height(s), k) <==> s.boxes[k] in s.targets
  {
    var width, height := Width(s), Height(s);
    SlotsIdentity(s.targets, width, height);
    SlotsIdentity(s.boxes, width, height);
    SlotsIdentity([s.worker], width, height);
    assert Slot(s.worker, width, height) == s.worker by {
      assert Slots([s.worker], width, height)[0] == Slot(s.worker, width, height);
    }
    DistinctCount(s.boxes, s.boxes[k]);
  }

  /** On a well-formed state, the Sokoban goal test holds exactly when every box is on a target. */
  lemma GoalTestWellFormed(p: Puzzle, s: Warehouse)
    requires p.cgtGoal.None? && WellFormed(s)
    ensures GoalTest(p, s) <==> forall b :: b in s.boxes ==> b in s.targets
  {
    GoalTestRendered(p, s);
    forall k | 0 <= k < |s.boxes|
      ensures BoxSettled(s, Width(s), Height(s), k) <==> s.boxes[k] in s.targets
    {
      WellFormedSettled(s, k);
    }
  }

  // ---------------------------------------------------------------------------
  // check_action_seq

  /** The state after applying `acts` in turn with `result`. */
  function Fold(p: Puzzle, s: Warehouse, acts: seq<Action>): Warehouse
    decreases |acts|
  {
    if acts == [] then s else Fold(p, Successor(p, s, acts[0]), acts[1..])
  }

  /** Step `k` of `acts`, taken from the state the earlier steps reach, changes nothing. */
  predicate Stalls(p: Puzzle, s: Warehouse, acts: seq<Action>, k: int)
    requires 0 <= k < |acts|
  {
    Equal(Successor(p, Fold(p, s, acts[..k]), acts[k]), Fold(p, s, acts[..k]))
  }

  /** check_action_seq as a recursion: None for 'Failure', at the first step that changes nothing. */
  function Replay(p: Puzzle, s: Warehouse, acts: seq<Action>): Option<Warehouse>
    decreases |acts|
  {
    if acts == [] then Some(s)
    else
      var next := Successor(p, s, acts[0]);
      if Equal(s, next) then None else Replay(p, next, acts[1..])
  }

  /**
   * check_action_seq fails exactly when some step changes nothing, and
   * otherwise returns the state the whole sequence reaches.
   */
  lemma {:induction false} ReplaySpec(p: Puzzle, s: Warehouse, acts: seq<Action>)
    ensures Replay(p, s, acts).None? <==> exists k :: 0 <= k < |acts| && Stalls(p, s, acts, k)
    ensures Replay(p, s, acts).Some? ==> Replay(p, s, acts).value == Fold(p, s, acts)
    decreases |acts|
  {
    if acts != [] {
      var next := Successor(p, s, acts[0]);
      ReplaySpec(p, next, acts[1..]);
      assert acts[..0] == [];
      assert Stalls(p, s, acts, 0) <==> Equal(s, next);
      forall k | 1 <= k < |acts|
        ensures Stalls(p, s, acts, k) <==> Stalls(p, next, acts[1..], k - 1)
      {
        assert acts[..k][0] == acts[0] && acts[..k][1..] == acts[1..][..k - 1];
      }
      if !Equal(s, next) {
        if exists k :: 0 <= k < |acts| && Stalls(p, s, acts, k) {
          var k :| 0 <= k < |acts| && Stalls(p, s, acts, k);
          assert k > 0 && Stalls(p, next, acts[1..], k - 1);
        }
        if exists k :: 0 <= k < |acts[1..]| && Stalls(p, next, acts[1..], k) {
          var k :| 0 <= k < |acts[1..]| && Stalls(p, next, acts[1..], k);
          assert Stalls(p, s, acts, k + 1);
        }
      }
    }
  }

  /** check_action_seq: build the puzzle, then apply the actions one at a time, failing at a move that changes nothing. */
  method CheckActionSeq(w: Warehouse, actionSeq: seq<Action>) returns (r: Option<Warehouse>)
    requires |w.walls| > 0
    ensures r == Replay(NewPuzzle(w, None), w, actionSeq)
  {
    var puzzle := NewPuzzle(w, None);
    var oldResult := puzzle.initial;
    for i := 0 to |actionSeq|
      invariant Replay(puzzle, w, actionSeq) == Replay(puzzle, oldResult, actionSeq[i..])
    {
      var result := Result(puzzle, oldResult, actionSeq[i]);
      assert actionSeq[i..][0] == actionSeq[i] && actionSeq[i..][1..] == actionSeq[i + 1..];
      if Equal(oldResult, result) {
        return None;
      }
      oldResult := result;
    }
    assert actionSeq[|actionSeq|..] == [];
    return Some(oldResult);
  }
}
