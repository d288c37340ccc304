/**
 * The two entry points of puzzler.py that run a search: `solve_sokoban_elem`
 * (breadth-first graph search over elementary moves) and `can_go_there`
 * (the same search on the puzzle in "can go there" mode).  A SokobanPuzzle
 * becomes the search problem whose methods are its `actions`, `result` and
 * `goal_test`, with the default step cost.
 */
module Solver {
  import opened Common
  import opened Warehouses
  import opened Puzzler
  import opened SearchNodes
  import opened UninformedSearch

  /** A SokobanPuzzle as the problem search.py searches. */
  function AsProblem(p: Puzzle): Problem<Warehouse, Action>
  {
    Problem(p.initial, s => LegalActions(p, s), (s, a) => Successor(p, s, a), s => GoalTest(p, s), StepCost)
  }

  /** What `solve_sokoban_elem` returns: the moves, or ['Impossible']; Undecided when the search ran out of fuel. */
  datatype ElemAnswer = Plan(moves: seq<Action>) | Impossible | Undecided

  /** `[a for a in acts if a is not 'None']`. */
  function DropNone(acts: seq<Action>): (r: seq<Action>)
    ensures forall a :: a in r <==> a in acts && a != Other("None")
    ensures (forall a :: a in acts ==> a in Directions) ==> r == acts
  {
    if acts == [] then []
    else
      assert forall a :: a in acts[1..] ==> a in acts;
      assert Other("None") !in Directions;
      (if acts[0] == Other("None") then [] else [acts[0]]) + DropNone(acts[1..])
  }

  /** The moves of a legal sequence are directions. */
  lemma {:induction false} LegalDirections(p: Puzzle, s: Warehouse, acts: seq<Action>)
    requires Legal(AsProblem(p), s, acts)
    ensures forall a :: a in acts ==> a in Directions
    decreases |acts|
  {
    if acts != [] {
      LegalActionsSpec(p, s);
      LegalDirections(p, Successor(p, s, acts[0]), acts[1..]);
      assert forall a :: a in acts ==> a == acts[0] || a in acts[1..];
    }
  }

  /**
   * Every move `actions` offers changes the state, so `check_action_seq`
   * accepts a legal sequence and returns the state it leads to.
   */
  lemma {:induction false} LegalReplays(p: Puzzle, s: Warehouse, acts: seq<Action>)
    requires Legal(AsProblem(p), s, acts)
    ensures Replay(p, s, acts) == Some(Walk(AsProblem(p), s, acts))
    decreases |acts|
  {
    if acts != [] {
      LegalActionsSpec(p, s);
      ActionsMatchResult(p, s, acts[0]);
      LegalReplays(p, Successor(p, s, acts[0]), acts[1..]);
    }
  }

  /** A Sokoban problem keeps the default step cost. */
  lemma SokobanUnitCost(p: Puzzle)
    ensures UnitCost(AsProblem(p))
  {
  }

  /** The path cost of a node the search builds is its number of moves. */
  lemma MovesCost(p: Puzzle, node: Node<Warehouse, Action>)
    requires Generated(AsProblem(p), node)
    ensures node.pathCost == |Solution(AsProblem(p), node)| == node.depth
  {
    SokobanUnitCost(p);
    UnitCostIsDepth(AsProblem(p), node);
    GeneratedPath(AsProblem(p), node);
  }

  /** The actions of a built node, with 'None' dropped, pass `check_action_seq` and lead to its state. */
  lemma {:induction false} GoalPathReplays(p: Puzzle, node: Node<Warehouse, Action>)
    requires Generated(AsProblem(p), node)
    ensures DropNone(Solution(AsProblem(p), node)) == Solution(AsProblem(p), node)
    ensures Replay(p, p.initial, Solution(AsProblem(p), node)) == Some(node.state)
  {
    var labels := Solution(AsProblem(p), node);
    GeneratedPath(AsProblem(p), node);
    LegalDirections(p, p.initial, labels);
    LegalReplays(p, p.initial, labels);
  }

  /**
   * `solve_sokoban_elem`: breadth-first graph search, then the actions
   * along the goal path.  A plan passes `check_action_seq` and ends in a
   * goal, and no shorter sequence of offered moves solves the puzzle, so a
   * puzzle already solved gets []; 'Impossible' means none does.
   */
  method SolveSokobanElem(w: Warehouse, fuel: nat) returns (r: ElemAnswer)
    requires |w.walls| > 0
    ensures r.Plan? ==> Replay(NewPuzzle(w, None), w, r.moves).Some?
    ensures r.Plan? ==> GoalTest(NewPuzzle(w, None), Replay(NewPuzzle(w, None), w, r.moves).value)
    ensures r.Plan? ==> forall acts :: Solves(AsProblem(NewPuzzle(w, None)), acts) ==> |r.moves| <= |acts|
    ensures r.Impossible? ==> forall acts :: !Solves(AsProblem(NewPuzzle(w, None)), acts)
    ensures GoalTest(NewPuzzle(w, None), w) ==> !r.Impossible? && (r.Plan? ==> r.moves == [])
  {
    var puzzle := NewPuzzle(w, None);
    var problem := AsProblem(puzzle);
    var solution := BreadthFirstGraphSearch(problem, fuel);
    match solution
    case Found(node) =>
      var labels := GoalPathActions(problem, node);
      GoalPathReplays(puzzle, node);
      if GoalTest(puzzle, w) {
        assert Solves(problem, []);
      }
      return Plan(DropNone(labels));
    case NotFound =>
      assert GoalTest(puzzle, w) ==> Solves(problem, []);
      return Impossible;
    case OutOfFuel =>
      return Undecided;
  }

  /** `goal_path` and the actions of its nodes: the nodes of `path()` after the root, labelled with the solution. */
  method GoalPathActions(problem: Problem<Warehouse, Action>, node: Node<Warehouse, Action>) returns (labels: seq<Action>)
    requires Generated(problem, node)
    ensures labels == Solution(problem, node)
  {
    var path := Path(node);
    var goalPath := path[1..];
    SolutionAlongPath(problem, node);
    assert forall i :: 0 <= i < |goalPath| ==> goalPath[i] == path[i + 1];
    assert forall i :: 0 <= i < |goalPath| ==> goalPath[i].action == Some(Solution(problem, node)[i]);
    labels := seq(|goalPath|, i requires 0 <= i < |goalPath| && goalPath[i].action.Some? => goalPath[i].action.value);
  }

  /** The worker can walk from the start of `p` to `cell`, by moves `p` offers. */
  ghost predicate Walkable(p: Puzzle, cell: Cell)
  {
    exists acts :: Legal(AsProblem(p), p.initial, acts) && Walk(AsProblem(p), p.initial, acts).worker == cell
  }

  /** In "can go there" mode no legal walk moves a box. */
  lemma {:induction false} WalkKeepsBoxes(p: Puzzle, s: Warehouse, acts: seq<Action>)
    requires p.cgtGoal.Some?
    ensures Walk(AsProblem(p), s, acts).boxes == s.boxes
    decreases |acts|
  {
    if acts != [] {
      CanGoThereNeverPushes(p, s, acts[0]);
      WalkKeepsBoxes(p, Successor(p, s, acts[0]), acts[1..]);
    }
  }

  /**
   * `can_go_there`: breadth-first graph search on the puzzle whose goal is
   * the worker on `dst`, given as (row, column).  True exactly when such a
   * walk exists; None when the search ran out of fuel, or when the source
   * raises: a warehouse without boxes has no hash, so the search fails as
   * soon as it records a state that is not the goal.
   */
  method CanGoThere(w: Warehouse, dst: Cell, fuel: nat) returns (r: Option<bool>)
    requires |w.walls| > 0
    ensures r.Some? ==> (r.value <==> Walkable(NewPuzzle(w, Some(dst)), (dst.1 - 1, dst.0 - 1)))
    ensures w.boxes == [] && w.worker != (dst.1 - 1, dst.0 - 1) ==> r.None?
  {
    var puzzle := NewPuzzle(w, Some(dst));
    if w.boxes == [] && !GoalTest(puzzle, w) {
      // graph_search adds the root's state to its explored set, and hashing a
      // warehouse without boxes folds an empty list with `reduce`, which raises.
      return None;
    }
    var solution := BreadthFirstGraphSearch(AsProblem(puzzle), fuel);
    if solution.OutOfFuel? {
      return None;
    }
    ghost var cell := (dst.1 - 1, dst.0 - 1);
    if solution.Found? {
      GeneratedPath(AsProblem(puzzle), solution.node);
      assert Walk(AsProblem(puzzle), w, Solution(AsProblem(puzzle), solution.node)).worker == cell;
    } else {
      forall acts | Legal(AsProblem(puzzle), w, acts) ensures Walk(AsProblem(puzzle), w, acts).worker != cell {
        assert !Solves(AsProblem(puzzle), acts);
      }
    }
    return Some(solution.Found?);
  }
}
