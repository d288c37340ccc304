/**
 * `depth_limited_search` and `iterative_deepening_search` of search.py:
 * a recursive depth-first search cut off at a depth limit, which answers
 * with a goal node, 'cutoff' or None, and the loop over growing limits.
 */
module DepthLimited {
  import opened SearchNodes
  import opened UninformedSearch

  /** What `recursive_dls` returns: a goal node, the string 'cutoff', or None. */
  datatype DlsResult<S, A> = Goal(node: Node<S, A>) | Cutoff | Failure

  /** Some legal sequence of at most `d` actions leads from `s` to a goal. */
  ghost predicate GoalWithin<S, A(!new)>(problem: Problem<S, A>, s: S, d: nat)
  {
    exists acts :: Legal(problem, s, acts) && |acts| <= d && problem.goalTest(Walk(problem, s, acts))
  }

  /** Some legal sequence of exactly `d` actions starts at `s`: search from `s` meets the limit `d` levels down. */
  ghost predicate ReachesDepth<S, A(!new)>(problem: Problem<S, A>, s: S, d: nat)
  {
    exists acts :: Legal(problem, s, acts) && |acts| == d
  }

  /** Taking action `a` first and then `acts`. */
  lemma {:induction false} Prepend<S, A>(problem: Problem<S, A>, s: S, a: A, acts: seq<A>)
    ensures Walk(problem, s, [a] + acts) == Walk(problem, problem.result(s, a), acts)
    ensures Legal(problem, s, [a] + acts) <==> a in problem.actions(s) && Legal(problem, problem.result(s, a), acts)
  {
    assert ([a] + acts)[0] == a && ([a] + acts)[1..] == acts;
  }

  /** At the limit: a goal within no actions is the state itself, and the empty sequence meets the limit. */
  lemma {:induction false} AtLimit<S, A(!new)>(problem: Problem<S, A>, s: S)
    ensures GoalWithin(problem, s, 0) <==> problem.goalTest(s)
    ensures ReachesDepth(problem, s, 0)
  {
    assert Legal(problem, s, []) && Walk(problem, s, []) == s;
    if GoalWithin(problem, s, 0) {
      var acts :| Legal(problem, s, acts) && |acts| <= 0 && problem.goalTest(Walk(problem, s, acts));
      assert acts == [];
    }
  }

  /** A goal state is a goal within any number of actions. */
  lemma {:induction false} GoalHere<S, A(!new)>(problem: Problem<S, A>, s: S, d: nat)
    requires problem.goalTest(s)
    ensures GoalWithin(problem, s, d)
  {
    assert Legal(problem, s, []) && Walk(problem, s, []) == s;
  }

  /** Above the limit, a goal is within reach of a state exactly when it is the state or within reach of one of its successors. */
  lemma {:induction false} GoalWithinStep<S, A(!new)>(problem: Problem<S, A>, s: S, d: nat)
    requires d > 0
    ensures GoalWithin(problem, s, d) <==>
      (problem.goalTest(s) || exists i :: 0 <= i < |problem.actions(s)| && GoalWithin(problem, problem.result(s, problem.actions(s)[i]), d - 1))
  {
    var options := problem.actions(s);
    if GoalWithin(problem, s, d) && !problem.goalTest(s) {
      var acts :| Legal(problem, s, acts) && |acts| <= d && problem.goalTest(Walk(problem, s, acts));
      assert acts != [];
      var i :| 0 <= i < |options| && options[i] == acts[0];
      assert acts == [acts[0]] + acts[1..];
      Prepend(problem, s, acts[0], acts[1..]);
      assert GoalWithin(problem, problem.result(s, options[i]), d - 1);
    }
    if problem.goalTest(s) {
      GoalHere(problem, s, d);
    }
    if exists i :: 0 <= i < |options| && GoalWithin(problem, problem.result(s, options[i]), d - 1) {
      var i :| 0 <= i < |options| && GoalWithin(problem, problem.result(s, options[i]), d - 1);
      var t := problem.result(s, options[i]);
      var acts :| Legal(problem, t, acts) && |acts| <= d - 1 && problem.goalTest(Walk(problem, t, acts));
      Prepend(problem, s, options[i], acts);
      assert Legal(problem, s, [options[i]] + acts);
    }
  }

  /** Above the limit, search from a state meets the limit exactly when it does from one of its successors. */
  lemma {:induction false} ReachesDepthStep<S, A(!new)>(problem: Problem<S, A>, s: S, d: nat)
    requires d > 0
    ensures ReachesDepth(problem, s, d) <==>
      exists i :: 0 <= i < |problem.actions(s)| && ReachesDepth(problem, problem.result(s, problem.actions(s)[i]), d - 1)
  {
    var options := problem.actions(s);
    if ReachesDepth(problem, s, d) {
      var acts :| Legal(problem, s, acts) && |acts| == d;
      var i :| 0 <= i < |options| && options[i] == acts[0];
      assert acts == [acts[0]] + acts[1..];
      Prepend(problem, s, acts[0], acts[1..]);
      assert ReachesDepth(problem, problem.result(s, options[i]), d - 1);
    }
    if exists i :: 0 <= i < |options| && ReachesDepth(problem, problem.result(s, options[i]), d - 1) {
      var i :| 0 <= i < |options| && ReachesDepth(problem, problem.result(s, options[i]), d - 1);
      var acts :| Legal(problem, problem.result(s, options[i]), acts) && |acts| == d - 1;
      Prepend(problem, s, options[i], acts);
      assert Legal(problem, s, [options[i]] + acts);
    }
  }

  /**
   * `recursive_dls`: a goal node if one lies within the limit, 'cutoff' if
   * none does but search met the limit, None if the whole subtree ended
   * above the limit without a goal.
   */
  method RecursiveDls<S(==), A(==,!new)>(problem: Problem<S, A>, node: Node<S, A>, limit: nat) returns (r: DlsResult<S, A>)
    requires node.depth <= limit
    ensures r.Goal? ==> problem.goalTest(r.node.state) && r.node.depth <= limit
    ensures r.Goal? && Generated(problem, node) ==> Generated(problem, r.node)
    ensures r.Goal? <==> GoalWithin(problem, node.state, limit - node.depth)
    ensures r.Cutoff? <==> !GoalWithin(problem, node.state, limit - node.depth) && ReachesDepth(problem, node.state, limit - node.depth)
    decreases limit - node.depth
  {
    if problem.goalTest(node.state) {
      GoalHere(problem, node.state, limit - node.depth);
      return Goal(node);
    } else if node.depth == limit {
      AtLimit(problem, node.state);
      return Cutoff;
    }
    ghost var d := limit - node.depth;
    ghost var options := problem.actions(node.state);
    var cutoffOccurred := false;
    var children := Expand(problem, node);
    for k := 0 to |children|
      invariant cutoffOccurred <==> exists j :: 0 <= j < k && ReachesDepth(problem, problem.result(node.state, options[j]), d - 1)
      invariant forall j :: 0 <= j < k ==> !GoalWithin(problem, problem.result(node.state, options[j]), d - 1)
    {
      var result := RecursiveDls(problem, children[k], limit);
      if result.Cutoff? {
        cutoffOccurred := true;
      } else if result.Goal? {
        GoalWithinStep(problem, node.state, d);
        if Generated(problem, node) {
          ExpandGenerated(problem, node);
          assert children[k] in children;
        }
        return result;
      }
    }
    GoalWithinStep(problem, node.state, d);
    ReachesDepthStep(problem, node.state, d);
    if cutoffOccurred {
      return Cutoff;
    }
    return Failure;
  }

  /** `depth_limited_search`: `recursive_dls` from the root. */
  method DepthLimitedSearch<S(==), A(==,!new)>(problem: Problem<S, A>, limit: nat) returns (r: DlsResult<S, A>)
    ensures r.Goal? ==> Generated(problem, r.node) && problem.goalTest(r.node.state) && r.node.depth <= limit
    ensures r.Goal? <==> exists acts :: Solves(problem, acts) && |acts| <= limit
    ensures r.Cutoff? <==> !GoalWithin(problem, problem.initial, limit) && ReachesDepth(problem, problem.initial, limit)
  {
    r := RecursiveDls(problem, Root(problem), limit);
  }

  /** A search that ended above the limit without a goal explored every legal sequence: no goal is reachable at all. */
  lemma {:induction false} NoDeeper<S, A(!new)>(problem: Problem<S, A>, d: nat)
    requires !GoalWithin(problem, problem.initial, d) && !ReachesDepth(problem, problem.initial, d)
    ensures forall acts :: !Solves(problem, acts)
  {
    forall acts | Solves(problem, acts) ensures false {
      if |acts| > d {
        // its first `d` actions would meet the limit
        LegalPrefix(problem, problem.initial, acts, d);
      }
    }
  }

  /**
   * `iterative_deepening_search`: depth-limited search with limits 0, 1,
   * 2, … until the answer is not 'cutoff'.  The loop stops past
   * `maxDepth`.  A goal found is a shallowest one: every goal-reaching
   * sequence is at least as long as its depth.
   */
  method IterativeDeepeningSearch<S(==), A(==,!new)>(problem: Problem<S, A>, maxDepth: nat) returns (r: Outcome<S, A>)
    ensures r.Found? ==> Generated(problem, r.node) && problem.goalTest(r.node.state)
    ensures r.Found? ==> forall acts :: Solves(problem, acts) ==> r.node.depth <= |acts|
    ensures r.NotFound? ==> forall acts :: !Solves(problem, acts)
    ensures r.OutOfFuel? ==> forall acts :: Solves(problem, acts) ==> |acts| > maxDepth
  {
    var depth: nat := 0;
    while depth <= maxDepth
      invariant forall acts :: Solves(problem, acts) ==> |acts| >= depth
    {
      var result := DepthLimitedSearch(problem, depth);
      if result.Goal? {
        return Found(result.node);
      } else if result.Failure? {
        NoDeeper(problem, depth);
        return NotFound;
      }
      depth := depth + 1;
    }
    return OutOfFuel;
  }
}
