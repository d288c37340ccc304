/**
 * The problem interface and the search-tree nodes of search.py: a problem
 * supplies the initial state, the actions of a state, the state an action
 * leads to, the goal test and the step cost; a node records the state, the
 * node it was expanded from, the action taken, the path cost and the depth.
 */
module SearchNodes {
  import opened Common

  /** A search problem, its methods given as functions. */
  datatype Problem<!S, !A> = Problem(
    initial: S,
    actions: S -> seq<A>,
    result: (S, A) -> S,
    goalTest: S -> bool,
    pathCost: (int, S, A, S) -> int)

  /** `Problem.path_cost`'s default: every step costs one. */
  function StepCost<S, A>(c: int, s1: S, a: A, s2: S): (r: int)
    ensures r > c && r - c == 1
  {
    c + 1
  }

  /** `Problem.goal_test`'s default: the state is the given goal. */
  function DefaultGoalTest<S(==, !new)>(goal: S): (test: S -> bool)
    ensures forall s :: test(s) <==> s == goal
  {
    s => s == goal
  }

  /** The problem keeps the default step cost. */
  ghost predicate UnitCost<S(!new), A(!new)>(problem: Problem<S, A>)
  {
    forall c, s1, a, s2 :: problem.pathCost(c, s1, a, s2) == StepCost(c, s1, a, s2)
  }

  /** A node of the search tree; `parent` and `action` are None at the root. */
  datatype Node<S, A> = Node(state: S, parent: Option<Node<S, A>>, action: Option<A>, pathCost: int, depth: nat)

  /** `Node.__init__`: the depth is the parent's plus one, or 0 without a parent. */
  function NewNode<S, A>(state: S, parent: Option<Node<S, A>>, action: Option<A>, pathCost: int): (r: Node<S, A>)
    ensures r.state == state && r.parent == parent && r.action == action && r.pathCost == pathCost
    ensures parent.None? ==> r.depth == 0
    ensures parent.Some? ==> r.depth == parent.value.depth + 1
  {
    Node(state, parent, action, pathCost, if parent.Some? then parent.value.depth + 1 else 0)
  }

  /** The node search starts from. */
  function Root<S, A>(problem: Problem<S, A>): (r: Node<S, A>)
    ensures r.state == problem.initial && r.parent.None? && r.action.None?
    ensures r.pathCost == 0 && r.depth == 0
  {
    NewNode(problem.initial, None, None, 0)
  }

  /** `child_node`: the node one action below `n`. */
  function ChildNode<S, A>(problem: Problem<S, A>, n: Node<S, A>, a: A): (r: Node<S, A>)
    ensures r.parent == Some(n) && r.action == Some(a) && r.depth == n.depth + 1
    ensures r.state == problem.result(n.state, a)
    ensures r.pathCost == problem.pathCost(n.pathCost, n.state, a, r.state)
  {
    var next := problem.result(n.state, a);
    NewNode(next, Some(n), Some(a), problem.pathCost(n.pathCost, n.state, a, next))
  }

  /** `expand`: one child per action of the node's state, in the order the problem lists them. */
  function Expand<S, A>(problem: Problem<S, A>, n: Node<S, A>): (r: seq<Node<S, A>>)
    ensures |r| == |problem.actions(n.state)|
    ensures forall i :: 0 <= i < |r| ==>
      && r[i].parent == Some(n) && r[i].action == Some(problem.actions(n.state)[i])
      && r[i].state == problem.result(n.state, problem.actions(n.state)[i])
      && r[i].depth == n.depth + 1
  {
    var acts := problem.actions(n.state);
    seq(|acts|, i requires 0 <= i < |acts| => ChildNode(problem, n, acts[i]))
  }

  /** `__eq__`: nodes are equal when their states are, whatever their paths. */
  predicate SameState<S(==), A>(a: Node<S, A>, b: Node<S, A>)
  {
    a.state == b.state
  }

  /** `__hash__`, with the hash of a state supplied as `h`. */
  function NodeHash<S, A>(n: Node<S, A>, h: S -> int): int
  {
    h(n.state)
  }

  /** Nodes equal under `__eq__` hash alike. */
  lemma SameStateSameHash<S, A>(a: Node<S, A>, b: Node<S, A>, h: S -> int)
    requires SameState(a, b)
    ensures NodeHash(a, h) == NodeHash(b, h)
  {
  }

  // ---------------------------------------------------------------------------
  // Nodes made by search

  /**
   * `n` is a node search can build: the root, or a child, by one of its
   * state's actions, of a node search can build.
   */
  predicate Generated<S(==), A(==)>(problem: Problem<S, A>, n: Node<S, A>)
    decreases n
  {
    match n.parent
    case None => n == Root(problem)
    case Some(m) =>
      && Generated(problem, m)
      && n.action.Some?
      && n.action.value in problem.actions(m.state)
      && n == ChildNode(problem, m, n.action.value)
  }

  /** The children `expand` lists are nodes search can build. */
  lemma ExpandGenerated<S, A>(problem: Problem<S, A>, n: Node<S, A>)
    requires Generated(problem, n)
    ensures forall c :: c in Expand(problem, n) ==> Generated(problem, c)
  {
    forall c | c in Expand(problem, n) ensures Generated(problem, c) {
      var i :| 0 <= i < |Expand(problem, n)| && Expand(problem, n)[i] == c;
      assert problem.actions(n.state)[i] in problem.actions(n.state);
    }
  }

  /** The nodes from the root to `n`. */
  function PathOf<S, A>(n: Node<S, A>): (r: seq<Node<S, A>>)
    ensures |r| >= 1 && r[|r| - 1] == n
    decreases n
  {
    (match n.parent case None => [] case Some(m) => PathOf(m)) + [n]
  }

  /** Python's `reversed`. */
  function Reverse<T>(xs: seq<T>): (r: seq<T>)
    ensures |r| == |xs| && forall k :: 0 <= k < |xs| ==> r[k] == xs[|xs| - 1 - k]
  {
    if xs == [] then [] else Reverse(xs[1..]) + [xs[0]]
  }

  /** `path`: follow the parents back to the root, then reverse. */
  method Path<S, A>(n: Node<S, A>) returns (path: seq<Node<S, A>>)
    ensures path == PathOf(n)
  {
    var node: Option<Node<S, A>> := Some(n);
    var pathBack: seq<Node<S, A>> := [];
    while node.Some?
      invariant PathOf(n) == (if node.Some? then PathOf(node.value) else []) + Reverse(pathBack)
      decreases node
    {
      var m := node.value;
      PathBackStep(m, pathBack);
      pathBack := pathBack + [m];
      node := m.parent;
    }
    assert [] + Reverse(pathBack) == Reverse(pathBack);
    path := Reverse(pathBack);
  }

  /** One step of `path`'s loop: moving `m` from the path still to walk onto the reversed tail keeps the whole path. */
  lemma PathBackStep<S, A>(m: Node<S, A>, pathBack: seq<Node<S, A>>)
    ensures PathOf(m) + Reverse(pathBack) ==
      (if m.parent.Some? then PathOf(m.parent.value) else []) + Reverse(pathBack + [m])
  {
    var front := if m.parent.Some? then PathOf(m.parent.value) else [];
    assert PathOf(m) == front + [m];
    ReverseSnoc(pathBack, m);
  }

  /** Reversing a list with one more item at the back puts that item in front. */
  lemma ReverseSnoc<T>(xs: seq<T>, x: T)
    ensures Reverse(xs + [x]) == [x] + Reverse(xs)
  {
    var l, r := Reverse(xs + [x]), [x] + Reverse(xs);
    forall k | 0 <= k < |l| ensures l[k] == r[k] {
      if k > 0 {
        assert (xs + [x])[|xs| - k] == xs[|xs| - 1 - (k - 1)];
      }
    }
  }

  /** The actions that label the nodes after the root, for nodes search can build. */
  function Solution<S(==), A(==)>(problem: Problem<S, A>, n: Node<S, A>): (r: seq<A>)
    requires Generated(problem, n)
    ensures |r| == n.depth
    decreases n
  {
    match n.parent
    case None => []
    case Some(m) => Solution(problem, m) + [n.action.value]
  }

  /** The state the actions lead to from `s`, one `result` at a time. */
  function Walk<S, A>(problem: Problem<S, A>, s: S, acts: seq<A>): (r: S)
    decreases |acts|
  {
    if acts == [] then s else Walk(problem, problem.result(s, acts[0]), acts[1..])
  }

  /** Each action is among those its state offers. */
  predicate Legal<S, A(==)>(problem: Problem<S, A>, s: S, acts: seq<A>)
    decreases |acts|
  {
    acts == [] || (acts[0] in problem.actions(s) && Legal(problem, problem.result(s, acts[0]), acts[1..]))
  }

  lemma {:induction false} WalkSnoc<S, A>(problem: Problem<S, A>, s: S, acts: seq<A>, a: A)
    ensures Walk(problem, s, acts + [a]) == problem.result(Walk(problem, s, acts), a)
    ensures Legal(problem, s, acts + [a]) <==> Legal(problem, s, acts) && a in problem.actions(Walk(problem, s, acts))
    decreases |acts|
  {
    if acts == [] {
      assert acts + [a] == [a];
    } else {
      assert (acts + [a])[1..] == acts[1..] + [a];
      WalkSnoc(problem, problem.result(s, acts[0]), acts[1..], a);
    }
  }

  /**
   * `solution` and `path` of a node search built: the path runs from the
   * root to the node through depth + 1 nodes, each the parent of the next,
   * and the solution is a legal action sequence of length depth that leads
   * from the initial state to the node's state.
   */
  lemma {:induction false} GeneratedPath<S, A>(problem: Problem<S, A>, n: Node<S, A>)
    requires Generated(problem, n)
    ensures |PathOf(n)| == n.depth + 1 && PathOf(n)[0] == Root(problem) && PathOf(n)[n.depth] == n
    ensures forall k :: 0 <= k < n.depth ==> PathOf(n)[k + 1].parent == Some(PathOf(n)[k])
    ensures forall k :: 0 <= k <= n.depth ==> PathOf(n)[k].depth == k
    ensures |Solution(problem, n)| == n.depth
    ensures Legal(problem, problem.initial, Solution(problem, n))
    ensures Walk(problem, problem.initial, Solution(problem, n)) == n.state
    decreases n
  {
    match n.parent
    case None =>
    case Some(m) =>
      GeneratedPath(problem, m);
      WalkSnoc(problem, problem.initial, Solution(problem, m), n.action.value);
  }

  /** `solution` read off `path`: the actions of the nodes after the root, in order. */
  lemma {:induction false} SolutionAlongPath<S, A>(problem: Problem<S, A>, n: Node<S, A>)
    requires Generated(problem, n)
    ensures |Solution(problem, n)| == |PathOf(n)| - 1
    ensures forall k :: 0 <= k < |Solution(problem, n)| ==> PathOf(n)[k + 1].action == Some(Solution(problem, n)[k])
    decreases n
  {
    match n.parent
    case None =>
    case Some(m) =>
      SolutionAlongPath(problem, m);
      assert PathOf(n) == PathOf(m) + [n];
  }

  /** With the default step cost, a node's path cost is its depth. */
  lemma {:induction false} UnitCostIsDepth<S(!new), A(!new)>(problem: Problem<S, A>, n: Node<S, A>)
    requires UnitCost(problem) && Generated(problem, n)
    ensures n.pathCost == n.depth
    decreases n
  {
    match n.parent
    case None =>
    case Some(m) =>
      UnitCostIsDepth(problem, m);
  }
}
