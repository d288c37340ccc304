/**
 * The uninformed searches of search.py: `tree_search` and `graph_search`
 * over a LIFO or FIFO frontier, and the breadth-first and depth-first
 * wrappers around them.  The loops run on a fuel bound: a search whose
 * fuel runs out before the frontier empties or a goal is popped reports
 * OutOfFuel.
 */
module UninformedSearch {
  import opened Common
  import opened SearchNodes
  import opened Frontiers

  /** What a search returns: the goal node found, None (`NotFound`), or no answer within the fuel. */
  datatype Outcome<S, A> = Found(node: Node<S, A>) | NotFound | OutOfFuel

  /** `acts` is a legal action sequence from the initial state that ends in a goal state. */
  ghost predicate Solves<S, A>(problem: Problem<S, A>, acts: seq<A>)
  {
    Legal(problem, problem.initial, acts) && problem.goalTest(Walk(problem, problem.initial, acts))
  }

  /** Every node on the frontier is one search can build. */
  ghost predicate AllGenerated<S, A>(problem: Problem<S, A>, items: seq<Node<S, A>>)
  {
    forall i :: 0 <= i < |items| ==> Generated(problem, items[i])
  }

  /** `node` is what `pop` takes from `before`, leaving `rest`. */
  ghost predicate PopOf<S, A>(lifo: bool, before: seq<Node<S, A>>, node: Node<S, A>, rest: seq<Node<S, A>>)
  {
    && |before| > 0
    && (lifo ==> node == before[|before| - 1] && rest == before[..|before| - 1])
    && (!lifo ==> node == before[0] && rest == before[1..])
  }

  /** `node` is taken from position `m` of `before`, leaving `rest` in order. */
  ghost predicate PopAt<S, A>(m: nat, before: seq<Node<S, A>>, node: Node<S, A>, rest: seq<Node<S, A>>)
  {
    m < |before| && node == before[m] && rest == before[..m] + before[m + 1..]
  }

  /** The position `pop` takes from a non-empty queue of length `n`. */
  function Top(lifo: bool, n: nat): nat
  {
    if lifo && n > 0 then n - 1 else 0
  }

  lemma PopOfAt<S, A>(lifo: bool, before: seq<Node<S, A>>, node: Node<S, A>, rest: seq<Node<S, A>>)
    requires PopOf(lifo, before, node, rest)
    ensures PopAt(Top(lifo, |before|), before, node, rest)
  {
    if lifo {
      assert before[|before|..] == [];
    } else {
      assert before[..0] == [];
    }
  }

  /** After a pop at `m`, the nodes before `m` keep their positions and those after move down one. */
  lemma PopShift<S, A>(m: nat, before: seq<Node<S, A>>, node: Node<S, A>, rest: seq<Node<S, A>>)
    requires PopAt(m, before, node, rest)
    ensures |rest| == |before| - 1
    ensures forall i :: 0 <= i < |rest| ==> rest[i] == before[if i < m then i else i + 1]
  {
  }

  /** The frontier of breadth-first search: depths non-decreasing, spanning at most two levels. */
  predicate Layered<S, A>(items: seq<Node<S, A>>)
  {
    && (forall i, j :: 0 <= i < j < |items| ==> items[i].depth <= items[j].depth)
    && (forall i :: 0 <= i < |items| ==> items[i].depth <= items[0].depth + 1)
  }

  /** Depths of the popped nodes never decrease. */
  predicate Ascending<S, A>(popped: seq<Node<S, A>>)
  {
    forall i, j :: 0 <= i < j < |popped| ==> popped[i].depth <= popped[j].depth
  }

  lemma {:induction false} LegalPrefix<S, A>(problem: Problem<S, A>, s: S, acts: seq<A>, k: nat)
    requires Legal(problem, s, acts) && k < |acts|
    ensures Legal(problem, s, acts[..k]) && acts[k] in problem.actions(Walk(problem, s, acts[..k]))
    decreases k
  {
    if k > 0 {
      LegalPrefix(problem, problem.result(s, acts[0]), acts[1..], k - 1);
      assert acts[..k][1..] == acts[1..][..k - 1];
    }
  }

  /** A goal-reaching sequence that passes a non-goal node's state goes on through one of its children. */
  lemma {:induction false} ChildOnTheWay<S, A>(problem: Problem<S, A>, node: Node<S, A>, acts: seq<A>, k: nat)
    requires Solves(problem, acts) && k <= |acts| && !problem.goalTest(node.state)
    requires node.state == Walk(problem, problem.initial, acts[..k])
    ensures k < |acts|
    ensures exists j :: 0 <= j < |Expand(problem, node)| && Expand(problem, node)[j].state == Walk(problem, problem.initial, acts[..k + 1])
  {
    assert acts[..k] != acts;
    LegalPrefix(problem, problem.initial, acts, k);
    var options := problem.actions(node.state);
    var j :| 0 <= j < |options| && options[j] == acts[k];
    assert acts[..k + 1] == acts[..k] + [acts[k]];
    WalkSnoc(problem, problem.initial, acts[..k], acts[k]);
    assert Expand(problem, node)[j].state == Walk(problem, problem.initial, acts[..k + 1]);
  }

  // ---------------------------------------------------------------------------
  // tree_search

  /** Some frontier node's solution is a prefix of `acts`: search may still follow `acts`. */
  ghost predicate Covered<S, A>(problem: Problem<S, A>, items: seq<Node<S, A>>, acts: seq<A>)
  {
    exists i, k :: 0 <= i < |items| && 0 <= k <= |acts| && Generated(problem, items[i]) && Solution(problem, items[i]) == acts[..k]
  }

  /** Every goal-reaching action sequence is covered. */
  ghost predicate AllCovered<S, A(!new)>(problem: Problem<S, A>, items: seq<Node<S, A>>)
  {
    forall acts :: Solves(problem, acts) ==> Covered(problem, items, acts)
  }

  /**
   * One iteration of `tree_search` keeps every goal-reaching action
   * sequence covered: the popped node is not a goal, so a sequence it
   * covered continues through one of its children.
   */
  lemma {:induction false} TreeStepCovers<S, A>(problem: Problem<S, A>, lifo: bool,
      before: seq<Node<S, A>>, node: Node<S, A>, rest: seq<Node<S, A>>, acts: seq<A>)
    requires PopOf(lifo, before, node, rest) && AllGenerated(problem, before)
    requires !problem.goalTest(node.state)
    requires Solves(problem, acts) && Covered(problem, before, acts)
    ensures Covered(problem, rest + Expand(problem, node), acts)
  {
    var i, k :| 0 <= i < |before| && 0 <= k <= |acts| && Generated(problem, before[i]) && Solution(problem, before[i]) == acts[..k];
    var next := rest + Expand(problem, node);
    var top := if lifo then |before| - 1 else 0;
    if i != top {
      var j := if lifo then i else i - 1;
      assert next[j] == before[i];
      assert 0 <= j < |next| && 0 <= k <= |acts| && Generated(problem, next[j]) && Solution(problem, next[j]) == acts[..k];
    } else {
      assert before[i] == node;
      ChildCovers(problem, node, acts, k);
      var j :| 0 <= j < |Expand(problem, node)| && Generated(problem, Expand(problem, node)[j])
               && Solution(problem, Expand(problem, node)[j]) == acts[..k + 1];
      assert next[|rest| + j] == Expand(problem, node)[j];
      assert 0 <= |rest| + j < |next| && 0 <= k + 1 <= |acts|
          && Generated(problem, next[|rest| + j]) && Solution(problem, next[|rest| + j]) == acts[..k + 1];
    }
  }

  /** A non-goal node on the way of a goal-reaching sequence has a child one step further along it. */
  lemma ChildCovers<S, A>(problem: Problem<S, A>, node: Node<S, A>, acts: seq<A>, k: nat)
    requires Generated(problem, node) && Solves(problem, acts) && k <= |acts| && Solution(problem, node) == acts[..k]
    requires !problem.goalTest(node.state)
    ensures k < |acts|
    ensures exists j :: 0 <= j < |Expand(problem, node)| && Generated(problem, Expand(problem, node)[j])
                        && Solution(problem, Expand(problem, node)[j]) == acts[..k + 1]
  {
    GeneratedPath(problem, node);
    assert Walk(problem, problem.initial, acts[..k]) == node.state;
    // the popped node is not a goal, so `acts` goes on past it
    assert acts[..k] != acts;
    LegalPrefix(problem, problem.initial, acts, k);
    var options := problem.actions(node.state);
    var j :| 0 <= j < |options| && options[j] == acts[k];
    ExpandGenerated(problem, node);
    var child := Expand(problem, node)[j];
    assert Generated(problem, child) by {
      assert child in Expand(problem, node);
    }
    assert acts[..k + 1] == acts[..k] + [acts[k]];
  }

  /** A frontier node whose solution has length `k` is at depth `k`. */
  lemma CoveredDepth<S, A>(problem: Problem<S, A>, items: seq<Node<S, A>>, acts: seq<A>)
    requires Covered(problem, items, acts)
    ensures exists i :: 0 <= i < |items| && items[i].depth <= |acts|
  {
    var i, k :| 0 <= i < |items| && 0 <= k <= |acts| && Generated(problem, items[i]) && Solution(problem, items[i]) == acts[..k];
    GeneratedPath(problem, items[i]);
  }

  /** The loop invariants of `tree_search` survive one pop of a non-goal node and the push of its children. */
  lemma TreeStep<S, A(!new)>(problem: Problem<S, A>, lifo: bool, before: seq<Node<S, A>>,
      node: Node<S, A>, rest: seq<Node<S, A>>, popped: seq<Node<S, A>>)
    requires PopOf(lifo, before, node, rest) && AllGenerated(problem, before) && AllCovered(problem, before)
    requires !problem.goalTest(node.state)
    requires |popped| > 0 && popped[|popped| - 1] == node
    requires !lifo ==> Layered(before) && Ascending(popped[..|popped| - 1])
    requires !lifo && |popped| > 1 ==> forall i :: 0 <= i < |before| ==> popped[|popped| - 2].depth <= before[i].depth
    ensures AllGenerated(problem, rest + Expand(problem, node)) && AllCovered(problem, rest + Expand(problem, node))
    ensures !lifo ==> Layered(rest + Expand(problem, node)) && Ascending(popped)
    ensures !lifo ==> forall i :: 0 <= i < |rest + Expand(problem, node)| ==> node.depth <= (rest + Expand(problem, node))[i].depth
  {
    var next := rest + Expand(problem, node);
    ExpandGenerated(problem, node);
    forall i | 0 <= i < |next| ensures Generated(problem, next[i]) {
      if i >= |rest| {
        assert next[i] in Expand(problem, node);
      }
    }
    forall acts | Solves(problem, acts) ensures Covered(problem, next, acts) {
      TreeStepCovers(problem, lifo, before, node, rest, acts);
    }
  }

  /**
   * The loop invariant of `tree_search`: every frontier node was generated,
   * every goal-reaching sequence is covered, and with a FIFO frontier the
   * frontier is layered and no shallower than the nodes popped so far.
   */
  ghost predicate TreeInv<S, A(!new)>(problem: Problem<S, A>, lifo: bool, items: seq<Node<S, A>>, popped: seq<Node<S, A>>)
  {
    && AllGenerated(problem, items)
    && AllCovered(problem, items)
    && (!lifo ==> Layered(items) && Ascending(popped))
    && (!lifo && popped != [] ==> forall i :: 0 <= i < |items| ==> popped[|popped| - 1].depth <= items[i].depth)
  }

  /** A goal popped from a frontier satisfying TreeInv is generated and, with a FIFO frontier, no deeper than any solution. */
  lemma TreeFound<S, A(!new)>(problem: Problem<S, A>, lifo: bool, before: seq<Node<S, A>>, node: Node<S, A>,
      rest: seq<Node<S, A>>, prior: seq<Node<S, A>>)
    requires PopOf(lifo, before, node, rest) && TreeInv(problem, lifo, before, prior)
    ensures Generated(problem, node)
    ensures !lifo ==> forall acts :: Solves(problem, acts) ==> node.depth <= |acts|
  {
    forall acts | !lifo && Solves(problem, acts) ensures node.depth <= |acts| {
      CoveredDepth(problem, before, acts);
    }
  }

  /** TreeStep restated on TreeInv. */
  lemma TreeInvStep<S, A(!new)>(problem: Problem<S, A>, lifo: bool, before: seq<Node<S, A>>,
      node: Node<S, A>, rest: seq<Node<S, A>>, prior: seq<Node<S, A>>)
    requires PopOf(lifo, before, node, rest) && TreeInv(problem, lifo, before, prior)
    requires !problem.goalTest(node.state)
    ensures TreeInv(problem, lifo, rest + Expand(problem, node), prior + [node])
  {
    var popped := prior + [node];
    assert popped[..|popped| - 1] == prior;
    TreeStep(problem, lifo, before, node, rest, popped);
  }

  /**
   * `tree_search`: pop a node, return it if it is a goal, otherwise push
   * all its children.  Found nodes are goals search built; NotFound means
   * no action sequence leads to a goal; with a FIFO frontier nodes are
   * popped in non-decreasing depth and the node found is a shallowest goal.
   */
  method TreeSearch<S(==), A(==,!new)>(problem: Problem<S, A>, lifo: bool, fuel: nat)
      returns (r: Outcome<S, A>, ghost popped: seq<Node<S, A>>)
    ensures r.Found? ==> Generated(problem, r.node) && problem.goalTest(r.node.state)
    ensures r.Found? ==> |popped| > 0 && popped[|popped| - 1] == r.node
    ensures r.NotFound? ==> forall acts :: !Solves(problem, acts)
    ensures !lifo ==> Ascending(popped)
    ensures !lifo && r.Found? ==> forall acts :: Solves(problem, acts) ==> r.node.depth <= |acts|
  {
    var frontier: Queue<S, A>;
    if lifo {
      frontier := new Queue.Lifo();
    } else {
      frontier := new Queue.Fifo();
    }
    frontier.Append(Root(problem));
    popped := [];
    forall acts | Solves(problem, acts) ensures Covered(problem, frontier.items, acts) {
      assert Solution(problem, frontier.items[0]) == acts[..0];
    }
    var fuelLeft := fuel;
    while frontier.items != []
      invariant frontier.lifo == lifo
      invariant TreeInv(problem, lifo, frontier.items, popped)
      decreases fuelLeft
    {
      if fuelLeft == 0 {
        return OutOfFuel, popped;
      }
      fuelLeft := fuelLeft - 1;
      ghost var before := frontier.items;
      ghost var prior := popped;
      var node := frontier.Pop();
      popped := popped + [node];
      if problem.goalTest(node.state) {
        TreeFound(problem, lifo, before, node, frontier.items, prior);
        return Found(node), popped;
      }
      var children := Expand(problem, node);
      ghost var rest := frontier.items;
      frontier.Extend(children);
      TreeInvStep(problem, lifo, before, node, rest, prior);
    }
    return NotFound, popped;
  }

  // ---------------------------------------------------------------------------
  // graph_search

  /** No two nodes share a state. */
  ghost predicate DistinctStates<S, A>(items: seq<Node<S, A>>)
  {
    forall i, j :: 0 <= i < j < |items| ==> items[i].state != items[j].state
  }

  /** No node's state is explored. */
  ghost predicate Unexplored<S, A>(items: seq<Node<S, A>>, explored: set<S>)
  {
    forall i :: 0 <= i < |items| ==> items[i].state !in explored
  }

  /** `s` is explored or the state of a frontier node. */
  ghost predicate Seen<S, A>(explored: set<S>, items: seq<Node<S, A>>, s: S)
  {
    s in explored || HasState(items, s)
  }

  /** Every action of an explored state leads to a state already seen. */
  ghost predicate Closed<S(!new), A(!new)>(problem: Problem<S, A>, explored: set<S>, items: seq<Node<S, A>>)
  {
    forall s, a :: s in explored && a in problem.actions(s) ==> Seen(explored, items, problem.result(s, a))
  }

  /** Every state reachable in fewer than `d` legal actions is explored. */
  ghost predicate Shallow<S, A(!new)>(problem: Problem<S, A>, explored: set<S>, d: nat)
  {
    forall acts :: Legal(problem, problem.initial, acts) && |acts| < d ==> Walk(problem, problem.initial, acts) in explored
  }

  /** No legal action sequence reaches a frontier node's state in fewer steps than the node's depth. */
  ghost predicate Optimal<S, A(!new)>(problem: Problem<S, A>, items: seq<Node<S, A>>)
  {
    forall i, acts :: 0 <= i < |items| && Legal(problem, problem.initial, acts) && Walk(problem, problem.initial, acts) == items[i].state
      ==> items[i].depth <= |acts|
  }

  lemma SeenAppend<S, A>(explored: set<S>, items: seq<Node<S, A>>, c: Node<S, A>)
    ensures forall s :: Seen(explored, items, s) ==> Seen(explored, items + [c], s)
    ensures Seen(explored, items + [c], c.state)
  {
    forall s | HasState(items, s) ensures HasState(items + [c], s) {
      var i :| 0 <= i < |items| && items[i].state == s;
      assert (items + [c])[i] == items[i];
    }
    assert (items + [c])[|items|] == c;
  }

  /** A state on a prefix of the frontier is on the frontier. */
  lemma SeenAppendBack<S, A>(explored: set<S>, start: seq<Node<S, A>>, items: seq<Node<S, A>>)
    requires |start| <= |items| && items[..|start|] == start
    ensures forall s :: Seen(explored, start, s) ==> Seen(explored, items, s)
  {
    forall s | HasState(start, s) ensures HasState(items, s) {
      var i :| 0 <= i < |start| && start[i].state == s;
      assert items[i] == start[i];
    }
  }

  /** What the popped frontier held is now explored or still on the frontier. */
  lemma PopSeen<S, A>(m: nat, before: seq<Node<S, A>>, node: Node<S, A>, rest: seq<Node<S, A>>,
      explored: set<S>, items: seq<Node<S, A>>)
    requires PopAt(m, before, node, rest) && node.state in explored
    requires |rest| <= |items| && items[..|rest|] == rest
    ensures forall s :: HasState(before, s) ==> Seen(explored, items, s)
  {
    forall s | HasState(before, s) ensures Seen(explored, items, s) {
      var i :| 0 <= i < |before| && before[i].state == s;
      PopShift(m, before, node, rest);
      if i != m {
        var j := if i < m then i else i - 1;
        assert items[j] == rest[j] == before[i];
      }
    }
  }

  /** From an explored state, a closed explored set holds everything legal actions reach. */
  lemma {:induction false} ClosedReach<S(!new), A(!new)>(problem: Problem<S, A>, explored: set<S>, s: S, acts: seq<A>)
    requires Closed(problem, explored, []) && s in explored && Legal(problem, s, acts)
    ensures Walk(problem, s, acts) in explored
    decreases |acts|
  {
    if acts != [] {
      assert Seen<S, A>(explored, [], problem.result(s, acts[0]));
      ClosedReach(problem, explored, problem.result(s, acts[0]), acts[1..]);
    }
  }

  /** An empty frontier: the explored states, none a goal, hold everything reachable, so no goal is. */
  lemma Exhausted<S(!new), A(!new)>(problem: Problem<S, A>, explored: set<S>)
    requires Closed(problem, explored, []) && Seen<S, A>(explored, [], problem.initial)
    requires forall s :: s in explored ==> !problem.goalTest(s)
    ensures forall acts :: !Solves(problem, acts)
  {
    forall acts | Legal(problem, problem.initial, acts) ensures !problem.goalTest(Walk(problem, problem.initial, acts)) {
      ClosedReach(problem, explored, problem.initial, acts);
    }
  }

  /**
   * With everything shallower than `d` explored and the explored set closed,
   * every state `d` legal actions reach has been seen.
   */
  lemma WithinLayer<S(!new), A(!new)>(problem: Problem<S, A>, explored: set<S>, items: seq<Node<S, A>>, d: nat, acts: seq<A>)
    requires Closed(problem, explored, items) && Seen(explored, items, problem.initial) && Shallow(problem, explored, d)
    requires Legal(problem, problem.initial, acts) && |acts| <= d
    ensures Seen(explored, items, Walk(problem, problem.initial, acts))
  {
    if 0 < |acts| == d {
      var prefix := acts[..|acts| - 1];
      LegalPrefix(problem, problem.initial, acts, |acts| - 1);
      assert acts == prefix + [acts[|acts| - 1]];
      WalkSnoc(problem, problem.initial, prefix, acts[|acts| - 1]);
    }
  }

  /**
   * Breadth-first: a state not seen before this expansion is only
   * reachable in more than `d` actions, so its child node at depth `d + 1`
   * is optimal.
   */
  lemma ChildOptimal<S(!new), A(!new)>(problem: Problem<S, A>, explored: set<S>, before: seq<Node<S, A>>, d: nat, child: Node<S, A>)
    requires Closed(problem, explored, before) && Seen(explored, before, problem.initial) && Shallow(problem, explored, d)
    requires !Seen(explored, before, child.state) && child.depth == d + 1
    ensures forall acts :: Legal(problem, problem.initial, acts) && Walk(problem, problem.initial, acts) == child.state ==> child.depth <= |acts|
  {
    forall acts | Legal(problem, problem.initial, acts) && Walk(problem, problem.initial, acts) == child.state
      ensures child.depth <= |acts|
    {
      if |acts| <= d {
        WithinLayer(problem, explored, before, d, acts);
      }
    }
  }

  /** The nodes left after a pop keep their distinct, unexplored states and their optimality. */
  lemma PopKeeps<S(!new), A(!new)>(problem: Problem<S, A>, m: nat, before: seq<Node<S, A>>, node: Node<S, A>,
      rest: seq<Node<S, A>>, explored: set<S>)
    requires PopAt(m, before, node, rest) && AllGenerated(problem, before)
    requires DistinctStates(before) && Unexplored(before, explored)
    ensures AllGenerated(problem, rest) && DistinctStates(rest) && Unexplored(rest, explored + {node.state})
    ensures Optimal(problem, before) ==> Optimal(problem, rest)
    ensures node.state !in explored
  {
    PopShift(m, before, node, rest);
  }

  /** Appending a child whose state is not yet on the frontier keeps the frontier's invariants. */
  lemma AppendKeeps<S, A>(items: seq<Node<S, A>>, c: Node<S, A>, explored: set<S>)
    requires DistinctStates(items) && Unexplored(items, explored)
    requires !HasState(items, c.state) && c.state !in explored
    ensures DistinctStates(items + [c]) && Unexplored(items + [c], explored)
  {
    var next := items + [c];
    forall i, j | 0 <= i < j < |next| ensures next[i].state != next[j].state {
      if j == |items| {
        assert next[i] == items[i];
      }
    }
  }

  /** Popping a node whose state was unexplored keeps the popped states distinct. */
  lemma PoppedDistinct<S, A>(popped: seq<Node<S, A>>, node: Node<S, A>, explored: set<S>)
    requires DistinctStates(popped) && (forall i :: 0 <= i < |popped| ==> popped[i].state in explored)
    requires node.state !in explored
    ensures DistinctStates(popped + [node])
    ensures forall i :: 0 <= i < |popped + [node]| ==> (popped + [node])[i].state in explored + {node.state}
  {
  }

  /**
   * Breadth-first: the first node of the frontier is at the least depth any
   * goal is reachable in, when it is a goal and no explored state is.
   */
  lemma BfsFound<S, A(!new)>(problem: Problem<S, A>, explored: set<S>, node: Node<S, A>, acts: seq<A>)
    requires Shallow(problem, explored, node.depth) && (forall s :: s in explored ==> !problem.goalTest(s))
    requires Solves(problem, acts)
    ensures node.depth <= |acts|
  {
  }

  /**
   * After the children of `node` are added, the explored set with the
   * node's state is closed again and the initial state is still seen.
   */
  lemma GraphStep<S(!new), A(!new)>(problem: Problem<S, A>, m: nat, before: seq<Node<S, A>>, node: Node<S, A>,
      rest: seq<Node<S, A>>, explored: set<S>, items: seq<Node<S, A>>)
    requires PopAt(m, before, node, rest) && AllGenerated(problem, before)
    requires Closed(problem, explored, before) && Seen(explored, before, problem.initial)
    requires |rest| <= |items| && items[..|rest|] == rest
    requires forall i :: |rest| <= i < |items| ==> items[i] in Expand(problem, node)
    requires forall j :: 0 <= j < |Expand(problem, node)| ==> Seen(explored + {node.state}, items, Expand(problem, node)[j].state)
    ensures AllGenerated(problem, items)
    ensures Closed(problem, explored + {node.state}, items) && Seen(explored + {node.state}, items, problem.initial)
  {
    var explored' := explored + {node.state};
    var children := Expand(problem, node);
    assert Generated(problem, node);
    ExpandGenerated(problem, node);
    forall i | 0 <= i < |items| ensures Generated(problem, items[i]) {
      if i < |rest| {
        PopShift(m, before, node, rest);
        assert items[i] == rest[i];
      }
    }
    PopSeen(m, before, node, rest, explored', items);
    forall s, a | s in explored' && a in problem.actions(s) ensures Seen(explored', items, problem.result(s, a)) {
      if s in explored {
        assert Seen(explored, before, problem.result(s, a));
      } else {
        var j :| 0 <= j < |problem.actions(s)| && problem.actions(s)[j] == a;
        assert children[j].state == problem.result(s, a);
      }
    }
  }

  /**
   * Breadth-first: after the children of the first node, at depth `d`, go
   * to the back of the frontier, the frontier is still layered, no node on
   * it is shallower than `d`, and, whatever depth the new first node has,
   * every state reachable in fewer actions is explored.
   */
  lemma BfsStep<S(!new), A(!new)>(problem: Problem<S, A>, before: seq<Node<S, A>>, node: Node<S, A>,
      rest: seq<Node<S, A>>, explored: set<S>, items: seq<Node<S, A>>)
    requires PopAt(0, before, node, rest) && Layered(before)
    requires Closed(problem, explored, before) && Seen(explored, before, problem.initial) && Shallow(problem, explored, node.depth)
    requires |rest| <= |items| && items[..|rest|] == rest
    requires forall i :: |rest| <= i < |items| ==> items[i] in Expand(problem, node)
    requires Optimal(problem, items)
    ensures Layered(items) && forall i :: 0 <= i < |items| ==> node.depth <= items[i].depth <= node.depth + 1
    ensures |items| > 0 ==> Shallow(problem, explored + {node.state}, items[0].depth)
  {
    BfsLayered(problem, before, node, rest, items);
    if |items| > 0 {
      BfsShallow(problem, before, node, rest, explored, items);
    }
  }

  /** The frontier after a breadth-first step is layered, between the popped depth and one more. */
  lemma BfsLayered<S, A>(problem: Problem<S, A>, before: seq<Node<S, A>>, node: Node<S, A>,
      rest: seq<Node<S, A>>, items: seq<Node<S, A>>)
    requires PopAt(0, before, node, rest) && Layered(before)
    requires |rest| <= |items| && items[..|rest|] == rest
    requires forall i :: |rest| <= i < |items| ==> items[i] in Expand(problem, node)
    ensures Layered(items) && forall i :: 0 <= i < |items| ==> node.depth <= items[i].depth <= node.depth + 1
  {
    var d := node.depth;
    forall i | 0 <= i < |items| ensures d <= items[i].depth <= d + 1 {
      if i < |rest| {
        assert items[i] == before[i + 1];
      }
    }
    forall i, j | 0 <= i < j < |items| ensures items[i].depth <= items[j].depth {
      if j < |rest| {
        assert items[i] == before[i + 1] && items[j] == before[j + 1];
      }
    }
  }

  /** After a breadth-first step, everything reachable in fewer actions than the new first node's depth is explored. */
  lemma BfsShallow<S(!new), A(!new)>(problem: Problem<S, A>, before: seq<Node<S, A>>, node: Node<S, A>,
      rest: seq<Node<S, A>>, explored: set<S>, items: seq<Node<S, A>>)
    requires PopAt(0, before, node, rest) && Layered(before)
    requires Closed(problem, explored, before) && Seen(explored, before, problem.initial) && Shallow(problem, explored, node.depth)
    requires |rest| <= |items| && items[..|rest|] == rest
    requires forall i :: |rest| <= i < |items| ==> items[i] in Expand(problem, node)
    requires Optimal(problem, items)
    requires Layered(items) && forall i :: 0 <= i < |items| ==> node.depth <= items[i].depth <= node.depth + 1
    requires |items| > 0
    ensures Shallow(problem, explored + {node.state}, items[0].depth)
  {
    var d := node.depth;
    if items[0].depth == d + 1 {
      var explored' := explored + {node.state};
      PopSeen(0, before, node, rest, explored', items);
      forall acts | Legal(problem, problem.initial, acts) && |acts| < d + 1
        ensures Walk(problem, problem.initial, acts) in explored'
      {
        WithinLayer(problem, explored, before, d, acts);
        var w := Walk(problem, problem.initial, acts);
        if HasState(items, w) {
          var i :| 0 <= i < |items| && items[i].state == w;
          assert items[i].depth <= |acts|;
        }
      }
    }
  }

  /**
   * The children the generator of `graph_search` lets through, in order:
   * those whose state is neither explored nor on the frontier as it stands
   * when the child comes up, earlier admitted siblings included.
   */
  function Admitted<S(==), A>(explored: set<S>, items: seq<Node<S, A>>, children: seq<Node<S, A>>): seq<Node<S, A>>
    decreases |children|
  {
    if children == [] then []
    else
      var pre := Admitted(explored, items, children[..|children| - 1]);
      var c := children[|children| - 1];
      if c.state !in explored && !HasState(items + pre, c.state) then pre + [c] else pre
  }

  /**
   * `frontier.extend(child for child in children if child.state not in
   * explored and child not in frontier)`: the generator is consumed one
   * child at a time, so each membership test sees the siblings already
   * appended.  The frontier keeps distinct unexplored states, and every
   * child's state ends up seen.
   */
  method ExtendUnseen<S(==), A>(frontier: Queue<S, A>, explored: set<S>, children: seq<Node<S, A>>)
    requires DistinctStates(frontier.items) && Unexplored(frontier.items, explored)
    modifies frontier
    ensures frontier.items == old(frontier.items) + Admitted(explored, old(frontier.items), children)
    ensures DistinctStates(frontier.items) && Unexplored(frontier.items, explored)
    ensures forall i :: |old(frontier.items)| <= i < |frontier.items| ==>
      frontier.items[i] in children && !Seen(explored, old(frontier.items), frontier.items[i].state)
    ensures forall j :: 0 <= j < |children| ==> Seen(explored, frontier.items, children[j].state)
  {
    ghost var start := frontier.items;
    for k := 0 to |children|
      invariant frontier.items == start + Admitted(explored, start, children[..k])
      invariant DistinctStates(frontier.items) && Unexplored(frontier.items, explored)
      invariant forall i :: |start| <= i < |frontier.items| ==>
        frontier.items[i] in children && !Seen(explored, start, frontier.items[i].state)
      invariant forall j :: 0 <= j < k ==> Seen(explored, frontier.items, children[j].state)
    {
      var child := children[k];
      assert children[..k + 1][..k] == children[..k];
      if child.state !in explored {
        var inFrontier := frontier.Contains(child);
        if !inFrontier {
          ghost var was := frontier.items;
          AppendKeeps(was, child, explored);
          SeenAppend(explored, was, child);
          assert !Seen(explored, start, child.state) by {
            SeenAppendBack(explored, start, was);
          }
          frontier.Append(child);
        }
      }
    }
    assert children[..|children|] == children;
  }

  /**
   * Breadth-first: the children just admitted were unseen before the
   * expansion, so each is an optimal node and the frontier stays optimal.
   */
  lemma BfsOptimal<S(!new), A(!new)>(problem: Problem<S, A>, before: seq<Node<S, A>>, node: Node<S, A>,
      rest: seq<Node<S, A>>, explored: set<S>, items: seq<Node<S, A>>)
    requires PopAt(0, before, node, rest) && Optimal(problem, before)
    requires Closed(problem, explored, before) && Seen(explored, before, problem.initial) && Shallow(problem, explored, node.depth)
    requires |rest| <= |items| && items[..|rest|] == rest
    requires forall i :: |rest| <= i < |items| ==>
      items[i] in Expand(problem, node) && !Seen(explored + {node.state}, rest, items[i].state)
    ensures Optimal(problem, items)
  {
    forall i, acts | 0 <= i < |items| && Legal(problem, problem.initial, acts) && Walk(problem, problem.initial, acts) == items[i].state
      ensures items[i].depth <= |acts|
    {
      if i < |rest| {
        assert items[i] == before[i + 1];
      } else {
        PopSeen(0, before, node, rest, explored + {node.state}, rest);
        ChildOptimal(problem, explored, before, node.depth, items[i]);
      }
    }
  }

  /** The invariant of `graph_search`'s loop, for either frontier. */
  ghost predicate GraphInv<S(!new), A(!new)>(problem: Problem<S, A>, explored: set<S>, items: seq<Node<S, A>>, popped: seq<Node<S, A>>)
  {
    && AllGenerated(problem, items)
    && DistinctStates(items) && Unexplored(items, explored)
    && (forall s :: s in explored ==> !problem.goalTest(s))
    && Closed(problem, explored, items) && Seen(explored, items, problem.initial)
    && DistinctStates(popped) && (forall i :: 0 <= i < |popped| ==> popped[i].state in explored)
  }

  /** The further invariant of breadth-first `graph_search`. */
  ghost predicate BfsInv<S(!new), A(!new)>(problem: Problem<S, A>, explored: set<S>, items: seq<Node<S, A>>, popped: seq<Node<S, A>>)
  {
    && Layered(items) && Ascending(popped) && Optimal(problem, items)
    && (popped != [] ==> forall i :: 0 <= i < |items| ==> popped[|popped| - 1].depth <= items[i].depth)
    && (items != [] ==> Shallow(problem, explored, items[0].depth))
  }

  /** Popping a goal: the popped states stay distinct, and breadth-first the goal is a shallowest one. */
  lemma GraphFound<S(!new), A(!new)>(problem: Problem<S, A>, bfs: bool, m: nat, explored: set<S>, before: seq<Node<S, A>>,
      popped: seq<Node<S, A>>, node: Node<S, A>, rest: seq<Node<S, A>>)
    requires GraphInv(problem, explored, before, popped) && (bfs ==> m == 0 && BfsInv(problem, explored, before, popped))
    requires PopAt(m, before, node, rest)
    ensures Generated(problem, node) && DistinctStates(popped + [node])
    ensures bfs ==> Ascending(popped + [node]) && forall acts :: Solves(problem, acts) ==> node.depth <= |acts|
  {
    PopKeeps(problem, m, before, node, rest, explored);
    PoppedDistinct(popped, node, explored);
    forall acts | bfs && Solves(problem, acts) ensures node.depth <= |acts| {
      BfsFound(problem, explored, node, acts);
    }
  }

  /** One iteration of `graph_search` that pops a non-goal node keeps the loop invariant. */
  lemma GraphIteration<S(!new), A(!new)>(problem: Problem<S, A>, bfs: bool, m: nat, explored: set<S>, before: seq<Node<S, A>>,
      popped: seq<Node<S, A>>, node: Node<S, A>, rest: seq<Node<S, A>>, items: seq<Node<S, A>>)
    requires GraphInv(problem, explored, before, popped) && (bfs ==> m == 0 && BfsInv(problem, explored, before, popped))
    requires PopAt(m, before, node, rest) && !problem.goalTest(node.state)
    requires |rest| <= |items| && items[..|rest|] == rest
    requires DistinctStates(items) && Unexplored(items, explored + {node.state})
    requires forall i :: |rest| <= i < |items| ==>
      items[i] in Expand(problem, node) && !Seen(explored + {node.state}, rest, items[i].state)
    requires forall j :: 0 <= j < |Expand(problem, node)| ==> Seen(explored + {node.state}, items, Expand(problem, node)[j].state)
    ensures GraphInv(problem, explored + {node.state}, items, popped + [node])
    ensures bfs ==> BfsInv(problem, explored + {node.state}, items, popped + [node])
  {
    PopKeeps(problem, m, before, node, rest, explored);
    PoppedDistinct(popped, node, explored);
    GraphStep(problem, m, before, node, rest, explored, items);
    if bfs {
      BfsOptimal(problem, before, node, rest, explored, items);
      BfsStep(problem, before, node, rest, explored, items);
    }
  }

  /**
   * `graph_search`: pop a node, return it if it is a goal, otherwise
   * explore its state and push each child whose state is neither explored
   * nor on the frontier, checking each child against the frontier as it
   * grows.  Found nodes are goals search built; NotFound means no action
   * sequence leads to a goal; no state is popped twice; with a FIFO
   * frontier nodes are popped in non-decreasing depth and the node found is
   * a shallowest goal.
   */
  method GraphSearch<S(==,!new), A(==,!new)>(problem: Problem<S, A>, lifo: bool, fuel: nat)
      returns (r: Outcome<S, A>, ghost popped: seq<Node<S, A>>)
    ensures r.Found? ==> Generated(problem, r.node) && problem.goalTest(r.node.state)
    ensures r.Found? ==> |popped| > 0 && popped[|popped| - 1] == r.node
    ensures r.NotFound? ==> forall acts :: !Solves(problem, acts)
    ensures DistinctStates(popped)
    ensures !lifo ==> Ascending(popped)
    ensures !lifo && r.Found? ==> forall acts :: Solves(problem, acts) ==> r.node.depth <= |acts|
  {
    var frontier: Queue<S, A>;
    if lifo {
      frontier := new Queue.Lifo();
    } else {
      frontier := new Queue.Fifo();
    }
    frontier.Append(Root(problem));
    var explored: set<S> := {};
    popped := [];
    assert frontier.items[0].state == problem.initial;
    var fuelLeft := fuel;
    while frontier.items != []
      invariant frontier.lifo == lifo
      invariant GraphInv(problem, explored, frontier.items, popped)
      invariant !lifo ==> BfsInv(problem, explored, frontier.items, popped)
      decreases fuelLeft
    {
      if fuelLeft == 0 {
        return OutOfFuel, popped;
      }
      fuelLeft := fuelLeft - 1;
      ghost var before := frontier.items;
      var node := frontier.Pop();
      ghost var rest := frontier.items;
      ghost var m := Top(lifo, |before|);
      PopOfAt(lifo, before, node, rest);
      if problem.goalTest(node.state) {
        GraphFound(problem, !lifo, m, explored, before, popped, node, rest);
        popped := popped + [node];
        return Found(node), popped;
      }
      PopKeeps(problem, m, before, node, rest, explored);
      ghost var explored0 := explored;
      explored := explored + {node.state};
      var children := Expand(problem, node);
      ExtendUnseen(frontier, explored, children);
      GraphIteration(problem, !lifo, m, explored0, before, popped, node, rest, frontier.items);
      popped := popped + [node];
    }
    Exhausted(problem, explored);
    return NotFound, popped;
  }

  // ---------------------------------------------------------------------------
  // The wrappers

  /** `breadth_first_tree_search`: tree search on a FIFO queue finds a shallowest goal. */
  method BreadthFirstTreeSearch<S(==), A(==,!new)>(problem: Problem<S, A>, fuel: nat) returns (r: Outcome<S, A>)
    ensures r.Found? ==> Generated(problem, r.node) && problem.goalTest(r.node.state)
    ensures r.Found? ==> forall acts :: Solves(problem, acts) ==> r.node.depth <= |acts|
    ensures r.NotFound? ==> forall acts :: !Solves(problem, acts)
  {
    ghost var popped;
    r, popped := TreeSearch(problem, false, fuel);
  }

  /** `depth_first_tree_search`: tree search on a LIFO queue. */
  method DepthFirstTreeSearch<S(==), A(==,!new)>(problem: Problem<S, A>, fuel: nat) returns (r: Outcome<S, A>)
    ensures r.Found? ==> Generated(problem, r.node) && problem.goalTest(r.node.state)
    ensures r.NotFound? ==> forall acts :: !Solves(problem, acts)
  {
    ghost var popped;
    r, popped := TreeSearch(problem, true, fuel);
  }

  /** `depth_first_graph_search`: graph search on a LIFO queue. */
  method DepthFirstGraphSearch<S(==,!new), A(==,!new)>(problem: Problem<S, A>, fuel: nat) returns (r: Outcome<S, A>)
    ensures r.Found? ==> Generated(problem, r.node) && problem.goalTest(r.node.state)
    ensures r.NotFound? ==> forall acts :: !Solves(problem, acts)
  {
    ghost var popped;
    r, popped := GraphSearch(problem, true, fuel);
  }

  /** `breadth_first_graph_search`: graph search on a FIFO queue finds a shallowest goal. */
  method BreadthFirstGraphSearch<S(==,!new), A(==,!new)>(problem: Problem<S, A>, fuel: nat) returns (r: Outcome<S, A>)
    ensures r.Found? ==> Generated(problem, r.node) && problem.goalTest(r.node.state)
    ensures r.Found? ==> forall acts :: Solves(problem, acts) ==> r.node.depth <= |acts|
    ensures r.NotFound? ==> forall acts :: !Solves(problem, acts)
  {
    ghost var popped;
    r, popped := GraphSearch(problem, false, fuel);
  }
}
