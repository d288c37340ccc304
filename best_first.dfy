/**
 * The best-first searches of search.py over a PriorityQueue ordered by a
 * score `f` of nodes: `best_first_tree_search`, `best_first_graph_search`
 * (with its memoized `f`), `uniform_cost_search` and the A* and greedy
 * wrappers.  As in the uninformed searches, the loops run on a fuel bound.
 */
module BestFirstSearch {
  import opened Common
  import opened SearchNodes
  import opened Frontiers
  import opened UninformedSearch

  /** The score never drops from a node to any of its children: path cost with non-negative steps, or A* with a consistent heuristic. */
  ghost predicate NonDecreasing<S(!new), A(!new)>(problem: Problem<S, A>, f: Node<S, A> -> int)
  {
    forall n, a :: Generated(problem, n) && a in problem.actions(n.state) ==> f(n) <= f(ChildNode(problem, n, a))
  }

  /** Popped scores never decrease, and none on the frontier is below the last one popped. */
  ghost predicate Rising<S, A>(f: Node<S, A> -> int, popped: seq<Node<S, A>>, es: seq<Entry<S, A>>)
  {
    && (forall i, j :: 0 <= i < j < |popped| ==> f(popped[i]) <= f(popped[j]))
    && (popped != [] ==> forall i :: 0 <= i < |es| ==> f(popped[|popped| - 1]) <= es[i].0)
  }

  /**
   * Popping the least entry and pushing only children whose scores are at
   * least the popped node's keeps the scores rising.
   */
  lemma {:induction false} RisingStep<S, A>(f: Node<S, A> -> int, popped: seq<Node<S, A>>, before: seq<Entry<S, A>>, after: seq<Entry<S, A>>)
    requires Rising(f, popped, before) && |before| > 0
    requires f(before[MinIndex(before)].2) == before[MinIndex(before)].0
    requires forall i :: 0 <= i < |after| ==> before[MinIndex(before)].0 <= after[i].0
    ensures Rising(f, popped + [before[MinIndex(before)].2], after)
  {
    var m := MinIndex(before);
    var popped' := popped + [before[m].2];
    forall i, j | 0 <= i < j < |popped'| ensures f(popped'[i]) <= f(popped'[j]) {
      if j == |popped| {
        assert popped'[i] == popped[i];
        if i < |popped| - 1 {
          assert f(popped[i]) <= f(popped[|popped| - 1]);
        }
        assert f(popped[|popped| - 1]) <= before[m].0;
      }
    }
  }

  /** The pop of a priority queue, seen on its nodes, is a pop at the least entry's position. */
  lemma {:induction false} PopNodes<S, A>(before: seq<Entry<S, A>>, node: Node<S, A>, after: seq<Entry<S, A>>)
    requires |before| > 0 && node == before[MinIndex(before)].2 && after == RemoveAt(before, MinIndex(before))
    ensures PopAt(MinIndex(before), Nodes(before), node, Nodes(after))
  {
    NodesRemoveAt(before, MinIndex(before));
  }

  // ---------------------------------------------------------------------------
  // best_first_tree_search

  /** Some entry of `es` has the state of `n` and scores no higher. */
  predicate Represented<S(==), A>(f: Node<S, A> -> int, es: seq<Entry<S, A>>, n: Node<S, A>)
  {
    exists k :: 0 <= k < |es| && es[k].2.state == n.state && f(es[k].2) <= f(n)
  }

  /** Every entry of `es` is still represented in `es2`. */
  predicate Dominates<S(==), A>(f: Node<S, A> -> int, es: seq<Entry<S, A>>, es2: seq<Entry<S, A>>)
  {
    forall j :: 0 <= j < |es| ==> Represented(f, es2, es[j].2)
  }

  lemma {:induction false} DominatesTrans<S, A>(f: Node<S, A> -> int, es1: seq<Entry<S, A>>, es2: seq<Entry<S, A>>, es3: seq<Entry<S, A>>)
    requires Dominates(f, es1, es2) && Dominates(f, es2, es3)
    ensures Dominates(f, es1, es3)
  {
    forall j | 0 <= j < |es1| ensures Represented(f, es3, es1[j].2) {
      assert Represented(f, es2, es1[j].2);
      var k2 :| 0 <= k2 < |es2| && es2[k2].2.state == es1[j].2.state && f(es2[k2].2) <= f(es1[j].2);
      assert Represented(f, es3, es2[k2].2);
    }
  }

  /** Offering more children never loses what an earlier one left represented. */
  lemma {:induction false} RepresentedKept<S, A>(f: Node<S, A> -> int, es: seq<Entry<S, A>>, es2: seq<Entry<S, A>>, n: Node<S, A>)
    requires Represented(f, es, n) && Dominates(f, es, es2)
    ensures Represented(f, es2, n)
  {
    var k :| 0 <= k < |es| && es[k].2.state == n.state && f(es[k].2) <= f(n);
    assert Represented(f, es2, es[k].2);
  }

  lemma {:induction false} DominatesAppend<S, A>(f: Node<S, A> -> int, es: seq<Entry<S, A>>, e: Entry<S, A>)
    ensures Dominates(f, es, es + [e]) && Represented(f, es + [e], e.2)
  {
    var es2 := es + [e];
    forall j | 0 <= j < |es| ensures Represented(f, es2, es[j].2) {
      assert es2[j] == es[j];
    }
    assert es2[|es|] == e;
  }

  /** Replacing an entry by one with the same state and no higher score keeps every entry represented. */
  lemma {:induction false} DominatesReplace<S, A>(f: Node<S, A> -> int, es: seq<Entry<S, A>>, i: nat, e: Entry<S, A>)
    requires i < |es| && e.2.state == es[i].2.state && f(e.2) <= f(es[i].2)
    ensures Dominates(f, es, RemoveAt(es, i) + [e]) && Represented(f, RemoveAt(es, i) + [e], e.2)
  {
    var es2 := RemoveAt(es, i) + [e];
    forall j | 0 <= j < |es| ensures Represented(f, es2, es[j].2) {
      if j == i {
        assert es2[|es| - 1] == e;
      } else {
        assert es2[if j < i then j else j - 1] == es[j];
      }
    }
    assert es2[|es| - 1] == e;
  }

  /**
   * One child offered to the frontier of `best_first_tree_search`, as new
   * entries and counter: pushed when no entry has its state; otherwise
   * the incumbent, the first entry with its state, is replaced by the
   * child when the child scores lower, and kept when it does not.
   */
  function Offer<S(==), A>(f: Node<S, A> -> int, es: seq<Entry<S, A>>, counter: nat, child: Node<S, A>): (r: (seq<Entry<S, A>>, nat))
    ensures Dominates(f, es, r.0) && Represented(f, r.0, child)
    ensures forall j :: 0 <= j < |r.0| ==> r.0[j] in es || r.0[j] == (f(child), counter, child)
    ensures counter <= r.1
  {
    var e := (f(child), counter, child);
    match FirstMatch(es, child)
    case None =>
      DominatesAppend(f, es, e);
      (es + [e], counter + 1)
    case Some(i) =>
      if f(child) < f(es[i].2) then
        DominatesReplace(f, es, i, e);
        (RemoveAt(es, i) + [e], counter + 1)
      else
        assert Represented(f, es, child) by {
          assert es[i].2.state == child.state;
        }
        assert Dominates(f, es, es) by {
          forall j | 0 <= j < |es| ensures Represented(f, es, es[j].2) {
            assert es[j].2.state == es[j].2.state;
          }
        }
        (es, counter)
  }

  /** The children offered one after another, as the loop over `node.expand(problem)` does. */
  function OfferAll<S(==), A>(f: Node<S, A> -> int, es: seq<Entry<S, A>>, counter: nat, children: seq<Node<S, A>>)
      : (r: (seq<Entry<S, A>>, nat))
    ensures Dominates(f, es, r.0)
    ensures forall c :: c in children ==> Represented(f, r.0, c)
    ensures forall j :: 0 <= j < |r.0| ==> r.0[j] in es || (r.0[j].2 in children && r.0[j].0 == f(r.0[j].2))
    decreases |children|
  {
    if children == [] then
      assert Dominates(f, es, es) by {
        forall j | 0 <= j < |es| ensures Represented(f, es, es[j].2) {
          assert es[j].2.state == es[j].2.state;
        }
      }
      (es, counter)
    else
      var last := children[|children| - 1];
      var prev := OfferAll(f, es, counter, children[..|children| - 1]);
      var r := Offer(f, prev.0, prev.1, last);
      DominatesTrans(f, es, prev.0, r.0);
      assert forall c :: c in children ==> c in children[..|children| - 1] || c == last;
      assert forall c :: c in children[..|children| - 1] ==> Represented(f, r.0, c) by {
        forall c | c in children[..|children| - 1] ensures Represented(f, r.0, c) {
          RepresentedKept(f, prev.0, r.0, c);
        }
      }
      assert forall j :: 0 <= j < |r.0| ==> r.0[j] in es || (r.0[j].2 in children && r.0[j].0 == f(r.0[j].2)) by {
        forall j | 0 <= j < |r.0| ensures r.0[j] in es || (r.0[j].2 in children && r.0[j].0 == f(r.0[j].2)) {
          if r.0[j] !in prev.0 {
            assert r.0[j] == (f(last), prev.1, last);
          } else if r.0[j] !in es {
            var k :| 0 <= k < |prev.0| && prev.0[k] == r.0[j];
            assert r.0[j].2 in children[..|children| - 1];
          }
        }
      }
      r
  }

  /** `frontier[key]` and `del frontier[key]` see only the state of `key`. */
  lemma {:induction false} FirstMatchSameState<S, A>(es: seq<Entry<S, A>>, a: Node<S, A>, b: Node<S, A>)
    requires a.state == b.state
    ensures FirstMatch(es, a) == FirstMatch(es, b)
    decreases |es|
  {
    if es != [] && es[0].2.state != a.state {
      FirstMatchSameState(es[1..], a, b);
    }
  }

  /**
   * The body of the loop over the children in `best_first_tree_search`: a
   * child whose state is not on the frontier is pushed; otherwise
   * `frontier[child]` is the incumbent, and a child that scores lower
   * replaces it.
   */
  method OfferChild<S(==), A>(frontier: PriorityQueue<S, A>, child: Node<S, A>)
    requires frontier.Valid()
    modifies frontier
    ensures frontier.Valid()
    ensures (frontier.entries, frontier.counter) == Offer(frontier.f, old(frontier.entries), old(frontier.counter), child)
  {
    ghost var es := frontier.entries;
    var inFrontier := frontier.Contains(child);
    if !inFrontier {
      assert FirstMatch(es, child).None?;
      frontier.Append(child);
    } else {
      var incumbent := frontier.Lookup(child);
      assert incumbent.Some? by {
        var i :| 0 <= i < |Nodes(es)| && Nodes(es)[i].state == child.state;
        assert es[i].2.state == child.state;
      }
      ghost var i := FirstMatch(es, child).value;
      assert incumbent.value == es[i].2;
      FirstMatchSameState(es, incumbent.value, child);
      if frontier.f(child) < frontier.f(incumbent.value) {
        frontier.Delete(incumbent.value);
        assert frontier.entries == RemoveAt(es, i);
        frontier.Append(child);
      }
    }
  }

  /** The loop over the children in `best_first_tree_search`. */
  method OfferChildren<S(==), A>(frontier: PriorityQueue<S, A>, children: seq<Node<S, A>>)
    requires frontier.Valid()
    modifies frontier
    ensures frontier.Valid()
    ensures (frontier.entries, frontier.counter) == OfferAll(frontier.f, old(frontier.entries), old(frontier.counter), children)
  {
    for k := 0 to |children|
      invariant frontier.Valid()
      invariant (frontier.entries, frontier.counter) == OfferAll(frontier.f, old(frontier.entries), old(frontier.counter), children[..k])
    {
      assert children[..k + 1][..k] == children[..k];
      OfferChild(frontier, children[k]);
    }
    assert children[..|children|] == children;
  }

  /** Some prefix of `acts` reaches a state on the frontier. */
  ghost predicate Reached<S, A>(problem: Problem<S, A>, items: seq<Node<S, A>>, acts: seq<A>)
  {
    exists k :: 0 <= k <= |acts| && HasState(items, Walk(problem, problem.initial, acts[..k]))
  }

  /** The invariant of `best_first_tree_search`: every frontier node is one search builds, and every goal-reaching sequence is reached. */
  ghost predicate TreeInv<S, A(!new)>(problem: Problem<S, A>, items: seq<Node<S, A>>)
  {
    AllGenerated(problem, items) && forall acts :: Solves(problem, acts) ==> Reached(problem, items, acts)
  }

  /** A node whose state a prefix of `acts` reaches, represented on the frontier, keeps `acts` reached. */
  lemma RepresentedReached<S, A>(problem: Problem<S, A>, f: Node<S, A> -> int, es: seq<Entry<S, A>>, n: Node<S, A>,
      acts: seq<A>, k: nat)
    requires Represented(f, es, n) && k <= |acts| && n.state == Walk(problem, problem.initial, acts[..k])
    ensures Reached(problem, Nodes(es), acts)
  {
    var l :| 0 <= l < |es| && es[l].2.state == n.state && f(es[l].2) <= f(n);
    assert Nodes(es)[l].state == Walk(problem, problem.initial, acts[..k]);
  }

  /** Offering the children of a popped non-goal node keeps every goal-reaching sequence reached. */
  lemma {:induction false} TreeReach<S, A>(problem: Problem<S, A>, f: Node<S, A> -> int, before: seq<Entry<S, A>>,
      node: Node<S, A>, rest: seq<Entry<S, A>>, counter: nat, acts: seq<A>)
    requires |before| > 0 && node == before[MinIndex(before)].2 && rest == RemoveAt(before, MinIndex(before))
    requires !problem.goalTest(node.state)
    requires Solves(problem, acts) && Reached(problem, Nodes(before), acts)
    ensures Reached(problem, Nodes(OfferAll(f, rest, counter, Expand(problem, node)).0), acts)
  {
    var m := MinIndex(before);
    var children := Expand(problem, node);
    var after := OfferAll(f, rest, counter, children).0;
    var k :| 0 <= k <= |acts| && HasState(Nodes(before), Walk(problem, problem.initial, acts[..k]));
    var i :| 0 <= i < |before| && Nodes(before)[i].state == Walk(problem, problem.initial, acts[..k]);
    if i != m {
      var j := if i < m then i else i - 1;
      assert rest[j] == before[i];
      assert Represented(f, after, rest[j].2);
      RepresentedReached(problem, f, after, rest[j].2, acts, k);
    } else {
      // the popped node is not a goal, so `acts` goes on past it
      assert node == Nodes(before)[m];
      ChildOnTheWay(problem, node, acts, k);
      var j :| 0 <= j < |children| && children[j].state == Walk(problem, problem.initial, acts[..k + 1]);
      assert children[j] in children;
      RepresentedReached(problem, f, after, children[j], acts, k + 1);
    }
  }

  /** One iteration of `best_first_tree_search` keeps its invariant. */
  lemma {:induction false} TreeIteration<S, A(!new)>(problem: Problem<S, A>, f: Node<S, A> -> int, before: seq<Entry<S, A>>,
      node: Node<S, A>, rest: seq<Entry<S, A>>, counter: nat)
    requires |before| > 0 && node == before[MinIndex(before)].2 && rest == RemoveAt(before, MinIndex(before))
    requires !problem.goalTest(node.state) && TreeInv(problem, Nodes(before))
    ensures TreeInv(problem, Nodes(OfferAll(f, rest, counter, Expand(problem, node)).0))
  {
    var m := MinIndex(before);
    var children := Expand(problem, node);
    var after := OfferAll(f, rest, counter, children).0;
    assert Generated(problem, node) by {
      assert Nodes(before)[m] == node;
    }
    ExpandGenerated(problem, node);
    forall i | 0 <= i < |after| ensures Generated(problem, Nodes(after)[i]) {
      if after[i] in rest {
        var j :| 0 <= j < |rest| && rest[j] == after[i];
        assert rest[j] == before[if j < m then j else j + 1];
        assert Nodes(before)[if j < m then j else j + 1] == after[i].2;
      }
    }
    forall acts | Solves(problem, acts) ensures Reached(problem, Nodes(after), acts) {
      TreeReach(problem, f, before, node, rest, counter, acts);
    }
  }

  /**
   * `best_first_tree_search`: pop the entry of least score, return its node
   * if it is a goal, otherwise offer its children.  Found nodes are goals
   * search built; NotFound means no action sequence leads to a goal; and
   * when scores never drop from a node to its children nodes are popped
   * in non-decreasing score.
   */
  method BestFirstTreeSearch<S(==,!new), A(==,!new)>(problem: Problem<S, A>, f: Node<S, A> -> int, fuel: nat)
      returns (r: Outcome<S, A>, ghost popped: seq<Node<S, A>>)
    ensures r.Found? ==> Generated(problem, r.node) && problem.goalTest(r.node.state)
    ensures r.Found? && problem.goalTest(problem.initial) ==> r.node == Root(problem)
    ensures r.NotFound? ==> forall acts :: !Solves(problem, acts)
    ensures NonDecreasing(problem, f) ==> forall i, j :: 0 <= i < j < |popped| ==> f(popped[i]) <= f(popped[j])
  {
    var node := Root(problem);
    popped := [];
    if problem.goalTest(node.state) {
      return Found(node), popped;
    }
    var frontier := new PriorityQueue(f);
    frontier.Append(node);
    assert Nodes(frontier.entries)[0] == node;
    assert forall acts :: Solves(problem, acts) ==> Reached(problem, Nodes(frontier.entries), acts) by {
      forall acts | Solves(problem, acts) ensures Reached(problem, Nodes(frontier.entries), acts) {
        assert acts[..0] == [];
      }
    }
    var fuelLeft := fuel;
    while frontier.entries != []
      invariant frontier.Valid() && frontier.f == f
      invariant TreeInv(problem, Nodes(frontier.entries))
      invariant NonDecreasing(problem, f) ==> Rising(f, popped, frontier.entries)
      decreases fuelLeft
    {
      if fuelLeft == 0 {
        return OutOfFuel, popped;
      }
      fuelLeft := fuelLeft - 1;
      ghost var before := frontier.entries;
      ghost var counter := frontier.counter;
      node := frontier.Pop();
      ghost var rest := frontier.entries;
      if problem.goalTest(node.state) {
        assert Nodes(before)[MinIndex(before)] == node;
        if NonDecreasing(problem, f) {
          RisingStep(f, popped, before, rest);
        }
        popped := popped + [node];
        return Found(node), popped;
      }
      var children := Expand(problem, node);
      OfferChildren(frontier, children);
      TreeIteration(problem, f, before, node, rest, counter);
      if NonDecreasing(problem, f) {
        assert Generated(problem, node) by {
          assert Nodes(before)[MinIndex(before)] == node;
        }
        BestFirstRising(problem, f, popped, before, node, rest, frontier.entries);
      }
      popped := popped + [node];
    }
    return NotFound, popped;
  }

  // ---------------------------------------------------------------------------
  // best_first_graph_search

  /**
   * The memo of `f`: it is keyed on nodes, and nodes compare by state, so
   * it holds one score per state, for every state explored or on the
   * frontier, and a frontier entry's score is the one cached for its state.
   */
  ghost predicate Memo<S(!new), A>(cache: map<S, int>, explored: set<S>, es: seq<Entry<S, A>>)
  {
    && (forall s :: s in cache <==> Seen(explored, Nodes(es), s))
    && (forall i :: 0 <= i < |es| ==> es[i].2.state in cache && cache[es[i].2.state] == es[i].0)
  }

  /** The invariant of the loop over the children in `best_first_graph_search`, after `k` children. */
  ghost predicate PushInv<S(!new), A>(explored: set<S>, cache: map<S, int>, start: seq<Entry<S, A>>, es: seq<Entry<S, A>>,
      children: seq<Node<S, A>>, k: nat)
  {
    && k <= |children|
    && Memo(cache, explored, es)
    && Nodes(es) == Nodes(start) + Admitted(explored, Nodes(start), children[..k])
    && |start| <= |es| && es[..|start|] == start
    && DistinctStates(Nodes(es)) && Unexplored(Nodes(es), explored)
    && (forall i :: |start| <= i < |es| ==> es[i].2 in children && !Seen(explored, Nodes(start), es[i].2.state))
    && (forall j :: 0 <= j < k ==> Seen(explored, Nodes(es), children[j].state))
  }

  /** Pushing child `k`, unseen, with its score cached, keeps the invariant. */
  lemma {:induction false} AdmitStep<S(!new), A>(explored: set<S>, cache: map<S, int>, start: seq<Entry<S, A>>, es: seq<Entry<S, A>>,
      children: seq<Node<S, A>>, k: nat, e: Entry<S, A>)
    requires PushInv(explored, cache, start, es, children, k) && k < |children|
    requires e.2 == children[k] && children[k].state !in explored && !HasState(Nodes(es), children[k].state)
    ensures PushInv(explored, cache[children[k].state := e.0], start, es + [e], children, k + 1)
  {
    var child := children[k];
    var es' := es + [e];
    var cache' := cache[child.state := e.0];
    NodesAppend(es, e);
    assert children[..k + 1][..k] == children[..k];
    AppendKeeps(Nodes(es), child, explored);
    SeenAppend(explored, Nodes(es), child);
    SeenAppendBack(explored, Nodes(start), Nodes(es));
    assert es'[..|start|] == es[..|start|];
    forall s ensures s in cache' <==> Seen(explored, Nodes(es'), s) {
      if HasState(Nodes(es'), s) && s != child.state {
        var i :| 0 <= i < |es'| && Nodes(es')[i].state == s;
        assert Nodes(es)[i].state == s;
      }
    }
  }

  /** Passing over child `k`, already seen, keeps the invariant. */
  lemma {:induction false} SkipStep<S(!new), A>(explored: set<S>, cache: map<S, int>, start: seq<Entry<S, A>>, es: seq<Entry<S, A>>,
      children: seq<Node<S, A>>, k: nat)
    requires PushInv(explored, cache, start, es, children, k) && k < |children|
    requires Seen(explored, Nodes(es), children[k].state)
    ensures PushInv(explored, cache, start, es, children, k + 1)
  {
    assert children[..k + 1][..k] == children[..k];
  }

  /**
   * The loop over the children in `best_first_graph_search`: a child whose
   * state is neither explored nor on the frontier is pushed, and its score
   * cached; a child whose state is on the frontier is compared with the
   * incumbent through the memo, which returns the incumbent's own score for
   * it, so the incumbent is never replaced.
   */
  method PushUnseen<S(==,!new), A>(frontier: PriorityQueue<S, A>, explored: set<S>, cache: map<S, int>, children: seq<Node<S, A>>)
      returns (cache': map<S, int>)
    requires frontier.Valid() && Memo(cache, explored, frontier.entries)
    requires DistinctStates(Nodes(frontier.entries)) && Unexplored(Nodes(frontier.entries), explored)
    modifies frontier
    ensures frontier.Valid() && PushInv(explored, cache', old(frontier.entries), frontier.entries, children, |children|)
  {
    ghost var start := frontier.entries;
    cache' := cache;
    for k := 0 to |children|
      invariant frontier.Valid() && PushInv(explored, cache', start, frontier.entries, children, k)
    {
      var child := children[k];
      var admit := child.state !in explored;
      if admit {
        var inFrontier := frontier.Contains(child);
        admit := !inFrontier;
      }
      ghost var was := frontier.entries;
      if admit {
        ghost var cacheWas := cache';
        cache' := cache'[child.state := frontier.f(child)];
        frontier.Append(child);
        AdmitStep(explored, cacheWas, start, was, children, k, frontier.entries[|was|]);
      } else {
        var inFrontier := frontier.Contains(child);
        if inFrontier {
          var incumbent := frontier.Lookup(child);
          if incumbent.Some? {
            var childScore := cache'[child.state];
            var incumbentScore := cache'[incumbent.value.state];
            if childScore < incumbentScore {
              // the same state, so the same cached score: `del frontier[incumbent]` never runs
              assert false;
            }
          }
        }
        SkipStep(explored, cache', start, was, children, k);
      }
    }
    assert children[..|children|] == children;
  }

  /** Popping moves the popped state from the frontier to the explored set, so the memo still covers exactly what is seen. */
  lemma {:induction false} MemoPop<S(!new), A>(cache: map<S, int>, explored: set<S>, before: seq<Entry<S, A>>, node: Node<S, A>, rest: seq<Entry<S, A>>)
    requires Memo(cache, explored, before) && |before| > 0
    requires node == before[MinIndex(before)].2 && rest == RemoveAt(before, MinIndex(before))
    ensures Memo(cache, explored + {node.state}, rest)
  {
    var m := MinIndex(before);
    var explored' := explored + {node.state};
    PopNodes(before, node, rest);
    PopSeen(m, Nodes(before), node, Nodes(rest), explored', Nodes(rest));
    forall i | 0 <= i < |rest| ensures rest[i].2.state in cache && cache[rest[i].2.state] == rest[i].0 {
      assert rest[i] == before[if i < m then i else i + 1];
    }
    forall s ensures s in cache <==> Seen(explored', Nodes(rest), s) {
      if s in cache {
        assert Seen(explored, Nodes(before), s);
      }
      if s != node.state && s !in explored && HasState(Nodes(rest), s) {
        var i :| 0 <= i < |rest| && Nodes(rest)[i].state == s;
        assert rest[i].2.state in cache;
      }
    }
  }

  /**
   * The invariant of the loop of `best_first_graph_search`: that of graph
   * search, the memo covering what is seen, each entry scored by `f`, and,
   * when scores never drop from a node to its children, rising pops.
   */
  ghost predicate BestFirstInv<S(!new), A(!new)>(problem: Problem<S, A>, f: Node<S, A> -> int, explored: set<S>,
      cache: map<S, int>, popped: seq<Node<S, A>>, es: seq<Entry<S, A>>)
  {
    && GraphInv(problem, explored, Nodes(es), popped)
    && Memo(cache, explored, es)
    && (forall i :: 0 <= i < |es| ==> es[i].0 == f(es[i].2))
    && (NonDecreasing(problem, f) ==> Rising(f, popped, es))
  }

  /** What the loop's invariant promises about the nodes popped so far. */
  lemma InvPopped<S(!new), A(!new)>(problem: Problem<S, A>, f: Node<S, A> -> int, explored: set<S>,
      cache: map<S, int>, popped: seq<Node<S, A>>, es: seq<Entry<S, A>>)
    requires BestFirstInv(problem, f, explored, cache, popped, es)
    ensures DistinctStates(popped)
    ensures NonDecreasing(problem, f) ==> forall i, j :: 0 <= i < j < |popped| ==> f(popped[i]) <= f(popped[j])
  {
  }

  /** The frontier holding only the root, nothing explored, is where the loop starts. */
  lemma BestFirstStart<S(!new), A(!new)>(problem: Problem<S, A>, f: Node<S, A> -> int, es: seq<Entry<S, A>>)
    requires |es| == 1 && es[0].2 == Root(problem) && es[0].0 == f(Root(problem))
    ensures BestFirstInv(problem, f, {}, map[problem.initial := f(Root(problem))], [], es)
  {
    assert Nodes(es)[0] == Root(problem);
  }

  /** A goal popped from the frontier is a node search built, and the pops stay distinct and rising. */
  lemma {:induction false} BestFirstFound<S(!new), A(!new)>(problem: Problem<S, A>, f: Node<S, A> -> int, explored: set<S>,
      cache: map<S, int>, popped: seq<Node<S, A>>, before: seq<Entry<S, A>>, node: Node<S, A>, rest: seq<Entry<S, A>>)
    requires BestFirstInv(problem, f, explored, cache, popped, before) && |before| > 0
    requires node == before[MinIndex(before)].2 && rest == RemoveAt(before, MinIndex(before))
    ensures Generated(problem, node) && DistinctStates(popped + [node])
    ensures NonDecreasing(problem, f) ==>
      forall i, j :: 0 <= i < j < |popped + [node]| ==> f((popped + [node])[i]) <= f((popped + [node])[j])
  {
    PopNodes(before, node, rest);
    GraphFound(problem, false, MinIndex(before), explored, Nodes(before), popped, node, Nodes(rest));
    if NonDecreasing(problem, f) {
      RisingStep(f, popped, before, rest);
    }
  }

  /** An empty frontier means the explored set is closed, so no action sequence reaches a goal. */
  lemma BestFirstExhausted<S(!new), A(!new)>(problem: Problem<S, A>, f: Node<S, A> -> int, explored: set<S>,
      cache: map<S, int>, popped: seq<Node<S, A>>)
    requires BestFirstInv<S, A>(problem, f, explored, cache, popped, [])
    ensures forall acts :: !Solves(problem, acts)
  {
    Exhausted(problem, explored);
  }

  /**
   * The rest of an iteration of `best_first_graph_search` once the popped
   * node is not a goal: its state joins the explored set, and its unseen
   * children are pushed with their scores cached.
   */
  method ExploreNode<S(==,!new), A(==,!new)>(problem: Problem<S, A>, frontier: PriorityQueue<S, A>, explored: set<S>,
      cache: map<S, int>, ghost popped: seq<Node<S, A>>, ghost before: seq<Entry<S, A>>, node: Node<S, A>)
      returns (explored': set<S>, cache': map<S, int>)
    requires frontier.Valid() && |before| > 0
    requires node == before[MinIndex(before)].2 && frontier.entries == RemoveAt(before, MinIndex(before))
    requires !problem.goalTest(node.state)
    requires BestFirstInv(problem, frontier.f, explored, cache, popped, before)
    modifies frontier
    ensures frontier.Valid()
    ensures explored' == explored + {node.state}
    ensures BestFirstInv(problem, frontier.f, explored', cache', popped + [node], frontier.entries)
  {
    ghost var m := MinIndex(before);
    ghost var rest := frontier.entries;
    PopNodes(before, node, rest);
    PopKeeps(problem, m, Nodes(before), node, Nodes(rest), explored);
    explored' := explored + {node.state};
    MemoPop(cache, explored, before, node, rest);
    var children := Expand(problem, node);
    cache' := PushUnseen(frontier, explored', cache, children);
    GraphIteration(problem, false, m, explored, Nodes(before), popped, node, Nodes(rest), Nodes(frontier.entries));
    if NonDecreasing(problem, frontier.f) {
      PushRising(problem, frontier.f, popped, before, node, rest, explored', cache', frontier.entries);
    }
  }

  /**
   * `best_first_graph_search`: graph search that pops the entry of least
   * score, its score memoized per state.  Found nodes are goals search
   * built; NotFound means no action sequence leads to a goal; no state is
   * popped twice; and when scores never drop from a node to its children
   * (uniform cost with non-negative steps, A* with a consistent heuristic)
   * nodes are popped in non-decreasing score.
   */
  method BestFirstGraphSearch<S(==,!new), A(==,!new)>(problem: Problem<S, A>, f: Node<S, A> -> int, fuel: nat)
      returns (r: Outcome<S, A>, ghost popped: seq<Node<S, A>>)
    ensures r.Found? ==> Generated(problem, r.node) && problem.goalTest(r.node.state)
    ensures r.NotFound? ==> forall acts :: !Solves(problem, acts)
    ensures DistinctStates(popped)
    ensures NonDecreasing(problem, f) ==> forall i, j :: 0 <= i < j < |popped| ==> f(popped[i]) <= f(popped[j])
  {
    var node := Root(problem);
    popped := [];
    if problem.goalTest(node.state) {
      return Found(node), popped;
    }
    var frontier := new PriorityQueue(f);
    var cache: map<S, int> := map[node.state := f(node)];
    frontier.Append(node);
    var explored: set<S> := {};
    BestFirstStart(problem, f, frontier.entries);
    var fuelLeft := fuel;
    while frontier.entries != []
      invariant frontier.Valid() && frontier.f == f
      invariant BestFirstInv(problem, f, explored, cache, popped, frontier.entries)
      decreases fuelLeft
    {
      if fuelLeft == 0 {
        InvPopped(problem, f, explored, cache, popped, frontier.entries);
        return OutOfFuel, popped;
      }
      fuelLeft := fuelLeft - 1;
      ghost var before := frontier.entries;
      node := frontier.Pop();
      if problem.goalTest(node.state) {
        BestFirstFound(problem, f, explored, cache, popped, before, node, frontier.entries);
        popped := popped + [node];
        return Found(node), popped;
      }
      explored, cache := ExploreNode(problem, frontier, explored, cache, popped, before, node);
      popped := popped + [node];
    }
    BestFirstExhausted(problem, f, explored, cache, popped);
    InvPopped(problem, f, explored, cache, popped, []);
    return NotFound, popped;
  }


  /** The same for the frontier PushUnseen leaves: the rest of the old entries, then unseen children. */
  lemma {:induction false} PushRising<S(!new), A(!new)>(problem: Problem<S, A>, f: Node<S, A> -> int, popped: seq<Node<S, A>>,
      before: seq<Entry<S, A>>, node: Node<S, A>, rest: seq<Entry<S, A>>, explored: set<S>, cache: map<S, int>, after: seq<Entry<S, A>>)
    requires NonDecreasing(problem, f) && Rising(f, popped, before) && |before| > 0
    requires forall i :: 0 <= i < |before| ==> before[i].0 == f(before[i].2)
    requires forall i :: 0 <= i < |after| ==> after[i].0 == f(after[i].2)
    requires node == before[MinIndex(before)].2 && rest == RemoveAt(before, MinIndex(before)) && Generated(problem, node)
    requires PushInv(explored, cache, rest, after, Expand(problem, node), |Expand(problem, node)|)
    ensures Rising(f, popped + [node], after)
  {
    forall i | 0 <= i < |after| ensures after[i] in rest || (after[i].2 in Expand(problem, node) && after[i].0 == f(after[i].2)) {
      if i < |rest| {
        assert after[i] == rest[i];
      }
    }
    BestFirstRising(problem, f, popped, before, node, rest, after);
  }

  /** With non-decreasing scores, an iteration that pushes children of the popped node keeps the scores rising. */
  lemma {:induction false} BestFirstRising<S(!new), A(!new)>(problem: Problem<S, A>, f: Node<S, A> -> int, popped: seq<Node<S, A>>,
      before: seq<Entry<S, A>>, node: Node<S, A>, rest: seq<Entry<S, A>>, after: seq<Entry<S, A>>)
    requires NonDecreasing(problem, f) && Rising(f, popped, before) && |before| > 0
    requires forall i :: 0 <= i < |before| ==> before[i].0 == f(before[i].2)
    requires node == before[MinIndex(before)].2 && rest == RemoveAt(before, MinIndex(before)) && Generated(problem, node)
    requires forall i :: 0 <= i < |after| ==> after[i] in rest || (after[i].2 in Expand(problem, node) && after[i].0 == f(after[i].2))
    ensures Rising(f, popped + [node], after)
  {
    var m := MinIndex(before);
    forall i | 0 <= i < |after| ensures before[m].0 <= after[i].0 {
      if after[i] in rest {
        var j :| 0 <= j < |rest| && rest[j] == after[i];
        assert rest[j] == before[if j < m then j else j + 1];
      } else {
        var c := after[i].2;
        var j :| 0 <= j < |Expand(problem, node)| && Expand(problem, node)[j] == c;
        assert problem.actions(node.state)[j] in problem.actions(node.state);
      }
    }
    RisingStep(f, popped, before, after);
  }

  // ---------------------------------------------------------------------------
  // uniform_cost_search, greedy_best_first_graph_search, astar_graph_search, astar_tree_search

  /** The score of uniform-cost search: the path cost. */
  function CostScore<S, A>(n: Node<S, A>): (score: int)
  {
    n.pathCost
  }

  /** The score of A*: the path cost plus the heuristic. */
  function AStarScore<S, A>(h: Node<S, A> -> int): Node<S, A> -> int
  {
    (n: Node<S, A>) => n.pathCost + h(n)
  }

  /** No legal step lowers the path cost. */
  ghost predicate NonNegativeSteps<S(!new), A(!new)>(problem: Problem<S, A>)
  {
    forall c, s, a :: a in problem.actions(s) ==> c <= problem.pathCost(c, s, a, problem.result(s, a))
  }

  /** A consistent heuristic: it drops by no more than the cost of a step. */
  ghost predicate Consistent<S(!new), A(!new)>(problem: Problem<S, A>, h: Node<S, A> -> int)
  {
    forall n, a :: Generated(problem, n) && a in problem.actions(n.state) ==>
      h(n) <= (ChildNode(problem, n, a).pathCost - n.pathCost) + h(ChildNode(problem, n, a))
  }

  lemma {:induction false} CostNonDecreasing<S(!new), A(!new)>(problem: Problem<S, A>)
    requires NonNegativeSteps(problem)
    ensures NonDecreasing(problem, CostScore)
  {
    forall n, a | Generated(problem, n) && a in problem.actions(n.state)
      ensures CostScore(n) <= CostScore(ChildNode(problem, n, a))
    {
      assert ChildNode(problem, n, a).pathCost == problem.pathCost(n.pathCost, n.state, a, problem.result(n.state, a));
    }
  }

  lemma {:induction false} AStarNonDecreasing<S(!new), A(!new)>(problem: Problem<S, A>, h: Node<S, A> -> int)
    requires Consistent(problem, h)
    ensures NonDecreasing(problem, AStarScore(h))
  {
    forall n, a | Generated(problem, n) && a in problem.actions(n.state)
      ensures AStarScore(h)(n) <= AStarScore(h)(ChildNode(problem, n, a))
    {
      assert h(n) <= (ChildNode(problem, n, a).pathCost - n.pathCost) + h(ChildNode(problem, n, a));
    }
  }

  /**
   * `uniform_cost_search`: best-first graph search on the path cost.  With
   * no step lowering the cost, nodes are popped in non-decreasing cost.
   */
  method UniformCostSearch<S(==,!new), A(==,!new)>(problem: Problem<S, A>, fuel: nat)
      returns (r: Outcome<S, A>, ghost popped: seq<Node<S, A>>)
    ensures r.Found? ==> Generated(problem, r.node) && problem.goalTest(r.node.state)
    ensures r.NotFound? ==> forall acts :: !Solves(problem, acts)
    ensures DistinctStates(popped)
    ensures NonNegativeSteps(problem) ==> forall i, j :: 0 <= i < j < |popped| ==> popped[i].pathCost <= popped[j].pathCost
  {
    r, popped := BestFirstGraphSearch(problem, CostScore, fuel);
    if NonNegativeSteps(problem) {
      CostNonDecreasing(problem);
    }
  }

  /**
   * `astar_graph_search`: best-first graph search on path cost plus
   * heuristic.  With a consistent heuristic, nodes are popped in
   * non-decreasing score.
   */
  method AStarGraphSearch<S(==,!new), A(==,!new)>(problem: Problem<S, A>, h: Node<S, A> -> int, fuel: nat)
      returns (r: Outcome<S, A>, ghost popped: seq<Node<S, A>>)
    ensures r.Found? ==> Generated(problem, r.node) && problem.goalTest(r.node.state)
    ensures r.NotFound? ==> forall acts :: !Solves(problem, acts)
    ensures DistinctStates(popped)
    ensures Consistent(problem, h) ==> forall i, j :: 0 <= i < j < |popped| ==>
      popped[i].pathCost + h(popped[i]) <= popped[j].pathCost + h(popped[j])
  {
    r, popped := BestFirstGraphSearch(problem, AStarScore(h), fuel);
    if Consistent(problem, h) {
      AStarNonDecreasing(problem, h);
    }
  }

  /**
   * `astar_tree_search`: best-first tree search on path cost plus
   * heuristic.  With a consistent heuristic, nodes are popped in
   * non-decreasing score.
   */
  method AStarTreeSearch<S(==,!new), A(==,!new)>(problem: Problem<S, A>, h: Node<S, A> -> int, fuel: nat)
      returns (r: Outcome<S, A>, ghost popped: seq<Node<S, A>>)
    ensures r.Found? ==> Generated(problem, r.node) && problem.goalTest(r.node.state)
    ensures r.NotFound? ==> forall acts :: !Solves(problem, acts)
    ensures Consistent(problem, h) ==> forall i, j :: 0 <= i < j < |popped| ==>
      popped[i].pathCost + h(popped[i]) <= popped[j].pathCost + h(popped[j])
  {
    r, popped := BestFirstTreeSearch(problem, AStarScore(h), fuel);
    if Consistent(problem, h) {
      AStarNonDecreasing(problem, h);
    }
  }
}
