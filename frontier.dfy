/**
 * The frontiers of search.py: LIFOQueue (a Python list), FIFOQueue (a deque
 * whose `pop` is `popleft`) and PriorityQueue (a heap of (f, count, node)
 * entries).  Membership is Python's `in`, which for nodes compares states.
 */
module Frontiers {
  import opened Common
  import opened SearchNodes

  /** Some item of `items` is a node with state `s`. */
  predicate HasState<S(==), A>(items: seq<Node<S, A>>, s: S)
  {
    exists i :: 0 <= i < |items| && items[i].state == s
  }

  /** LIFOQueue and FIFOQueue: a list of nodes that `pop` takes from the back, or from the front. */
  class Queue<S(==), A> {
    const lifo: bool
    var items: seq<Node<S, A>>

    /** `LIFOQueue()`: an empty list. */
    constructor Lifo()
      ensures lifo && items == []
    {
      lifo := true;
      items := [];
    }

    /** `FIFOQueue()`: an empty deque. */
    constructor Fifo()
      ensures !lifo && items == []
    {
      lifo := false;
      items := [];
    }

    method Append(n: Node<S, A>)
      modifies this
      ensures items == old(items) + [n]
    {
      items := items + [n];
    }

    /** `extend`: append the nodes one at a time. */
    method Extend(ns: seq<Node<S, A>>)
      modifies this
      ensures items == old(items) + ns
    {
      for k := 0 to |ns|
        invariant items == old(items) + ns[..k]
      {
        assert ns[..k + 1] == ns[..k] + [ns[k]];
        Append(ns[k]);
      }
      assert ns[..|ns|] == ns;
    }

    /** `pop`: the most recently appended node of a LIFO queue, the earliest of a FIFO queue. */
    method Pop() returns (n: Node<S, A>)
      requires |items| > 0
      modifies this
      ensures lifo ==> n == old(items)[|old(items)| - 1] && items == old(items)[..|old(items)| - 1]
      ensures !lifo ==> n == old(items)[0] && items == old(items)[1..]
    {
      if lifo {
        n := items[|items| - 1];
        items := items[..|items| - 1];
      } else {
        n := items[0];
        items := items[1..];
      }
    }

    /** `node in frontier`: a scan comparing states. */
    method Contains(n: Node<S, A>) returns (b: bool)
      ensures b <==> HasState(items, n.state)
    {
      b := false;
      for k := 0 to |items|
        invariant b <==> exists i :: 0 <= i < k && items[i].state == n.state
      {
        if items[k].state == n.state {
          b := true;
        }
      }
    }
  }

  // ---------------------------------------------------------------------------
  // PriorityQueue

  /** An entry of the heap: the score `f(node)`, the insertion count, and the node. */
  type Entry<S, A> = (int, nat, Node<S, A>)

  /** Tuple order on entries: by score, then by insertion count. */
  predicate NoLater<S, A>(a: Entry<S, A>, b: Entry<S, A>)
  {
    a.0 < b.0 || (a.0 == b.0 && a.1 <= b.1)
  }

  /** The position of the least entry, which `heappop` removes. */
  function MinIndex<S, A>(es: seq<Entry<S, A>>): (i: nat)
    requires |es| > 0
    ensures i < |es| && forall j :: 0 <= j < |es| ==> NoLater(es[i], es[j])
  {
    if |es| == 1 then 0
    else
      var k := MinIndex(es[1..]) + 1;
      if NoLater(es[0], es[k]) then 0 else k
  }

  /** The first position whose node has the state of `n`, if any. */
  function FirstMatch<S(==), A>(es: seq<Entry<S, A>>, n: Node<S, A>): (r: Option<nat>)
    ensures r.None? <==> forall i :: 0 <= i < |es| ==> es[i].2.state != n.state
    ensures r.Some? ==> r.value < |es| && es[r.value].2.state == n.state
    ensures r.Some? ==> forall i :: 0 <= i < r.value ==> es[i].2.state != n.state
  {
    if es == [] then None
    else if es[0].2.state == n.state then Some(0)
    else match FirstMatch(es[1..], n)
      case None => None
      case Some(i) => Some(i + 1)
  }

  /** The entries without position `i`. */
  function RemoveAt<T>(xs: seq<T>, i: nat): (r: seq<T>)
    requires i < |xs|
    ensures |r| == |xs| - 1
    ensures forall k :: 0 <= k < |r| ==> r[k] == xs[if k < i then k else k + 1]
  {
    xs[..i] + xs[i + 1..]
  }

  /** The nodes of the entries, in entry order. */
  function Nodes<S, A>(es: seq<Entry<S, A>>): (r: seq<Node<S, A>>)
    ensures |r| == |es| && forall i :: 0 <= i < |es| ==> r[i] == es[i].2
  {
    seq(|es|, i requires 0 <= i < |es| => es[i].2)
  }

  lemma NodesAppend<S, A>(es: seq<Entry<S, A>>, e: Entry<S, A>)
    ensures Nodes(es + [e]) == Nodes(es) + [e.2]
  {
  }

  lemma NodesRemoveAt<S, A>(es: seq<Entry<S, A>>, i: nat)
    requires i < |es|
    ensures Nodes(RemoveAt(es, i)) == RemoveAt(Nodes(es), i)
  {
  }

  /**
   * PriorityQueue: the entries with the score function `f` and the counter
   * that numbers appends.  The heap's array layout is not modelled: the
   * entries are kept in the order they were appended.
   */
  class PriorityQueue<S(==), A> {
    const f: Node<S, A> -> int
    var entries: seq<Entry<S, A>>
    var counter: nat

    /** Every entry's score is `f` of its node, and the counts are distinct and below the counter. */
    ghost predicate Valid()
      reads this
    {
      && (forall i :: 0 <= i < |entries| ==> entries[i].0 == f(entries[i].2) && entries[i].1 < counter)
      && (forall i, j :: 0 <= i < j < |entries| ==> entries[i].1 != entries[j].1)
    }

    constructor(f: Node<S, A> -> int)
      ensures Valid() && this.f == f && entries == [] && counter == 0
    {
      this.f := f;
      entries := [];
      counter := 0;
    }

    /** `append`: push (f(node), next count, node). */
    method Append(n: Node<S, A>)
      requires Valid()
      modifies this
      ensures Valid()
      ensures entries == old(entries) + [(f(n), old(counter), n)] && counter == old(counter) + 1
    {
      entries := entries + [(f(n), counter, n)];
      counter := counter + 1;
    }

    /**
     * `pop`: remove the entry with the least score, among those the one
     * appended first, and return its node.
     */
    method Pop() returns (n: Node<S, A>)
      requires Valid() && |entries| > 0
      modifies this
      ensures Valid() && counter == old(counter)
      ensures var i := MinIndex(old(entries));
        n == old(entries)[i].2 && entries == RemoveAt(old(entries), i)
    {
      var i := MinIndex(entries);
      n := entries[i].2;
      entries := RemoveAt(entries, i);
    }

    /** `node in frontier`: some entry's node has the state of `n`. */
    method Contains(n: Node<S, A>) returns (b: bool)
      ensures b <==> HasState(Nodes(entries), n.state)
    {
      b := false;
      for k := 0 to |entries|
        invariant b <==> exists i :: 0 <= i < k && entries[i].2.state == n.state
      {
        if entries[k].2.state == n.state {
          b := true;
        }
      }
    }

    /** `frontier[key]`: the first node with the state of `key`, or None. */
    method Lookup(key: Node<S, A>) returns (r: Option<Node<S, A>>)
      ensures r.None? <==> FirstMatch(entries, key).None?
      ensures r.Some? ==> r.value == entries[FirstMatch(entries, key).value].2
    {
      for k := 0 to |entries|
        invariant forall i :: 0 <= i < k ==> entries[i].2.state != key.state
      {
        if entries[k].2.state == key.state {
          return Some(entries[k].2);
        }
      }
      return None;
    }

    /** `del frontier[key]`: remove the first entry with the state of `key`; nothing if there is none. */
    method Delete(key: Node<S, A>)
      requires Valid()
      modifies this
      ensures Valid() && counter == old(counter)
      ensures FirstMatch(old(entries), key).None? ==> entries == old(entries)
      ensures FirstMatch(old(entries), key).Some? ==> entries == RemoveAt(old(entries), FirstMatch(old(entries), key).value)
    {
      for k := 0 to |entries|
        invariant forall i :: 0 <= i < k ==> entries[i].2.state != key.state
      {
        if entries[k].2.state == key.state {
          entries := RemoveAt(entries, k);
          return;
        }
      }
    }
  }
}
