/**
 * The array layout behind search.py's PriorityQueue: the list `A` that
 * `heapq.heappush` and `heapq.heappop` maintain.  Frontiers.PriorityQueue
 * keeps its entries unordered and pops the least one; this module shows
 * that `heappop` on a valid heap takes that same entry, that `heappush`
 * keeps the heap valid, and that `__delitem__`, which removes a position
 * with `list.pop(i)` and does not restore the heap, breaks it.
 */
module HeapLayout {
  import opened Common
  import opened SearchNodes
  import opened Frontiers

  /** The position above `k` in the heap's tree. */
  function Parent(k: nat): (p: nat)
    requires k > 0
    ensures p < k && (k == 2 * p + 1 || k == 2 * p + 2)
  {
    (k - 1) / 2
  }

  /** heapq's invariant: no entry is earlier than the one above it. */
  predicate IsHeap<S, A>(es: seq<Entry<S, A>>)
  {
    forall k :: 0 < k < |es| ==> NoLater(es[Parent(k)], es[k])
  }

  /** Python's `<` on entries whose counts differ: by score, then by count. */
  predicate Earlier<S, A>(a: Entry<S, A>, b: Entry<S, A>)
  {
    a.0 < b.0 || (a.0 == b.0 && a.1 < b.1)
  }

  /** Counts are distinct, as the counter makes them. */
  predicate DistinctCounts<S, A>(es: seq<Entry<S, A>>)
  {
    forall i, j :: 0 <= i < j < |es| ==> es[i].1 != es[j].1
  }

  /** On a heap, the entry at the top is no later than the one at `j`. */
  lemma {:induction false} TopNoLater<S, A>(es: seq<Entry<S, A>>, j: nat)
    requires IsHeap(es) && j < |es|
    ensures NoLater(es[0], es[j])
    decreases j
  {
    if j > 0 {
      TopNoLater(es, Parent(j));
    }
  }

  /**
   * `heappop` returns position 0.  On a valid heap with distinct counts
   * that is the least entry, the one Frontiers.PriorityQueue.Pop takes.
   */
  lemma {:induction false} HeapPopIsMinIndex<S, A>(es: seq<Entry<S, A>>)
    requires IsHeap(es) && DistinctCounts(es) && |es| > 0
    ensures forall j :: 0 <= j < |es| ==> NoLater(es[0], es[j])
    ensures MinIndex(es) == 0
  {
    forall j | 0 <= j < |es| ensures NoLater(es[0], es[j]) {
      TopNoLater(es, j);
    }
  }

  /** Exchanging two positions keeps the entries. */
  lemma SwapKeepsMultiset<T>(s: seq<T>, i: nat, j: nat)
    requires i < |s| && j < |s|
    ensures multiset(s[i := s[j]][j := s[i]]) == multiset(s)
  {
    var t := s[i := s[j]];
    assert multiset(t) == multiset(s) - multiset{s[i]} + multiset{s[j]};
    assert t[j] == s[j];
    assert multiset(t[j := s[i]]) == multiset(t) - multiset{s[j]} + multiset{s[i]};
  }

  /** heapq's `_siftdown` from position `i`: move the entry up while it is earlier than the one above it. */
  function SiftUp<S, A>(es: seq<Entry<S, A>>, i: nat): (r: seq<Entry<S, A>>)
    requires i < |es|
    ensures |r| == |es| && multiset(r) == multiset(es)
    decreases i
  {
    if i == 0 then es
    else
      var p := Parent(i);
      if Earlier(es[i], es[p]) then
        var swapped := es[i := es[p]][p := es[i]];
        SwapKeepsMultiset(es, i, p);
        SiftUp(swapped, p)
      else es
  }

  /** `heapq.heappush`: put the entry at the end and sift it up. */
  function HeapPush<S, A>(es: seq<Entry<S, A>>, e: Entry<S, A>): (r: seq<Entry<S, A>>)
    ensures |r| == |es| + 1 && multiset(r) == multiset(es) + multiset{e}
  {
    SiftUp(es + [e], |es|)
  }

  /** A heap except at position `i`, whose children are still no earlier than the entry above `i`. */
  predicate HeapBut<S, A>(es: seq<Entry<S, A>>, i: nat)
  {
    && (forall k :: 0 < k < |es| && k != i ==> NoLater(es[Parent(k)], es[k]))
    && (forall k :: 0 < i && 0 < k < |es| && Parent(k) == i ==> NoLater(es[Parent(i)], es[k]))
  }

  /** Sifting up from the one position that breaks the heap makes it a heap. */
  lemma {:induction false} SiftUpRestores<S, A>(es: seq<Entry<S, A>>, i: nat)
    requires i < |es| && HeapBut(es, i)
    ensures IsHeap(SiftUp(es, i))
    decreases i
  {
    if i > 0 {
      var p := Parent(i);
      if Earlier(es[i], es[p]) {
        var swapped := es[i := es[p]][p := es[i]];
        forall k | 0 < k < |swapped| && k != p ensures NoLater(swapped[Parent(k)], swapped[k]) {
          if k != i && Parent(k) == p {
            assert NoLater(es[p], es[k]);
          }
        }
        forall k | 0 < p && 0 < k < |swapped| && Parent(k) == p ensures NoLater(swapped[Parent(p)], swapped[k]) {
          assert NoLater(es[Parent(p)], es[p]);
          if k != i {
            assert NoLater(es[p], es[k]);
          }
        }
        SiftUpRestores(swapped, p);
      }
    }
  }

  /** `heappush` keeps heapq's invariant. */
  lemma {:induction false} PushKeepsHeap<S, A>(es: seq<Entry<S, A>>, e: Entry<S, A>)
    requires IsHeap(es)
    ensures IsHeap(HeapPush(es, e))
  {
    var grown := es + [e];
    assert forall k :: 0 <= k < |es| ==> grown[k] == es[k];
    SiftUpRestores(grown, |es|);
  }

  /**
   * `del frontier[a]` followed by `frontier.append(d)` and `frontier.pop()`,
   * a sequence PriorityQueue's methods allow (best_first_tree_search deletes
   * and re-appends whenever a child beats its incumbent's score): the heap [(1, 0, a), (5, 1, b),
   * (2, 2, c)] loses position 0 to `list.pop(0)`, which leaves
   * [(5, 1, b), (2, 2, c)], no longer a heap; pushing (3, 3, d) sifts d to
   * the top, and `heappop` returns d although c has the lower score.
   */
  lemma DeleteThenPopAsWritten()
    ensures var a: Node<int, int> := Node(1, None, None, 1, 0);
      var b: Node<int, int> := Node(2, None, None, 5, 0);
      var c: Node<int, int> := Node(3, None, None, 2, 0);
      var d: Node<int, int> := Node(4, None, None, 3, 0);
      var heap := [(1, 0, a), (5, 1, b), (2, 2, c)];
      var deleted := RemoveAt(heap, FirstMatch(heap, a).value);
      var pushed := HeapPush(deleted, (3, 3, d));
      && IsHeap(heap) && FirstMatch(heap, a) == Some(0)
      && !IsHeap(deleted)
      && pushed == [(3, 3, d), (2, 2, c), (5, 1, b)]
      && pushed[0].2 == d && Earlier(pushed[1], pushed[0])
      && MinIndex(pushed) == 1
  {
    var a: Node<int, int> := Node(1, None, None, 1, 0);
    var b: Node<int, int> := Node(2, None, None, 5, 0);
    var c: Node<int, int> := Node(3, None, None, 2, 0);
    var d: Node<int, int> := Node(4, None, None, 3, 0);
    var heap := [(1, 0, a), (5, 1, b), (2, 2, c)];
    assert FirstMatch(heap, a) == Some(0);
    var deleted := RemoveAt(heap, 0);
    assert deleted == [(5, 1, b), (2, 2, c)];
    assert !NoLater(deleted[Parent(1)], deleted[1]);
    var grown := deleted + [(3, 3, d)];
    assert Parent(2) == 0 && Earlier(grown[2], grown[0]);
    var swapped := grown[2 := grown[0]][0 := grown[2]];
    assert swapped == [(3, 3, d), (2, 2, c), (5, 1, b)];
    assert HeapPush(deleted, (3, 3, d)) == swapped;
    assert MinIndex(swapped[1..]) == 0;
  }
}
