/** The breadth-first work list of `utils/libcxx/graph.py` (`BFS`): a set of
    visited node ids and a FIFO queue of ids still to visit. A node joins the
    visited set the moment it is queued, so the queue never holds a node
    twice. */
module Traversal {
  import opened Order

  class Bfs {
    var visited: set<string>
    var toVisit: seq<string>
    const start: string
    /** The nodes already taken off the queue, in the order they were taken. */
    ghost var popped: seq<string>

    /** Every node ever queued (taken off or still waiting) was queued once,
        and these are exactly the visited nodes. */
    ghost predicate Valid()
      reads this
    {
      IsListing(popped + toVisit, visited)
    }

    /** `BFS(start)`: nothing visited, nothing queued. */
    constructor (start: string)
      ensures Valid() && this.start == start
      ensures visited == {} && toVisit == [] && popped == []
    {
      this.start := start;
      visited := {};
      toVisit := [];
      popped := [];
    }

    /** `empty()`. In a consistent work list the queue is empty exactly when
        every visited node has been taken off it. */
    function Empty(): (r: bool)
      reads this
      ensures r <==> |toVisit| == 0
      ensures Valid() ==> (r <==> forall x :: x in visited ==> x in popped)
    {
      assert Valid() && toVisit != [] ==> toVisit[0] in visited && toVisit[0] !in popped by {
        if Valid() && toVisit != [] {
          HeadNotPopped(popped, toVisit, visited);
        }
      }
      |toVisit| == 0
    }

    /** `push_back(node)`: the node must not have been visited (an assertion
        in the source); it is marked visited and queued at the back. */
    method PushBack(node: string)
      requires Valid() && node !in visited
      modifies this
      ensures Valid()
      ensures visited == old(visited) + {node} && toVisit == old(toVisit) + [node]
      ensures popped == old(popped)
    {
      ListingSnoc(popped + toVisit, visited, node);
      assert popped + (toVisit + [node]) == popped + toVisit + [node];
      visited := visited + {node};
      toVisit := toVisit + [node];
    }

    /** `maybe_push_back(node)`: queues the node unless it was visited. */
    method MaybePushBack(node: string)
      requires Valid()
      modifies this
      ensures Valid() && popped == old(popped)
      ensures visited == old(visited) + {node}
      ensures toVisit == if node in old(visited) then old(toVisit) else old(toVisit) + [node]
    {
      if node in visited {
        return;
      }
      PushBack(node);
    }

    /** `pop_front()`: the queue must not be empty (an assertion in the
        source); its head is removed and returned. */
    method PopFront() returns (elem: string)
      requires Valid() && toVisit != []
      modifies this
      ensures Valid()
      ensures elem == old(toVisit[0]) && toVisit == old(toVisit[1..])
      ensures popped == old(popped) + [elem] && visited == old(visited)
    {
      elem := toVisit[0];
      assert popped + toVisit == (popped + [elem]) + toVisit[1..];
      toVisit := toVisit[1..];
      popped := popped + [elem];
    }

    /** `seen(n)`: in a consistent work list, a node is seen exactly when it
        has been queued at some point. */
    function Seen(n: string): (r: bool)
      reads this
      ensures r <==> n in visited
      ensures Valid() ==> (r <==> n in popped || n in toVisit)
    {
      n in visited
    }
  }

  /** The head of the queue is visited and has not been taken off yet. */
  lemma HeadNotPopped(popped: seq<string>, toVisit: seq<string>, visited: set<string>)
    requires IsListing(popped + toVisit, visited) && toVisit != []
    ensures toVisit[0] in visited && toVisit[0] !in popped
  {
    var xs := popped + toVisit;
    assert xs[|popped|] == toVisit[0];
    forall i | 0 <= i < |popped| ensures popped[i] != toVisit[0] {
      assert xs[i] == popped[i];
    }
  }

  /** Appending a new element to a listing lists the enlarged set. */
  lemma ListingSnoc<T>(xs: seq<T>, s: set<T>, x: T)
    requires IsListing(xs, s) && x !in s
    ensures IsListing(xs + [x], s + {x})
  {
    forall y | y in xs + [x] ensures y in s + {x} {
      if y != x {
        assert y in xs;
      }
    }
  }
}
