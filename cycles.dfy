/** `CycleFinder` of `utils/libcxx/graph.py`: a breadth-first search from a
    node `s` that records, for every node it reaches, the tree path from `s`,
    and reports the path of every reached node with an edge back to `s`. */
module Cycles {
  import opened Wrappers
  import opened Order
  import opened Graph
  import opened Traversal

  function Last(p: seq<string>): string
    requires |p| > 0
  {
    p[|p| - 1]
  }

  /** A non-empty sequence of nodes, each joined to the next by an edge. */
  ghost predicate IsWalk(ns: Nodes, p: seq<string>) {
    && |p| > 0
    && (forall i :: 0 <= i < |p| ==> p[i] in ns)
    && (forall i :: 0 < i < |p| ==> p[i] in ns[p[i - 1]].edges)
  }

  ghost predicate Distinct(p: seq<string>) {
    forall i, j :: 0 <= i < j < |p| ==> p[i] != p[j]
  }

  /** What `findCycleForNode(s)` reports for one cycle through `s`: a path of
      distinct nodes that starts at `s` and whose last node has an edge back
      to `s`. */
  ghost predicate IsWitness(ns: Nodes, s: string, c: seq<string>) {
    IsWalk(ns, c) && c[0] == s && Distinct(c) && s in ns[Last(c)].edges
  }

  ghost predicate Reaches(ns: Nodes, s: string, k: string) {
    exists p :: IsWalk(ns, p) && p[0] == s && Last(p) == k
  }

  /** `s` lies on a cycle: some walk from `s` ends in a node with an edge back
      to `s`. */
  ghost predicate OnCycle(ns: Nodes, s: string) {
    exists p :: IsWalk(ns, p) && p[0] == s && s in ns[Last(p)].edges
  }

  /** The nodes reachable from `s` that have an edge back to `s`. */
  ghost function ClosingNodes(ns: Nodes, s: string): set<string> {
    set k | k in ns && s in ns[k].edges && Reaches(ns, s, k)
  }

  /** The last nodes of a list of paths. */
  ghost function Ends(cycles: seq<seq<string>>): set<string> {
    set c | c in cycles && |c| > 0 :: Last(c)
  }

  /** The paths end at pairwise different nodes. */
  ghost predicate DistinctEnds(cycles: seq<seq<string>>) {
    forall i, j :: 0 <= i < j < |cycles| && |cycles[i]| > 0 && |cycles[j]| > 0 ==> Last(cycles[i]) != Last(cycles[j])
  }

  /** The nodes paired with an answer. */
  ghost function Sources(found: seq<(string, seq<seq<string>>)>): set<string> {
    set p | p in found :: p.0
  }

  /** Every walk from `s` to `k` has at least `d` nodes. */
  ghost predicate NoShorterWalk(ns: Nodes, s: string, k: string, d: int) {
    forall p {:trigger IsWalk(ns, p)} :: IsWalk(ns, p) && p[0] == s && Last(p) == k ==> d <= |p|
  }

  /** Each path is a shortest walk from `s` to its last node, as the
      breadth-first search records it on first arrival. */
  ghost predicate ShortWitnesses(ns: Nodes, s: string, cycles: seq<seq<string>>) {
    forall c :: c in cycles ==> |c| > 0 && NoShorterWalk(ns, s, Last(c), |c|)
  }

  /** The full answer for `s`: one witness for each node that closes a cycle
      through `s`, each a shortest walk to that node, and nothing else. */
  ghost predicate CycleReport(ns: Nodes, s: string, cycles: seq<seq<string>>) {
    && (forall c :: c in cycles ==> IsWitness(ns, s, c))
    && Ends(cycles) == ClosingNodes(ns, s)
    && DistinctEnds(cycles)
    && ShortWitnesses(ns, s, cycles)
  }

  /** A report is non-empty exactly when `s` lies on a cycle. */
  lemma ReportNonEmpty(ns: Nodes, s: string, cycles: seq<seq<string>>)
    requires CycleReport(ns, s, cycles)
    ensures cycles != [] <==> OnCycle(ns, s)
  {
    if cycles != [] {
      assert IsWitness(ns, s, cycles[0]);
    }
    if OnCycle(ns, s) {
      var p :| IsWalk(ns, p) && p[0] == s && s in ns[Last(p)].edges;
      assert Last(p) in ClosingNodes(ns, s);
      var c :| c in cycles && |c| > 0 && Last(c) == Last(p);
    }
  }

  /** A self-loop on `s` is reported as the one-node cycle `[s]`. */
  lemma ReportSelfLoop(ns: Nodes, s: string, cycles: seq<seq<string>>)
    requires CycleReport(ns, s, cycles) && s in ns && s in ns[s].edges
    ensures [s] in cycles
  {
    assert IsWalk(ns, [s]) && Last([s]) == s;
    assert s in ClosingNodes(ns, s);
    var c :| c in cycles && |c| > 0 && Last(c) == s;
    assert IsWitness(ns, s, c);
    assert c == [s];
  }

  // The state of the search in `findCycleForNode`.

  /** Every visited node has its tree path: a walk of distinct visited nodes
      from `s` to that node. */
  ghost predicate PathsFrom(ns: Nodes, s: string, visited: set<string>, paths: map<string, seq<string>>) {
    && s in visited && visited <= ns.Keys && paths.Keys == visited
    && forall k :: k in paths ==>
      && IsWalk(ns, paths[k]) && paths[k][0] == s && Last(paths[k]) == k && Distinct(paths[k])
      && (forall i :: 0 <= i < |paths[k]| ==> paths[k][i] in visited)
  }

  /** Every edge out of a node in `done` ends at a visited node. */
  ghost predicate ClosedUnder(ns: Nodes, done: seq<string>, visited: set<string>) {
    forall k, d :: k in done && k in ns && d in ns[k].edges ==> d in visited
  }

  /** The cycles found so far: one witness for each node of `done` with an
      edge back to `s`, namely its tree path. */
  ghost predicate CyclesOf(ns: Nodes, s: string, done: seq<string>, paths: map<string, seq<string>>, cycles: seq<seq<string>>) {
    && (forall k :: k in done ==> k in paths)
    && (forall c :: c in cycles ==> IsWitness(ns, s, c) && Last(c) in done)
    && (forall k :: k in done && k in ns && s in ns[k].edges ==> paths[k] in cycles)
    && DistinctEnds(cycles)
  }

  /** The invariant of the search loop, with `done` the nodes taken off the
      queue. */
  ghost predicate Searched(ns: Nodes, s: string, done: seq<string>, visited: set<string>,
                           paths: map<string, seq<string>>, cycles: seq<seq<string>>) {
    PathsFrom(ns, s, visited, paths) && ClosedUnder(ns, done, visited) && CyclesOf(ns, s, done, paths, cycles)
  }

  /** Each recorded path is a shortest walk to its node. */
  ghost predicate Shortest(ns: Nodes, s: string, paths: map<string, seq<string>>) {
    forall k :: k in paths ==> NoShorterWalk(ns, s, k, |paths[k]|)
  }

  /** The queue is in breadth-first order: along it the path lengths never
      decrease, and they differ by at most one. */
  ghost predicate Layered(paths: map<string, seq<string>>, q: seq<string>) {
    && (forall i :: 0 <= i < |q| ==> q[i] in paths)
    && (forall i, j :: 0 <= i < j < |q| ==> |paths[q[i]]| <= |paths[q[j]]| <= |paths[q[i]]| + 1)
  }

  /** Every queued path has `d` or `d + 1` nodes. */
  ghost predicate Band(paths: map<string, seq<string>>, q: seq<string>, d: int) {
    forall i :: 0 <= i < |q| ==> q[i] in paths && d <= |paths[q[i]]| <= d + 1
  }

  /** No walk from `s` to an unvisited node has fewer than `m` nodes. */
  ghost predicate Beyond(ns: Nodes, s: string, visited: set<string>, m: int) {
    forall u :: u !in visited ==> NoShorterWalk(ns, s, u, m)
  }

  /** The breadth-first half of the search invariant. */
  ghost predicate Breadth(ns: Nodes, s: string, paths: map<string, seq<string>>, cycles: seq<seq<string>>, q: seq<string>) {
    Shortest(ns, s, paths) && Layered(paths, q) && ShortWitnesses(ns, s, cycles)
  }

  /** Queuing `en` with the path to `n` extended by `en` keeps the paths. */
  lemma PathsExtend(ns: Nodes, s: string, visited: set<string>, paths: map<string, seq<string>>, n: string, en: string)
    requires Closed(ns) && PathsFrom(ns, s, visited, paths)
    requires n in paths && en in ns[n].edges && en !in visited
    ensures PathsFrom(ns, s, visited + {en}, paths[en := paths[n] + [en]])
  {
    var p := paths[n] + [en];
    assert Last(paths[n]) == n;
    forall i | 0 <= i < |paths[n]| ensures paths[n][i] != en {
    }
    assert IsWalk(ns, p) by {
      forall i | 0 < i < |p| ensures p[i] in ns[p[i - 1]].edges {
        if i < |p| - 1 {
          assert p[i] == paths[n][i] && p[i - 1] == paths[n][i - 1];
        }
      }
    }
  }

  /** Fewer nodes remain unvisited once the visited set has grown. */
  lemma FewerUnvisited(all: set<string>, before: set<string>, after: set<string>)
    requires before <= after <= all && before != after
    ensures |all - after| < |all - before|
  {
    var x :| x in after && x !in before;
    var c := (all - before) - {x};
    assert all - after <= c;
    assert c == (all - after) + (c - (all - after));
    assert |all - before| == |c| + 1 by {
      assert all - before == c + {x};
    }
  }

  /** The last node taken off the queue was visited and taken off once. */
  lemma PoppedLast(b: Bfs)
    requires b.Valid() && |b.popped| > 0
    ensures Last(b.popped) in b.visited
    ensures Last(b.popped) !in b.popped[..|b.popped| - 1]
    ensures b.popped == b.popped[..|b.popped| - 1] + [Last(b.popped)]
  {
    var xs := b.popped + b.toVisit;
    var m := |b.popped| - 1;
    assert xs[m] == Last(b.popped);
    forall i | 0 <= i < m ensures b.popped[..m][i] != Last(b.popped) {
      assert xs[i] == b.popped[..m][i];
    }
  }

  /** One step of the edge loop in `findCycleForNode`: after the `j`-th edge
      the state is as after edges `es[..j]`. */
  lemma CyclesStep(cycles: seq<seq<string>>, es: seq<string>, j: nat, s: string, p: seq<string>, cs: seq<seq<string>>)
    requires j < |es| && (forall a, b :: 0 <= a < b < |es| ==> es[a] != es[b])
    requires cs == cycles + (if s in es[..j] then [p] else [])
    ensures (if es[j] == s then cs + [p] else cs) == cycles + (if s in es[..j + 1] then [p] else [])
  {
    assert es[..j + 1] == es[..j] + [es[j]];
    if es[j] == s {
      forall a | 0 <= a < j ensures es[..j][a] != s {
        assert es[..j][a] == es[a];
      }
    }
  }

  /** After all of `n`'s edges, every edge out of `n` is visited too. */
  lemma ClosedDone(ns: Nodes, done0: seq<string>, n: string, es: seq<string>, visited: set<string>)
    requires n in ns && IsListing(es, ns[n].edges)
    requires ClosedUnder(ns, done0, visited) && forall i :: 0 <= i < |es| ==> es[i] in visited
    ensures ClosedUnder(ns, done0 + [n], visited)
  {
    forall k, d | k in done0 + [n] && k in ns && d in ns[k].edges ensures d in visited {
      if k != n {
        assert k in done0;
      }
    }
  }

  /** After all of `n`'s edges, the cycles found are those of the done nodes
      and `n`. */
  lemma CyclesDone(ns: Nodes, s: string, done0: seq<string>, n: string, es: seq<string>,
                   paths: map<string, seq<string>>, paths': map<string, seq<string>>,
                   cycles: seq<seq<string>>, cycles': seq<seq<string>>)
    requires n in ns && IsListing(es, ns[n].edges) && n !in done0 && n in paths
    requires PathsFrom(ns, s, paths.Keys, paths)
    requires forall k :: k in paths ==> k in paths' && paths'[k] == paths[k]
    requires CyclesOf(ns, s, done0, paths, cycles)
    requires cycles' == cycles + (if s in es then [paths[n]] else [])
    ensures CyclesOf(ns, s, done0 + [n], paths', cycles')
  {
    forall k | k in done0 + [n] ensures k in paths' {
      if k != n {
        assert k in done0;
      }
    }
    forall c | c in cycles' ensures IsWitness(ns, s, c) && Last(c) in done0 + [n] {
      if c in cycles {
        assert Last(c) in done0;
      } else {
        assert c == paths[n] && s in ns[n].edges;
      }
    }
    forall k | k in done0 + [n] && k in ns && s in ns[k].edges ensures paths'[k] in cycles' {
      if k != n {
        assert k in done0;
      } else {
        assert s in es;
      }
    }
    EndsDone(done0, n, cycles, cycles');
  }

  /** A path ending at `n`, which no earlier path ends at, keeps the ends
      distinct. */
  lemma EndsDone(done0: seq<string>, n: string, cycles: seq<seq<string>>, cycles': seq<seq<string>>)
    requires n !in done0 && DistinctEnds(cycles)
    requires forall c :: c in cycles ==> |c| > 0 && Last(c) in done0
    requires cycles' == cycles || (|cycles'| == |cycles| + 1 && cycles'[..|cycles|] == cycles && |cycles'[|cycles|]| > 0 && Last(cycles'[|cycles|]) == n)
    ensures DistinctEnds(cycles')
  {
    forall i, j | 0 <= i < j < |cycles'| && |cycles'[i]| > 0 && |cycles'[j]| > 0 ensures Last(cycles'[i]) != Last(cycles'[j]) {
      if j < |cycles| {
        assert cycles'[i] == cycles[i] && cycles'[j] == cycles[j];
      } else {
        assert cycles'[i] == cycles[i];
        assert cycles[i] in cycles;
      }
    }
  }

  /** Every node of a walk from a visited node stays visited, when the
      visited nodes are all done. */
  lemma {:induction false} WalkStays(ns: Nodes, done: seq<string>, visited: set<string>, p: seq<string>)
    requires IsWalk(ns, p) && p[0] in visited
    requires ClosedUnder(ns, done, visited) && forall x :: x in visited ==> x in done
    ensures Last(p) in visited
    decreases |p|
  {
    if |p| > 1 {
      var q := p[..|p| - 1];
      WalkPrefix(ns, p);
      WalkStays(ns, done, visited, q);
    }
  }

  /** A walk without its last node is a walk, with an edge from its end to
      the dropped node. */
  lemma WalkPrefix(ns: Nodes, p: seq<string>)
    requires IsWalk(ns, p) && |p| > 1
    ensures var q := p[..|p| - 1];
      IsWalk(ns, q) && q[0] == p[0] && Last(p) in ns[Last(q)].edges
  {
    var q := p[..|p| - 1];
    forall i | 0 < i < |q| ensures q[i] in ns[q[i - 1]].edges {
      assert q[i] == p[i] && q[i - 1] == p[i - 1];
    }
  }

  /** A walk from `s` to an unvisited node is longer than the path of the
      head of the queue: the walk leaves the visited nodes through a queued
      node, none of which has a shorter path than the head. */
  lemma {:induction false} FrontierWalk(ns: Nodes, s: string, done: seq<string>, visited: set<string>,
                                        paths: map<string, seq<string>>, q: seq<string>, p: seq<string>)
    requires PathsFrom(ns, s, visited, paths) && ClosedUnder(ns, done, visited) && Shortest(ns, s, paths)
    requires IsListing(done + q, visited) && q != [] && Layered(paths, q)
    requires IsWalk(ns, p) && p[0] == s && Last(p) !in visited
    ensures |paths[q[0]]| + 1 <= |p|
    decreases |p|
  {
    var w := p[..|p| - 1];
    WalkPrefix(ns, p);
    var x := Last(w);
    if x in visited {
      assert x !in done;
      assert x in done + q;
      var i :| 0 <= i < |q| && q[i] == x;
      assert |paths[q[0]]| <= |paths[x]|;
      assert NoShorterWalk(ns, s, x, |paths[x]|);
    } else {
      FrontierWalk(ns, s, done, visited, paths, q, w);
    }
  }

  /** Before the head of the queue is taken off: no unvisited node is nearer
      than one step past the head, and the rest of the queue lies in the
      head's layer or the next. */
  lemma Frontier(ns: Nodes, s: string, done: seq<string>, visited: set<string>,
                 paths: map<string, seq<string>>, q: seq<string>)
    requires PathsFrom(ns, s, visited, paths) && ClosedUnder(ns, done, visited) && Shortest(ns, s, paths)
    requires IsListing(done + q, visited) && q != [] && Layered(paths, q)
    ensures q[0] in paths && Beyond(ns, s, visited, |paths[q[0]]| + 1)
    ensures Layered(paths, q[1..]) && Band(paths, q[1..], |paths[q[0]]|)
  {
    forall u | u !in visited ensures NoShorterWalk(ns, s, u, |paths[q[0]]| + 1) {
      forall p | IsWalk(ns, p) && p[0] == s && Last(p) == u ensures |paths[q[0]]| + 1 <= |p| {
        FrontierWalk(ns, s, done, visited, paths, q, p);
      }
    }
    forall i | 0 <= i < |q[1..]| ensures q[1..][i] in paths && |paths[q[0]]| <= |paths[q[1..][i]]| <= |paths[q[0]]| + 1 {
      assert q[1..][i] == q[i + 1];
    }
  }

  /** Queuing `en` one step past `n`, with nothing shorter to `en`, keeps
      every path shortest and the queue in breadth-first order. */
  lemma PushShortest(ns: Nodes, s: string, paths: map<string, seq<string>>, q: seq<string>, n: string, en: string, d: int)
    requires n in paths && |paths[n]| == d && en !in paths
    requires Shortest(ns, s, paths) && Layered(paths, q) && Band(paths, q, d) && NoShorterWalk(ns, s, en, d + 1)
    ensures var paths2 := paths[en := paths[n] + [en]];
      Shortest(ns, s, paths2) && Layered(paths2, q + [en]) && Band(paths2, q + [en], d)
  {
    var paths2 := paths[en := paths[n] + [en]];
    var q2 := q + [en];
    forall i, j | 0 <= i < j < |q2| ensures |paths2[q2[i]]| <= |paths2[q2[j]]| <= |paths2[q2[i]]| + 1 {
      assert q2[i] == q[i] && q[i] in paths;
      if j < |q| {
        assert q2[j] == q[j] && q[j] in paths;
      }
    }
  }

  /** When the queue has drained, the cycles found are the full report. */
  lemma SearchComplete(ns: Nodes, s: string, done: seq<string>, visited: set<string>,
                       paths: map<string, seq<string>>, cycles: seq<seq<string>>)
    requires Searched(ns, s, done, visited, paths, cycles) && ShortWitnesses(ns, s, cycles)
    requires forall x :: x in visited ==> x in done
    ensures CycleReport(ns, s, cycles)
    ensures forall c, p :: c in cycles && c != [] && IsWalk(ns, p) && p[0] == s && Last(p) == Last(c) ==> |c| <= |p|
    ensures cycles != [] <==> OnCycle(ns, s)
    ensures s in ns && s in ns[s].edges ==> [s] in cycles
  {
    forall k | k in Ends(cycles) ensures k in ClosingNodes(ns, s) {
      var c :| c in cycles && |c| > 0 && Last(c) == k;
      assert IsWitness(ns, s, c);
    }
    forall k | k in ClosingNodes(ns, s) ensures k in Ends(cycles) {
      var p :| IsWalk(ns, p) && p[0] == s && Last(p) == k;
      WalkStays(ns, done, visited, p);
      assert paths[k] in cycles && Last(paths[k]) == k;
    }
    ReportNonEmpty(ns, s, cycles);
    if s in ns && s in ns[s].edges {
      ReportSelfLoop(ns, s, cycles);
    }
  }

  /** `pop_front` on an empty queue: its assertion fails. */
  datatype PopError = EmptyQueue

  class CycleFinder {
    const graph: DirectedGraph

    constructor (graph: DirectedGraph)
      ensures this.graph == graph
    {
      this.graph := graph;
    }

    /** `findCycleForNode(s)`: `s` must be a node of the graph (an assertion
        in the source); the answer holds one witness per node that closes a
        cycle through `s`, so it is empty exactly when `s` is on no cycle.
        Each witness is the path on which the breadth-first search first
        reached its node, so no walk from `s` reaches that node sooner. */
    method FindCycleForNode(s: string) returns (cycles: seq<seq<string>>)
      requires graph.Valid() && s in graph.nodes
      ensures CycleReport(graph.nodes, s, cycles)
      ensures forall c, p :: c in cycles && c != [] && IsWalk(graph.nodes, p) && p[0] == s && Last(p) == Last(c) ==> |c| <= |p|
      ensures cycles != [] <==> OnCycle(graph.nodes, s)
      ensures s in graph.nodes[s].edges ==> [s] in cycles
    {
      var ns := graph.nodes;
      cycles := [];
      var bfs := new Bfs(s);
      bfs.PushBack(s);
      var paths := map[s := [s]];
      while !bfs.Empty()
        invariant bfs.Valid() && bfs.start == s
        invariant Searched(ns, s, bfs.popped, bfs.visited, paths, cycles)
        invariant Breadth(ns, s, paths, cycles, bfs.toVisit)
        decreases |ns.Keys - bfs.visited|, |bfs.toVisit|
      {
        paths, cycles := SearchStep(ns, bfs, paths, cycles);
      }
      SearchComplete(ns, s, bfs.popped, bfs.visited, paths, cycles);
    }

    /** `findCycleForNode(s)` as Python 3 runs it. `BFS` defines
        `__nonzero__`, which Python 3 never consults, and neither `__bool__`
        nor `__len__`, so `while bfs` is always true: once the queue has
        drained, `pop_front` fails its assertion on the empty queue. */
    method FindCycleForNodeAsWritten(s: string) returns (r: Result<seq<seq<string>>, PopError>)
      requires graph.Valid() && s in graph.nodes
      ensures r == Failure(EmptyQueue)
    {
      var ns := graph.nodes;
      var cycles := [];
      var bfs := new Bfs(s);
      bfs.PushBack(s);
      var paths := map[s := [s]];
      while true
        invariant bfs.Valid() && bfs.start == s
        invariant Searched(ns, s, bfs.popped, bfs.visited, paths, cycles)
        invariant Breadth(ns, s, paths, cycles, bfs.toVisit)
        decreases |ns.Keys - bfs.visited|, |bfs.toVisit|
      {
        if bfs.Empty() {
          return Failure(EmptyQueue);
        }
        paths, cycles := SearchStep(ns, bfs, paths, cycles);
      }
    }

    /** `findCyclesInGraph()`: the nodes on a cycle, each paired with its
        (non-empty) answer from `findCycleForNode`. */
    method FindCyclesInGraph() returns (found: seq<(string, seq<seq<string>>)>)
      requires graph.Valid()
      ensures forall p :: p in found ==> p.0 in graph.nodes && p.1 != [] && CycleReport(graph.nodes, p.0, p.1)
      ensures forall a, b :: 0 <= a < b < |found| ==> found[a].0 != found[b].0
      ensures Sources(found) == set k | k in graph.nodes && OnCycle(graph.nodes, k)
    {
      var ns := graph.nodes;
      var ids := Enumerate(ns.Keys);
      found := [];
      for i := 0 to |ids|
        invariant Collected(ns, ids[..i], found)
      {
        found := CollectNode(ids, i, found);
      }
      assert ids[..|ids|] == ids;
      assert (set k | k in ids && OnCycle(ns, k)) == set k | k in ns && OnCycle(ns, k);
    }

    /** One round of `findCyclesInGraph`'s loop: the answer for `ids[i]` is
        kept when it is non-empty. */
    method CollectNode(ids: seq<string>, i: int, found: seq<(string, seq<seq<string>>)>)
      returns (found': seq<(string, seq<seq<string>>)>)
      requires graph.Valid() && IsListing(ids, graph.nodes.Keys) && 0 <= i < |ids|
      requires Collected(graph.nodes, ids[..i], found)
      ensures Collected(graph.nodes, ids[..i + 1], found')
    {
      var cycle := FindCycleForNode(ids[i]);
      ListingFresh(ids, graph.nodes.Keys, i);
      assert ids[..i + 1] == ids[..i] + [ids[i]];
      FoundStep(graph.nodes, ids[..i], ids[i], found, cycle);
      found' := if cycle != [] then found + [(ids[i], cycle)] else found;
    }
  }

  /** The answers of `findCyclesInGraph` for the nodes of `done`: a non-empty
      report for each node of `done` on a cycle, one entry per node. */
  ghost predicate Collected(ns: Nodes, done: seq<string>, found: seq<(string, seq<seq<string>>)>) {
    && (forall p :: p in found ==> p.0 in ns && p.1 != [] && CycleReport(ns, p.0, p.1))
    && (forall a, b :: 0 <= a < b < |found| ==> found[a].0 != found[b].0)
    && Sources(found) == set k | k in done && OnCycle(ns, k)
  }

  /** One round of `findCyclesInGraph`'s loop: the answer for a new node `k`
      is kept when it is non-empty. */
  lemma FoundStep(ns: Nodes, done: seq<string>, k: string, found: seq<(string, seq<seq<string>>)>, cycle: seq<seq<string>>)
    requires Collected(ns, done, found) && k !in done && k in ns
    requires CycleReport(ns, k, cycle) && (cycle != [] <==> OnCycle(ns, k))
    ensures Collected(ns, done + [k], if cycle != [] then found + [(k, cycle)] else found)
  {
    var found' := if cycle != [] then found + [(k, cycle)] else found;
    forall p | p in found' ensures p.0 in ns && p.1 != [] && CycleReport(ns, p.0, p.1) {
      if p !in found {
        assert p == (k, cycle);
      }
    }
    if cycle != [] {
      assert k !in Sources(found);
      FoundAppend(found, (k, cycle));
    }
    assert (set x | x in done + [k] && OnCycle(ns, x)) == Sources(found) + (if cycle != [] then {k} else {});
  }

  /** Appending an answer for a node not answered yet adds that node and
      keeps the nodes distinct. */
  lemma FoundAppend(found: seq<(string, seq<seq<string>>)>, p: (string, seq<seq<string>>))
    requires (forall a, b :: 0 <= a < b < |found| ==> found[a].0 != found[b].0) && p.0 !in Sources(found)
    ensures Sources(found + [p]) == Sources(found) + {p.0}
    ensures forall a, b :: 0 <= a < b < |found + [p]| ==> (found + [p])[a].0 != (found + [p])[b].0
  {
    var f := found + [p];
    forall a, b | 0 <= a < b < |f| ensures f[a].0 != f[b].0 {
      assert f[a] == found[a];
      if b < |found| {
        assert f[b] == found[b];
      } else {
        assert found[a] in found;
      }
    }
  }

  /** The state of the edge loop after the edges `es[..j]` of `n`: the
      paths of the nodes visited so far extend the earlier ones, each of those
      edges ends at a visited node, and `n`'s path is recorded as a cycle once
      the edge back to `s` has been seen. */
  ghost predicate EdgeLoop(ns: Nodes, s: string, done0: seq<string>, n: string, es: seq<string>, j: nat,
                           visited: set<string>, paths: map<string, seq<string>>, paths': map<string, seq<string>>,
                           cycles: seq<seq<string>>, cycles': seq<seq<string>>) {
    && j <= |es| && n in paths
    && PathsFrom(ns, s, visited, paths')
    && (forall k :: k in paths ==> k in paths' && paths'[k] == paths[k])
    && ClosedUnder(ns, done0, visited)
    && (forall i :: 0 <= i < j ==> es[i] in visited)
    && cycles' == cycles + (if s in es[..j] then [paths[n]] else [])
  }

  /** One edge `n -> es[j]`: an unvisited target is visited with `n`'s path
      extended, and an edge back to `s` records `n`'s path. */
  lemma EdgeStep(ns: Nodes, s: string, done0: seq<string>, n: string, es: seq<string>, j: nat,
                 visited: set<string>, paths: map<string, seq<string>>, paths': map<string, seq<string>>,
                 cycles: seq<seq<string>>, cycles': seq<seq<string>>)
    requires Closed(ns) && n in ns && IsListing(es, ns[n].edges) && j < |es|
    requires EdgeLoop(ns, s, done0, n, es, j, visited, paths, paths', cycles, cycles')
    ensures var en := es[j];
      var visited2 := if en in visited then visited else visited + {en};
      var paths2 := if en in visited then paths' else paths'[en := paths'[n] + [en]];
      && n in paths2
      && EdgeLoop(ns, s, done0, n, es, j + 1, visited2, paths, paths2, cycles,
                  if en == s then cycles' + [paths2[n]] else cycles')
  {
    var en := es[j];
    assert en in ns[n].edges;
    CyclesStep(cycles, es, j, s, paths[n], cycles');
    if en !in visited {
      PathsExtend(ns, s, visited, paths', n, en);
    }
  }

  /** The edge loop's state with its breadth-first part: `n`'s path has `d`
      nodes, the queue `q` holds paths of `d` or `d + 1` nodes in order, and
      every recorded path is shortest. */
  ghost predicate EdgeState(ns: Nodes, s: string, done0: seq<string>, n: string, es: seq<string>, j: nat, d: int,
                            visited: set<string>, q: seq<string>, paths: map<string, seq<string>>,
                            paths': map<string, seq<string>>, cycles: seq<seq<string>>, cycles': seq<seq<string>>) {
    && EdgeLoop(ns, s, done0, n, es, j, visited, paths, paths', cycles, cycles')
    && d == |paths[n]| && Shortest(ns, s, paths') && Layered(paths', q) && Band(paths', q, d)
    && Beyond(ns, s, visited, d + 1)
  }

  /** One edge `n -> es[j]` on the full state: a target first reached here
      is queued at the back, one step past `n`. */
  lemma StateStep(ns: Nodes, s: string, done0: seq<string>, n: string, es: seq<string>, j: nat, d: int,
                  visited: set<string>, q: seq<string>, paths: map<string, seq<string>>,
                  paths': map<string, seq<string>>, cycles: seq<seq<string>>, cycles': seq<seq<string>>,
                  visited2: set<string>, q2: seq<string>, paths2: map<string, seq<string>>, cycles2: seq<seq<string>>)
    requires Closed(ns) && n in ns && IsListing(es, ns[n].edges) && j < |es|
    requires EdgeState(ns, s, done0, n, es, j, d, visited, q, paths, paths', cycles, cycles')
    requires es[j] in visited ==> visited2 == visited && q2 == q && paths2 == paths'
    requires es[j] !in visited ==>
      visited2 == visited + {es[j]} && q2 == q + [es[j]] && paths2 == paths'[es[j] := paths'[n] + [es[j]]]
    requires cycles2 == if es[j] == s then cycles' + [paths'[n]] else cycles'
    ensures EdgeState(ns, s, done0, n, es, j + 1, d, visited2, q2, paths, paths2, cycles, cycles2)
  {
    var en := es[j];
    EdgeStep(ns, s, done0, n, es, j, visited, paths, paths', cycles, cycles');
    if en !in visited {
      assert NoShorterWalk(ns, s, en, d + 1);
      PushShortest(ns, s, paths', q, n, en, d);
    }
  }

  /** One round of `findCycleForNode`'s outer loop: the head of the queue is
      taken off and its edges are followed. Either a new node is visited or
      the queue shrinks. */
  method SearchStep(ns: Nodes, bfs: Bfs, paths: map<string, seq<string>>, cycles: seq<seq<string>>)
    returns (paths': map<string, seq<string>>, cycles': seq<seq<string>>)
    requires Closed(ns) && bfs.Valid() && bfs.toVisit != []
    requires Searched(ns, bfs.start, bfs.popped, bfs.visited, paths, cycles)
    requires Breadth(ns, bfs.start, paths, cycles, bfs.toVisit)
    modifies bfs
    ensures bfs.Valid() && |bfs.popped| == |old(bfs.popped)| + 1
    ensures Searched(ns, bfs.start, bfs.popped, bfs.visited, paths', cycles')
    ensures Breadth(ns, bfs.start, paths', cycles', bfs.toVisit)
    ensures |ns.Keys - bfs.visited| < |ns.Keys - old(bfs.visited)|
         || (bfs.visited == old(bfs.visited) && |bfs.toVisit| < |old(bfs.toVisit)|)
  {
    ghost var done := bfs.popped;
    Frontier(ns, bfs.start, done, bfs.visited, paths, bfs.toVisit);
    var n := bfs.PopFront();
    assert bfs.popped[..|bfs.popped| - 1] == done;
    paths', cycles' := Expand(ns, bfs, n, paths, cycles);
    if bfs.visited != old(bfs.visited) {
      FewerUnvisited(ns.Keys, old(bfs.visited), bfs.visited);
    }
  }

  /** `findCycleForNode`'s edge loop: every edge of `n`, the node just taken
      off the queue, is visited with `n`'s path extended, and an edge back to
      the start records `n`'s path as a cycle. */
  method Expand(ns: Nodes, bfs: Bfs, n: string, paths: map<string, seq<string>>, cycles: seq<seq<string>>)
    returns (paths': map<string, seq<string>>, cycles': seq<seq<string>>)
    requires Closed(ns) && bfs.Valid() && |bfs.popped| > 0 && Last(bfs.popped) == n
    requires Searched(ns, bfs.start, bfs.popped[..|bfs.popped| - 1], bfs.visited, paths, cycles)
    requires n in paths && Shortest(ns, bfs.start, paths) && ShortWitnesses(ns, bfs.start, cycles)
    requires Layered(paths, bfs.toVisit) && Band(paths, bfs.toVisit, |paths[n]|)
    requires Beyond(ns, bfs.start, bfs.visited, |paths[n]| + 1)
    modifies bfs
    ensures bfs.Valid() && bfs.popped == old(bfs.popped)
    ensures old(bfs.visited) <= bfs.visited
    ensures bfs.visited == old(bfs.visited) ==> bfs.toVisit == old(bfs.toVisit)
    ensures Searched(ns, bfs.start, bfs.popped, bfs.visited, paths', cycles')
    ensures Breadth(ns, bfs.start, paths', cycles', bfs.toVisit)
  {
    var s := bfs.start;
    ghost var done0 := bfs.popped[..|bfs.popped| - 1];
    PoppedLast(bfs);
    ghost var d := |paths[n]|;
    var es := Enumerate(ns[n].edges);
    paths', cycles' := paths, cycles;
    for j := 0 to |es|
      invariant bfs.Valid() && bfs.popped == old(bfs.popped)
      invariant old(bfs.visited) <= bfs.visited
      invariant bfs.visited == old(bfs.visited) ==> bfs.toVisit == old(bfs.toVisit)
      invariant EdgeState(ns, s, done0, n, es, j, d, bfs.visited, bfs.toVisit, paths, paths', cycles, cycles')
    {
      paths', cycles' := VisitEdge(ns, bfs, s, done0, n, es, j, d, paths, paths', cycles, cycles');
    }
    assert es[..|es|] == es;
    ClosedDone(ns, done0, n, es, bfs.visited);
    CyclesDone(ns, s, done0, n, es, paths, paths', cycles, cycles');
    ShortAppend(ns, s, paths, n, cycles, cycles');
  }

  /** Recording `n`'s shortest path as a cycle keeps the witnesses shortest. */
  lemma ShortAppend(ns: Nodes, s: string, paths: map<string, seq<string>>, n: string,
                    cycles: seq<seq<string>>, cycles': seq<seq<string>>)
    requires n in paths && |paths[n]| > 0 && Last(paths[n]) == n && Shortest(ns, s, paths)
    requires ShortWitnesses(ns, s, cycles) && (cycles' == cycles || cycles' == cycles + [paths[n]])
    ensures ShortWitnesses(ns, s, cycles')
  {
    assert NoShorterWalk(ns, s, n, |paths[n]|);
  }

  /** The body of `findCycleForNode`'s edge loop for the edge `n -> es[j]`:
      an unseen target is queued with `n`'s path extended to it, and an edge
      back to `s` records `n`'s path as a cycle. */
  method VisitEdge(ns: Nodes, bfs: Bfs, s: string, ghost done0: seq<string>, n: string, es: seq<string>, j: nat, ghost d: int,
                   paths: map<string, seq<string>>, paths1: map<string, seq<string>>,
                   cycles: seq<seq<string>>, cycles1: seq<seq<string>>)
    returns (paths2: map<string, seq<string>>, cycles2: seq<seq<string>>)
    requires Closed(ns) && n in ns && IsListing(es, ns[n].edges) && j < |es| && bfs.Valid()
    requires EdgeState(ns, s, done0, n, es, j, d, bfs.visited, bfs.toVisit, paths, paths1, cycles, cycles1)
    modifies bfs
    ensures bfs.Valid() && bfs.popped == old(bfs.popped)
    ensures bfs.visited == old(bfs.visited) + {es[j]}
    ensures es[j] in old(bfs.visited) ==> bfs.toVisit == old(bfs.toVisit)
    ensures es[j] !in old(bfs.visited) ==> bfs.toVisit == old(bfs.toVisit) + [es[j]]
    ensures paths2 == if es[j] in old(bfs.visited) then paths1 else paths1[es[j] := paths1[n] + [es[j]]]
    ensures cycles2 == if es[j] == s then cycles1 + [paths1[n]] else cycles1
    ensures EdgeState(ns, s, done0, n, es, j + 1, d, bfs.visited, bfs.toVisit, paths, paths2, cycles, cycles2)
  {
    var en := es[j];
    ghost var visited1, q1 := bfs.visited, bfs.toVisit;
    paths2, cycles2 := paths1, cycles1;
    if !bfs.Seen(en) {
      paths2 := paths2[en := paths2[n] + [en]];
      bfs.PushBack(en);
    }
    if en == s {
      cycles2 := cycles2 + [paths1[n]];
    }
    StateStep(ns, s, done0, n, es, j, d, visited1, q1, paths, paths1, cycles, cycles1,
              bfs.visited, bfs.toVisit, paths2, cycles2);
  }
}
