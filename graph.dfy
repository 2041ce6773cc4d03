/** The graph model of `utils/libcxx/graph.py`: a named set of nodes, each with
    a text-to-text attribute dictionary and a set of out-edges. A `Node`
    compares and hashes by its id alone, so the set of nodes is modelled as a
    map from id to the node's record, and an edge is the id of its target. */
module Graph {
  import opened Wrappers
  import opened Order

  /** A node's attributes and the ids of the nodes its edges point to. */
  datatype NodeRec = NodeRec(attributes: map<string, string>, edges: set<string>)

  type Nodes = map<string, NodeRec>

  /** The class invariant: every edge ends at a node of the graph. */
  predicate Closed(ns: Nodes) {
    forall k, d :: k in ns && d in ns[k].edges ==> d in ns
  }

  /** The edge relation as a set of (source, target) pairs. */
  function EdgePairs(ns: Nodes): set<(string, string)> {
    set k, d | k in ns && d in ns[k].edges :: (k, d)
  }

  /** The attribute dictionaries, node by node. */
  function AttributeMaps(ns: Nodes): map<string, map<string, string>> {
    map k | k in ns :: ns[k].attributes
  }

  /** `nodes.add(Node(id, attributes=attrs))`: set insertion, so a node whose
      id is already present is discarded and the resident one stays. */
  function InsertNode(ns: Nodes, id: string, attrs: map<string, string>): Nodes {
    if id in ns then ns else ns[id := NodeRec(attrs, {})]
  }

  /** `src.addEdge(dst)` on the node `src`: `dst` joins its edge set. */
  function InsertEdge(ns: Nodes, src: string, dst: string): Nodes
    requires src in ns
  {
    ns[src := ns[src].(edges := ns[src].edges + {dst})]
  }

  /** `removeNode(id)` once the node is found: every other node loses its
      edges to `id`, then `id` leaves the set. */
  function DeleteNode(ns: Nodes, id: string): Nodes {
    map k | k in ns && k != id :: ns[k].(edges := ns[k].edges - {id})
  }

  /** Adding a node keeps the ids already present, adds `id`, creates no edge
      and keeps the invariant; a repeated id changes nothing. */
  lemma InsertNodeProperties(ns: Nodes, id: string, attrs: map<string, string>)
    requires Closed(ns)
    ensures var r := InsertNode(ns, id, attrs);
      && r.Keys == ns.Keys + {id}
      && Closed(r)
      && EdgePairs(r) == EdgePairs(ns)
      && (id in ns ==> r == ns)
      && (id !in ns ==> AttributeMaps(r) == AttributeMaps(ns)[id := attrs])
  {
    var r := InsertNode(ns, id, attrs);
    if id !in ns {
      assert forall k :: k in ns ==> r[k] == ns[k];
      forall p | p in EdgePairs(r) ensures p in EdgePairs(ns) {
        assert p.0 in ns && p.1 in ns[p.0].edges;
      }
      forall p | p in EdgePairs(ns) ensures p in EdgePairs(r) {
        assert p.0 in r && p.1 in r[p.0].edges;
      }
    }
  }

  /** `addEdge(src, dst)` adds exactly the pair (src, dst) to the edge
      relation, touches no attribute and keeps the invariant. */
  lemma InsertEdgeProperties(ns: Nodes, src: string, dst: string)
    requires src in ns && dst in ns && Closed(ns)
    ensures var r := InsertEdge(ns, src, dst);
      && r.Keys == ns.Keys
      && Closed(r)
      && EdgePairs(r) == EdgePairs(ns) + {(src, dst)}
      && AttributeMaps(r) == AttributeMaps(ns)
  {
    var r := InsertEdge(ns, src, dst);
    forall p | p in EdgePairs(r) ensures p in EdgePairs(ns) + {(src, dst)} {
      assert p.0 in r && p.1 in r[p.0].edges;
      if p != (src, dst) {
        assert p.1 in ns[p.0].edges;
      }
    }
    forall p | p in EdgePairs(ns) + {(src, dst)} ensures p in EdgePairs(r) {
      if p == (src, dst) {
        assert dst in r[src].edges;
      } else {
        assert p.0 in ns && p.1 in ns[p.0].edges;
        assert p.1 in r[p.0].edges;
      }
    }
  }

  /** Adding the same edge twice is adding it once. */
  lemma {:induction false} InsertEdgeIdempotent(ns: Nodes, src: string, dst: string)
    requires src in ns
    ensures InsertEdge(InsertEdge(ns, src, dst), src, dst) == InsertEdge(ns, src, dst)
  {
    var once := InsertEdge(ns, src, dst);
    assert once[src].edges + {dst} == once[src].edges;
  }

  /** After removal the id is gone, no remaining node has an edge to it, every
      other edge and every other attribute map is kept, and the invariant holds. */
  lemma DeleteNodeProperties(ns: Nodes, id: string)
    requires Closed(ns)
    ensures var r := DeleteNode(ns, id);
      && r.Keys == ns.Keys - {id}
      && Closed(r)
      && (forall k :: k in r ==> id !in r[k].edges)
      && EdgePairs(r) == set p | p in EdgePairs(ns) && p.0 != id && p.1 != id
      && AttributeMaps(r) == AttributeMaps(ns) - {id}
  {
    var r := DeleteNode(ns, id);
    var kept := set p | p in EdgePairs(ns) && p.0 != id && p.1 != id;
    forall p | p in EdgePairs(r) ensures p in kept {
      assert p.0 in r && p.1 in r[p.0].edges;
      assert p.1 in ns[p.0].edges;
    }
    forall p | p in kept ensures p in EdgePairs(r) {
      assert p.0 in ns && p.1 in ns[p.0].edges;
      assert p.1 in r[p.0].edges;
    }
  }

  /** Node `k` while `removeNode(id)` walks the nodes: stripped of its edge
      to `id` once it has been visited, unless it is `id` itself. */
  function StripIfDone(ns: Nodes, id: string, done: set<string>, k: string): NodeRec
    requires k in ns
  {
    if k != id && k in done then ns[k].(edges := ns[k].edges - {id}) else ns[k]
  }

  /** Visiting `k` strips it and changes no other node. */
  lemma StripStep(now: Nodes, ns: Nodes, id: string, done: set<string>, k: string)
    requires now.Keys == ns.Keys && k in now
    requires forall j :: j in now ==> now[j] == StripIfDone(ns, id, done, j)
    ensures var next := if k != id then now[k := now[k].(edges := now[k].edges - {id})] else now;
      next.Keys == ns.Keys && forall j :: j in next ==> next[j] == StripIfDone(ns, id, done + {k}, j)
  {
  }

  /** Removal is keyed by id: with the id absent the edge filtering of the
      loop changes nothing in a graph that keeps its invariant. */
  lemma StrippedAbsent(now: Nodes, ns: Nodes, id: string, done: set<string>)
    requires Closed(ns) && id !in ns && now.Keys == ns.Keys
    requires forall k :: k in now ==> k in done && now[k] == StripIfDone(ns, id, done, k)
    ensures now == ns
  {
    forall k | k in ns ensures now[k] == ns[k] {
      assert ns[k].edges - {id} == ns[k].edges;
    }
  }

  /** Once every node has been visited, dropping `id` leaves `DeleteNode`. */
  lemma StrippedPresent(now: Nodes, ns: Nodes, id: string, done: set<string>)
    requires now.Keys == ns.Keys
    requires forall k :: k in now ==> k in done && now[k] == StripIfDone(ns, id, done, k)
    ensures (map k | k in now && k != id :: now[k]) == DeleteNode(ns, id)
  {
  }

  /** The ids whose `label` attribute is `l`. */
  function LabelMatches(ns: Nodes, l: string): set<string> {
    set k | k in ns && "label" in ns[k].attributes && ns[k].attributes["label"] == l
  }

  /** Every node carries a `label`: reading `attributes['label']` cannot fail. */
  predicate AllLabelled(ns: Nodes) {
    forall k :: k in ns ==> "label" in ns[k].attributes
  }

  /** Why `getNodeByLabel` fails: a node without a label (the dictionary
      lookup raises), or a second match (the assertion). */
  datatype LookupError = MissingLabel(id: string) | AmbiguousLabel(first: string, second: string)

  /** Why `addEdge` and `removeNode` fail. */
  datatype GraphError = MissingEndpoint | MissingNode

  class DirectedGraph {
    var name: Option<string>
    var nodes: Nodes

    ghost predicate Valid()
      reads this
    {
      Closed(nodes)
    }

    /** `DirectedGraph(name)` with no nodes. */
    constructor (name: Option<string>)
      ensures Valid() && this.name == name && nodes == map[]
    {
      this.name := name;
      nodes := map[];
    }

    method SetName(n: string)
      requires Valid()
      modifies this
      ensures Valid() && name == Some(n) && nodes == old(nodes)
    {
      name := Some(n);
    }

    /** `getNode(id)`: the node with that id, or None. */
    function GetNode(id: string): (r: Option<NodeRec>)
      reads this
      ensures r.Some? <==> id in nodes
      ensures r.Some? ==> r.value == nodes[id]
    {
      if id in nodes then Some(nodes[id]) else None
    }

    /** `getNodeByLabel(l)`: walks every node, reading its `label`; the id of
        the one match, None without a match, an error for a second match or a
        node without a label. */
    method GetNodeByLabel(l: string) returns (r: Result<Option<string>, LookupError>)
      ensures r.Success? <==> AllLabelled(nodes) && forall a, b :: a in LabelMatches(nodes, l) && b in LabelMatches(nodes, l) ==> a == b
      ensures r == Success(None) <==> AllLabelled(nodes) && LabelMatches(nodes, l) == {}
      ensures forall k :: r == Success(Some(k)) <==> AllLabelled(nodes) && LabelMatches(nodes, l) == {k}
      ensures r.Failure? && r.error.MissingLabel? ==> r.error.id in nodes && "label" !in nodes[r.error.id].attributes
      ensures r.Failure? && r.error.AmbiguousLabel? ==>
        r.error.first != r.error.second && r.error.first in LabelMatches(nodes, l) && r.error.second in LabelMatches(nodes, l)
    {
      var found: Option<string> := None;
      var remaining := nodes.Keys;
      while remaining != {}
        invariant remaining <= nodes.Keys
        invariant forall k :: k in nodes && k !in remaining ==> "label" in nodes[k].attributes
        invariant found == None ==> forall k :: k in LabelMatches(nodes, l) ==> k in remaining
        invariant found.Some? ==> found.value in LabelMatches(nodes, l) && found.value !in remaining
        invariant found.Some? ==> forall k :: k in LabelMatches(nodes, l) && k !in remaining ==> k == found.value
        decreases |remaining|
      {
        var k :| k in remaining;
        if "label" !in nodes[k].attributes {
          assert !AllLabelled(nodes);
          return Failure(MissingLabel(k));
        }
        if nodes[k].attributes["label"] == l {
          assert k in LabelMatches(nodes, l);
          if found.Some? {
            assert found.value != k;
            return Failure(AmbiguousLabel(found.value, k));
          }
          found := Some(k);
        }
        remaining := remaining - {k};
      }
      r := Success(found);
    }

    /** `addEdge(src, dst)`: both ends must be nodes of the graph (an
        assertion otherwise, reported here as `MissingEndpoint` with nothing
        changed); then `dst` joins `src`'s edge set. */
    method AddEdge(src: string, dst: string) returns (r: Result<(), GraphError>)
      requires Valid()
      modifies this
      ensures Valid() && name == old(name)
      ensures r.Success? <==> src in old(nodes) && dst in old(nodes)
      ensures r.Success? ==> nodes == InsertEdge(old(nodes), src, dst)
      ensures r.Failure? ==> r.error == MissingEndpoint && nodes == old(nodes)
    {
      if src !in nodes || dst !in nodes {
        return Failure(MissingEndpoint);
      }
      InsertEdgeProperties(nodes, src, dst);
      nodes := InsertEdge(nodes, src, dst);
      r := Success(());
    }

    /** `addNode(Node(id, attributes=attrs))`. */
    method AddNode(id: string, attrs: map<string, string>)
      requires Valid()
      modifies this
      ensures Valid() && name == old(name)
      ensures nodes == InsertNode(old(nodes), id, attrs)
    {
      InsertNodeProperties(nodes, id, attrs);
      nodes := InsertNode(nodes, id, attrs);
    }

    /** `removeNode(id)`: strips `id` from every other node's edge set, then
        removes the node; an absent id raises (`MissingNode`) and leaves the
        graph as it was. */
    method RemoveNode(id: string) returns (r: Result<(), GraphError>)
      requires Valid()
      modifies this
      ensures Valid() && name == old(name)
      ensures r.Success? <==> id in old(nodes)
      ensures r.Success? ==> nodes == DeleteNode(old(nodes), id)
      ensures r.Failure? ==> r.error == MissingNode && nodes == old(nodes)
    {
      ghost var before := nodes;
      ghost var done: set<string> := {};
      var ids := Enumerate(nodes.Keys);
      var i := 0;
      while i < |ids|
        invariant 0 <= i <= |ids|
        invariant nodes.Keys == before.Keys && name == old(name)
        invariant forall j :: 0 <= j < i ==> ids[j] in done
        invariant forall k :: k in nodes ==> nodes[k] == StripIfDone(before, id, done, k)
      {
        var k := ids[i];
        StripStep(nodes, before, id, done, k);
        if k != id {
          nodes := nodes[k := nodes[k].(edges := nodes[k].edges - {id})];
        }
        done := done + {k};
        i := i + 1;
      }
      forall k | k in nodes ensures k in done {
        var j :| 0 <= j < |ids| && ids[j] == k;
      }
      if id !in nodes {
        StrippedAbsent(nodes, before, id, done);
        return Failure(MissingNode);
      }
      DeleteNodeProperties(before, id);
      StrippedPresent(nodes, before, id, done);
      nodes := map k | k in nodes && k != id :: nodes[k];
      r := Success(());
    }
  }
}
