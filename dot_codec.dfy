/** The classes that write and read the DOT subset: `DotEmitter`, which
    collects one string per node and per edge and assembles the document,
    `DotReader`, which walks the stripped lines with a cursor while filling a
    `DirectedGraph`, and `toDot`/`fromDot`, which drive them. Each is proved
    against the functions of `Dot`. */
module DotCodec {
  import opened Wrappers
  import opened Text
  import opened Order
  import opened Graph
  import opened Dot

  /** `[node_strings[k] for k in sorted_keys]`. */
  function Pick(m: map<string, string>, ks: seq<string>): (r: seq<string>)
    requires forall k :: k in ks ==> k in m
    ensures |r| == |ks|
  {
    if ks == [] then [] else [m[ks[0]]] + Pick(m, ks[1..])
  }

  /** The template of `emit` before its `strip()`: a line break, the
      introducer, the two indented blocks, the closing brace and four
      trailing spaces with a line break. */
  function Template(name: string, nodeDefinitions: string, edgeList: string): string {
    "\n" + (Header(name) + "\n" + (("  " + nodeDefinitions) + "\n" + (("  " + edgeList) + "\n" + "}"))) + "    \n"
  }

  /** Stripping the template leaves the document: it starts with the
      introducer and ends with the closing brace. */
  lemma TemplateStrip(name: string, nl: seq<string>, el: seq<string>)
    ensures Strip(Template(name, Join(nl, "\n  "), Join(el, "\n  "))) == Document(name, nl, el)
  {
    var d := Document(name, nl, el);
    assert Template(name, Join(nl, "\n  "), Join(el, "\n  ")) == "\n" + d + "    \n";
    var tail := Block(nl) + "\n" + (Block(el) + "\n" + "}");
    assert d == (Header(name) + "\n") + tail;
    assert d[0] == (Header(name) + "\n")[0] == 'd';
    assert d[|d| - 1] == tail[|tail| - 1] == '}';
    AllSpaceByIndex("\n");
    AllSpaceByIndex("    \n");
    StripPadded("\n", d, "    \n");
  }

  class DotEmitter {
    var name: Option<string>
    var nodeStrings: map<string, string>
    var edgeStrings: seq<string>

    constructor (name: Option<string>)
      ensures this.name == name && nodeStrings == map[] && edgeStrings == []
    {
      this.name := name;
      nodeStrings := map[];
      edgeStrings := [];
    }

    /** `addNode(node)`: the node's line, its attributes in the order the
        dictionary yields them; an id may be added once. */
    method AddNode(id: string, attrs: map<string, string>) returns (ghost order: seq<string>)
      requires id !in nodeStrings
      modifies this
      ensures IsListing(order, attrs.Keys)
      ensures nodeStrings == old(nodeStrings)[id := NodeLine(id, attrs, order)]
      ensures name == old(name) && edgeStrings == old(edgeStrings)
    {
      var keys := Enumerate(attrs.Keys);
      order := keys;
      var res := id;
      if |attrs| > 0 {
        var attrStrs := AttrTexts(attrs, keys);
        res := res + " [ " + Join(attrStrs, ", ") + " ]";
      }
      res := res + ";";
      nodeStrings := nodeStrings[id := res];
    }

    /** `addEdge(n1, n2)`. */
    method AddEdge(src: string, dst: string)
      modifies this
      ensures edgeStrings == old(edgeStrings) + [EdgeLine(src, dst)]
      ensures name == old(name) && nodeStrings == old(nodeStrings)
    {
      edgeStrings := edgeStrings + [src + " -> " + dst + ";"];
    }

    /** `emit()`: the node strings by ascending id, then the edge strings,
        inside the stripped template. */
    method Emit() returns (text: string, ghost ids: seq<string>)
      ensures StrictlyAscending(ids) && IsListing(ids, nodeStrings.Keys)
      ensures text == Document(NameText(name), Pick(nodeStrings, ids), edgeStrings)
    {
      var sortedKeys := SortIds(nodeStrings.Keys);
      ids := sortedKeys;
      var nodeDefinitions := Join(Pick(nodeStrings, sortedKeys), "\n  ");
      var edgeList := Join(edgeStrings, "\n  ");
      TemplateStrip(NameText(name), Pick(nodeStrings, sortedKeys), edgeStrings);
      text := Strip(Template(NameText(name), nodeDefinitions, edgeList));
    }
  }

  // ------------------------------------------------------------------ toDot

  /** The edge pairs collected once the nodes of `done` have been visited:
      each pair once, exactly the edges leaving `done`. */
  ghost predicate PairsOf(ns: Nodes, done: seq<string>, pairs: seq<(string, string)>) {
    && (forall a, b :: 0 <= a < b < |pairs| ==> pairs[a] != pairs[b])
    && (forall p :: p in pairs ==> p.0 in done && p.0 in ns && p.1 in ns[p.0].edges)
    && (forall k, d :: k in done && k in ns && d in ns[k].edges ==> (k, d) in pairs)
  }

  /** The node strings collected once the nodes of `done` have been visited. */
  ghost predicate LinesOf(ns: Nodes, done: seq<string>, ao: map<string, seq<string>>, strs: map<string, string>) {
    && (forall k :: k in strs <==> k in done)
    && forall k :: k in done ==>
         k in ns && k in ao && IsListing(ao[k], ns[k].attributes.Keys) && strs[k] == NodeLine(k, ns[k].attributes, ao[k])
  }

  lemma EdgeLinesSnoc(pairs: seq<(string, string)>, p: (string, string))
    ensures EdgeLines(pairs + [p]) == EdgeLines(pairs) + [EdgeLine(p.0, p.1)]
    decreases |pairs|
  {
    if pairs != [] {
      assert (pairs + [p])[1..] == pairs[1..] + [p];
      EdgeLinesSnoc(pairs[1..], p);
    }
  }

  /** Picking the node strings in a listing of the ids gives the node lines
      of that listing. */
  lemma {:induction false} PickNodeLines(ns: Nodes, done: seq<string>, ao: map<string, seq<string>>, strs: map<string, string>, ids: seq<string>)
    requires LinesOf(ns, done, ao, strs) && forall k :: k in ids ==> k in done
    ensures Renderable(ns, ids, ao) && Pick(strs, ids) == NodeLines(ns, ids, ao)
  {
    if ids != [] {
      PickNodeLines(ns, done, ao, strs, ids[1..]);
    }
  }

  /** Adding node `k`'s line keeps the node strings in step. */
  lemma LinesStep(ns: Nodes, done: seq<string>, ao: map<string, seq<string>>, strs: map<string, string>, k: string, order: seq<string>)
    requires LinesOf(ns, done, ao, strs) && k in ns && k !in done
    requires IsListing(order, ns[k].attributes.Keys)
    ensures LinesOf(ns, done + [k], ao[k := order], strs[k := NodeLine(k, ns[k].attributes, order)])
  {
  }

  /** The pairs `(k, d)` for the destinations `ds`, in order. */
  function Outgoing(k: string, ds: seq<string>): (r: seq<(string, string)>)
    ensures |r| == |ds|
  {
    if ds == [] then [] else [(k, ds[0])] + Outgoing(k, ds[1..])
  }

  lemma {:induction false} OutgoingAt(k: string, ds: seq<string>, i: int)
    requires 0 <= i < |ds|
    ensures Outgoing(k, ds)[i] == (k, ds[i])
  {
    if i > 0 {
      OutgoingAt(k, ds[1..], i - 1);
    }
  }

  lemma {:induction false} OutgoingSnoc(k: string, ds: seq<string>, d: string)
    ensures Outgoing(k, ds + [d]) == Outgoing(k, ds) + [(k, d)]
  {
    if ds != [] {
      assert (ds + [d])[1..] == ds[1..] + [d];
      OutgoingSnoc(k, ds[1..], d);
    }
  }

  /** Appending the pairs of a listing of `k`'s edges extends the pairs of
      `done` to those of `done + [k]`. */
  lemma PairsAdd(ns: Nodes, done: seq<string>, k: string, dests: seq<string>, pairs: seq<(string, string)>)
    requires PairsOf(ns, done, pairs) && k in ns && k !in done && IsListing(dests, ns[k].edges)
    ensures PairsOf(ns, done + [k], pairs + Outgoing(k, dests))
  {
    var out := Outgoing(k, dests);
    var all := pairs + out;
    forall h | 0 <= h < |out| ensures out[h] == (k, dests[h]) {
      OutgoingAt(k, dests, h);
    }
    forall a, b | 0 <= a < b < |all| ensures all[a] != all[b] {
      if b >= |pairs| && a < |pairs| {
        assert pairs[a] in pairs;
      }
    }
    forall p | p in all ensures p.0 in done + [k] && p.0 in ns && p.1 in ns[p.0].edges {
      if p !in pairs {
        var h :| 0 <= h < |out| && out[h] == p;
      }
    }
    forall k', d | k' in done + [k] && k' in ns && d in ns[k'].edges ensures (k', d) in all {
      if k' == k && k' !in done {
        var h :| 0 <= h < |dests| && dests[h] == d;
        assert all[|pairs| + h] == (k, d);
      }
    }
  }

  lemma {:induction false} EdgeLinesAppend(a: seq<(string, string)>, b: seq<(string, string)>)
    ensures EdgeLines(a + b) == EdgeLines(a) + EdgeLines(b)
  {
    if a == [] {
      assert a + b == b;
    } else {
      assert (a + b)[0] == a[0] && (a + b)[1..] == a[1..] + b;
      EdgeLinesAppend(a[1..], b);
      assert ([EdgeLine(a[0].0, a[0].1)] + EdgeLines(a[1..])) + EdgeLines(b) == [EdgeLine(a[0].0, a[0].1)] + (EdgeLines(a[1..]) + EdgeLines(b));
    }
  }

  /** One more destination adds one edge line. */
  lemma OutgoingLinesSnoc(before: seq<string>, k: string, dests: seq<string>, j: int)
    requires 0 <= j < |dests|
    ensures before + EdgeLines(Outgoing(k, dests[..j + 1])) == (before + EdgeLines(Outgoing(k, dests[..j]))) + [EdgeLine(k, dests[j])]
  {
    assert dests[..j + 1] == dests[..j] + [dests[j]];
    OutgoingSnoc(k, dests[..j], dests[j]);
    EdgeLinesSnoc(Outgoing(k, dests[..j]), (k, dests[j]));
    assert before + (EdgeLines(Outgoing(k, dests[..j])) + [EdgeLine(k, dests[j])]) == (before + EdgeLines(Outgoing(k, dests[..j]))) + [EdgeLine(k, dests[j])];
  }

  /** One round of `toDot()`'s outer loop: node `k`'s line, then a line per
      edge leaving `k`, in the order of set iteration (returned as `dests`). */
  method EmitNode(dot: DotEmitter, k: string, n: NodeRec) returns (ghost order: seq<string>, ghost dests: seq<string>)
    requires k !in dot.nodeStrings
    modifies dot
    ensures IsListing(order, n.attributes.Keys) && IsListing(dests, n.edges)
    ensures dot.nodeStrings == old(dot.nodeStrings)[k := NodeLine(k, n.attributes, order)]
    ensures dot.edgeStrings == old(dot.edgeStrings) + EdgeLines(Outgoing(k, dests))
    ensures dot.name == old(dot.name)
  {
    order := dot.AddNode(k, n.attributes);
    ghost var lines := dot.nodeStrings;
    ghost var before := dot.edgeStrings;
    var out := Enumerate(n.edges);
    dests := out;
    assert out[..0] == [];
    assert before + [] == before;
    for j := 0 to |out|
      invariant dot.name == old(dot.name) && dot.nodeStrings == lines
      invariant dot.edgeStrings == before + EdgeLines(Outgoing(k, out[..j]))
    {
      OutgoingLinesSnoc(before, k, out, j);
      dot.AddEdge(k, out[j]);
    }
    assert out[..|out|] == out;
  }

  /** `toDot()`: every node's line and, after it, a line per edge leaving it,
      over the nodes and edges in the order of set iteration; the layout it
      picks is returned beside the text. */
  method ToDot(g: DirectedGraph) returns (text: string, ghost lay: Layout)
    ensures IsLayout(g.nodes, lay) && text == DotText(g.name, g.nodes, lay)
  {
    var dot := new DotEmitter(g.name);
    var ns := g.nodes;
    var ids := Enumerate(ns.Keys);
    ghost var ao: map<string, seq<string>> := map[];
    ghost var pairs: seq<(string, string)> := [];
    for i := 0 to |ids|
      invariant dot.name == g.name
      invariant LinesOf(ns, ids[..i], ao, dot.nodeStrings)
      invariant PairsOf(ns, ids[..i], pairs) && dot.edgeStrings == EdgeLines(pairs)
    {
      ghost var strs := dot.nodeStrings;
      ListingFresh(ids, ns.Keys, i);
      ghost var order, dests := EmitNode(dot, ids[i], ns[ids[i]]);
      VisitStep(ns, ids, i, ao, strs, pairs, order, dests);
      ao := ao[ids[i] := order];
      pairs := pairs + Outgoing(ids[i], dests);
    }
    assert ids[..|ids|] == ids;
    ghost var sorted;
    text, sorted := dot.Emit();
    lay := Layout(sorted, ao, pairs);
    LayoutOf(ns, ids, dot.nodeStrings, lay);
  }

  /** The bookkeeping of one round of `toDot()`'s loop. */
  lemma VisitStep(ns: Nodes, ids: seq<string>, i: int, ao: map<string, seq<string>>, strs: map<string, string>,
                  pairs: seq<(string, string)>, order: seq<string>, dests: seq<string>)
    requires 0 <= i < |ids| && ids[i] in ns && ids[i] !in ids[..i]
    requires LinesOf(ns, ids[..i], ao, strs) && PairsOf(ns, ids[..i], pairs)
    requires IsListing(order, ns[ids[i]].attributes.Keys) && IsListing(dests, ns[ids[i]].edges)
    ensures LinesOf(ns, ids[..i + 1], ao[ids[i] := order], strs[ids[i] := NodeLine(ids[i], ns[ids[i]].attributes, order)])
    ensures PairsOf(ns, ids[..i + 1], pairs + Outgoing(ids[i], dests))
    ensures EdgeLines(pairs + Outgoing(ids[i], dests)) == EdgeLines(pairs) + EdgeLines(Outgoing(ids[i], dests))
  {
    assert ids[..i + 1] == ids[..i] + [ids[i]];
    LinesStep(ns, ids[..i], ao, strs, ids[i], order);
    PairsAdd(ns, ids[..i], ids[i], dests, pairs);
    EdgeLinesAppend(pairs, Outgoing(ids[i], dests));
  }

  /** Once every node has been visited, the emitter's sorted ids, the
      attribute orders and the edge pairs form a layout of the graph, and
      the node strings picked by id are that layout's node lines. */
  lemma LayoutOf(ns: Nodes, ids: seq<string>, strs: map<string, string>, lay: Layout)
    requires IsListing(ids, ns.Keys) && LinesOf(ns, ids, lay.attrOrder, strs) && PairsOf(ns, ids, lay.edgeOrder)
    requires StrictlyAscending(lay.ids) && IsListing(lay.ids, strs.Keys)
    ensures IsLayout(ns, lay)
    ensures Renderable(ns, lay.ids, lay.attrOrder) && Pick(strs, lay.ids) == NodeLines(ns, lay.ids, lay.attrOrder)
  {
    PickNodeLines(ns, ids, lay.attrOrder, strs, lay.ids);
    forall p | p in EdgePairs(ns) ensures p in lay.edgeOrder {
      assert p.0 in ns && p.1 in ns[p.0].edges;
    }
  }

  // ---------------------------------------------------------------- fromDot

  /** What a parse reports, with the graph it returns read as a value. */
  function Outcome(r: Result<DirectedGraph, ParseError>, v: GraphValue): Result<GraphValue, ParseError> {
    if r.Success? then Success(v) else Failure(r.error)
  }

  /** What one statement line did, with the graph read as a value: not a
      statement, an abort, or a graph extended. */
  function Stepped(r: Result<bool, ParseError>, v: GraphValue): Option<Result<GraphValue, ParseError>> {
    match r
    case Success(isStatement) => if isStatement then Some(Success(v)) else None
    case Failure(e) => Some(Failure(e))
  }

  class DotReader {
    var graph: DirectedGraph

    ghost predicate Valid()
      reads this, graph
    {
      graph.Valid()
    }

    /** A reader starts with an empty, nameless graph. */
    constructor ()
      ensures Valid() && fresh(graph) && graph.name == None && graph.nodes == map[]
    {
      graph := new DirectedGraph(None);
    }

    /** `parseIntroducer(l)`: on a match the graph takes the quoted name. */
    method ParseIntroducer(l: string) returns (ok: bool)
      requires Valid()
      modifies graph
      ensures Valid() && graph.nodes == old(graph.nodes)
      ensures ok <==> MatchIntroducer(l).Some?
      ensures graph.name == if ok then MatchIntroducer(l) else old(graph.name)
    {
      var m := MatchIntroducer(l);
      if m.None? {
        return false;
      }
      graph.SetName(m.value);
      ok := true;
    }

    /** `parseAttributes(raw)`: the chunks between commas, each of which must
        match the attribute pattern, later keys overriding earlier ones. */
    method ParseAttributes(raw: string) returns (r: Result<map<string, string>, ParseError>)
      ensures r == Dot.ParseAttributes(raw)
    {
      var parts := AttributeParts(raw);
      var dict: map<string, string> := map[];
      for i := 0 to |parts|
        invariant CollectAttributes(parts, map[]) == CollectAttributes(parts[i..], dict)
      {
        assert parts[i..][1..] == parts[i + 1..];
        var m := MatchAttribute(parts[i]);
        if m.None? {
          return Failure(BadAttribute(parts[i]));
        }
        dict := dict[m.value.0 := m.value.1];
      }
      assert parts[|parts|..] == [];
      r := Success(dict);
    }

    /** `parseNodeDefinition(l)`: false when the line is no node statement;
        otherwise the attributes are read (a bad chunk aborts) and the node
        added. */
    method ParseNodeDefinition(l: string) returns (r: Result<bool, ParseError>)
      requires Valid()
      modifies graph
      ensures Valid() && graph.name == old(graph.name)
      ensures MatchNode(l).None? ==> r == Success(false) && graph.nodes == old(graph.nodes)
      ensures MatchNode(l).Some? && Dot.ParseAttributes(MatchNode(l).value.1).Failure? ==>
        r == Failure(Dot.ParseAttributes(MatchNode(l).value.1).error) && graph.nodes == old(graph.nodes)
      ensures MatchNode(l).Some? && Dot.ParseAttributes(MatchNode(l).value.1).Success? ==>
        r == Success(true)
        && graph.nodes == InsertNode(old(graph.nodes), MatchNode(l).value.0, Dot.ParseAttributes(MatchNode(l).value.1).value)
    {
      var m := MatchNode(l);
      if m.None? {
        return Success(false);
      }
      var attributes := ParseAttributes(m.value.1);
      if attributes.Failure? {
        return Failure(attributes.error);
      }
      graph.AddNode(m.value.0, attributes.value);
      r := Success(true);
    }

    /** `parseEdgeDefinition(l)`: false when the line is no edge statement;
        otherwise the edge is added, and an undeclared end aborts. */
    method ParseEdgeDefinition(l: string) returns (r: Result<bool, ParseError>)
      requires Valid()
      modifies graph
      ensures Valid() && graph.name == old(graph.name)
      ensures MatchEdge(l).None? ==> r == Success(false) && graph.nodes == old(graph.nodes)
      ensures MatchEdge(l).Some? ==> var (a, b) := MatchEdge(l).value;
        if a in old(graph.nodes) && b in old(graph.nodes)
        then r == Success(true) && graph.nodes == InsertEdge(old(graph.nodes), a, b)
        else r == Failure(UnknownEndpoint(a, b)) && graph.nodes == old(graph.nodes)
    {
      var m := MatchEdge(l);
      if m.None? {
        return Success(false);
      }
      var added := graph.AddEdge(m.value.0, m.value.1);
      if added.Failure? {
        return Failure(UnknownEndpoint(m.value.0, m.value.1));
      }
      r := Success(true);
    }

    /** The condition of `parse`'s loop,
        `parseNodeDefinition(l) or parseEdgeDefinition(l)`. */
    method ParseStatement(l: string) returns (r: Result<bool, ParseError>)
      requires Valid()
      modifies graph
      ensures Valid()
      ensures graph == old(graph)
      ensures Stepped(r, GraphValue(graph.name, graph.nodes)) == Statement(l, old(GraphValue(graph.name, graph.nodes)))
      ensures r == Success(false) ==> graph.name == old(graph.name) && graph.nodes == old(graph.nodes)
    {
      r := ParseNodeDefinition(l);
      if r.Success? && !r.value {
        r := ParseEdgeDefinition(l);
      }
    }

    /** `parse(data)`: the introducer, then node and edge statements while
        they match, then the closer. */
    method Parse(data: string) returns (r: Result<DirectedGraph, ParseError>)
      requires Valid()
      modifies graph
      ensures Valid()
      ensures Outcome(r, GraphValue(graph.name, graph.nodes)) == ParseInto(data, old(GraphValue(graph.name, graph.nodes)))
      ensures r.Success? ==> r.value == graph
    {
      var lines := Lines(data);
      if |lines| == 0 {
        return Failure(NoInput);
      }
      var ok := ParseIntroducer(lines[0]);
      if !ok {
        return Failure(BadIntroducer);
      }
      r := ParseStatements(lines, 1);
    }

    /** The rest of `parse` from line `idx` on: the loop over the statements
        and the check for the closer. */
    method ParseStatements(lines: seq<string>, idx: nat) returns (r: Result<DirectedGraph, ParseError>)
      requires Valid() && idx <= |lines|
      modifies graph
      ensures Valid()
      ensures Outcome(r, GraphValue(graph.name, graph.nodes)) == Scan(lines[idx..], old(GraphValue(graph.name, graph.nodes)))
      ensures r.Success? ==> r.value == graph
    {
      var g := graph;
      ghost var spec := Scan(lines[idx..], GraphValue(g.name, g.nodes));
      var idx := idx;
      while idx < |lines|
        invariant idx <= |lines| && graph == g && g.Valid()
        invariant Scan(lines[idx..], GraphValue(g.name, g.nodes)) == spec
      {
        ghost var here := GraphValue(g.name, g.nodes);
        var statement := ParseStatement(lines[idx]);
        ScanLine(lines, idx, here, statement, GraphValue(g.name, g.nodes));
        if statement.Failure? {
          return Failure(statement.error);
        }
        if !statement.value {
          break;
        }
        idx := idx + 1;
      }
      ScanRest(lines, idx, GraphValue(g.name, g.nodes));
      if idx == |lines| || !IsCloser(lines[idx]) {
        return Failure(MissingCloser);
      }
      r := Success(graph);
    }
  }

  /** `Scan` at line `idx`, given what the statement there did: the abort,
      the rest of the lines from the extended graph, or the closer check. */
  lemma ScanLine(lines: seq<string>, idx: nat, v: GraphValue, r: Result<bool, ParseError>, v': GraphValue)
    requires idx < |lines| && Stepped(r, v') == Statement(lines[idx], v)
    requires r == Success(false) ==> v' == v
    ensures r.Failure? ==> Scan(lines[idx..], v) == Failure(r.error)
    ensures r == Success(true) ==> Scan(lines[idx..], v) == Scan(lines[idx + 1..], v')
    ensures r == Success(false) ==> Scan(lines[idx..], v') == if IsCloser(lines[idx]) then Success(v') else Failure(MissingCloser)
  {
    assert lines[idx..][0] == lines[idx] && lines[idx..][1..] == lines[idx + 1..];
  }

  /** `Scan` where the loop stops: past the last line the closer is missing. */
  lemma ScanRest(lines: seq<string>, idx: nat, v: GraphValue)
    requires idx <= |lines|
    ensures idx == |lines| ==> Scan(lines[idx..], v) == Failure(MissingCloser)
  {
    if idx == |lines| {
      assert lines[idx..] == [];
    }
  }

  /** `DirectedGraph.fromDot(data)`: a fresh reader's parse. */
  method FromDot(data: string) returns (r: Result<DirectedGraph, ParseError>)
    ensures r.Success? <==> ParseText(data).Success?
    ensures r.Success? ==> fresh(r.value) && r.value.Valid() && GraphValue(r.value.name, r.value.nodes) == ParseText(data).value
    ensures r.Failure? ==> r.error == ParseText(data).error
  {
    var reader := new DotReader();
    r := reader.Parse(data);
  }
}
