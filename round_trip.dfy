/** Reading back what `toDot` writes: for a graph whose name, ids, keys and
    values survive the format, `fromDot(toDot(g))` rebuilds `g` exactly, in
    every layout the emitter may choose. */
module RoundTrip {
  import opened Wrappers
  import opened Text
  import opened Order
  import opened Graph
  import opened Dot
  import opened DotLemmas

  /** A name the introducer pattern reads back: non-empty, no quote, no line
      boundary. */
  predicate NameSurvives(n: string) {
    n != [] && Avoids(n, {'"'} + LineBreaks)
  }

  /** A value the attribute pattern reads back: non-empty, and none of the
      quote that ends it, the comma that separates chunks, the bracket that
      ends a node body or a line boundary. */
  predicate ValueSurvives(v: string) {
    v != [] && Avoids(v, {'"', ',', ']'} + LineBreaks)
  }

  /** Word-character keys with surviving values, and at least one of them: a
      node without attributes is written as `id;`, which no pattern reads. */
  predicate AttributesSurvive(attrs: map<string, string>) {
    |attrs| > 0 && forall k :: k in attrs ==> IsWord(k) && ValueSurvives(attrs[k])
  }

  predicate RoundTrippable(name: Option<string>, ns: Nodes) {
    && name.Some? && NameSurvives(name.value) && Closed(ns)
    && forall k :: k in ns ==> IsWord(k) && AttributesSurvive(ns[k].attributes)
  }

  // ------------------------------------------------------ the rendered lists

  lemma {:induction false} AttrTextsAt(attrs: map<string, string>, order: seq<string>, i: nat)
    requires (forall k :: k in order ==> k in attrs) && i < |order|
    ensures AttrTexts(attrs, order)[i] == AttrText(order[i], attrs[order[i]])
  {
    if i > 0 {
      AttrTextsAt(attrs, order[1..], i - 1);
    }
  }

  lemma {:induction false} NodeLinesAt(ns: Nodes, ids: seq<string>, ao: map<string, seq<string>>, i: nat)
    requires Renderable(ns, ids, ao) && i < |ids|
    ensures NodeLines(ns, ids, ao)[i] == NodeLine(ids[i], ns[ids[i]].attributes, ao[ids[i]])
  {
    if i > 0 {
      NodeLinesAt(ns, ids[1..], ao, i - 1);
    }
  }

  lemma {:induction false} EdgeLinesAt(pairs: seq<(string, string)>, i: nat)
    requires i < |pairs|
    ensures EdgeLines(pairs)[i] == EdgeLine(pairs[i].0, pairs[i].1)
  {
    if i > 0 {
      EdgeLinesAt(pairs[1..], i - 1);
    }
  }

  // ------------------------------------------------------------ one line

  /** The fixed pieces of the emitted text hold no line boundary, and those
      of an attribute string no comma or closing bracket. */
  lemma LiteralsAvoid()
    ensures Avoids("digraph \"", LineBreaks) && Avoids("\" {", LineBreaks)
    ensures Avoids(" [ ", LineBreaks) && Avoids(" ]", LineBreaks) && Avoids(" -> ", LineBreaks) && Avoids(";", LineBreaks)
    ensures Avoids("=\"", {',', ']'} + LineBreaks) && Avoids("\"", {',', ']'} + LineBreaks)
    ensures Avoids(", ", {']'} + LineBreaks) && Avoids(" ", {']'} + LineBreaks)
  {
    AvoidsByIndex("digraph \"", LineBreaks);
    AvoidsByIndex("\" {", LineBreaks);
    AvoidsByIndex(" [ ", LineBreaks);
    AvoidsByIndex(" ]", LineBreaks);
    AvoidsByIndex(" -> ", LineBreaks);
    AvoidsByIndex(";", LineBreaks);
    AvoidsByIndex("=\"", {',', ']'} + LineBreaks);
    AvoidsByIndex("\"", {',', ']'} + LineBreaks);
    AvoidsByIndex(", ", {']'} + LineBreaks);
    AvoidsByIndex(" ", {']'} + LineBreaks);
  }

  lemma AttrTextToken(k: string, v: string)
    requires IsWord(k) && ValueSurvives(v)
    ensures IsToken(AttrText(k, v), {','})
  {
    LiteralsAvoid();
    assert AttrText(k, v)[0] == k[0] && k[0] in k;
  }

  lemma AttrTextAvoids(k: string, v: string)
    requires IsWord(k) && ValueSurvives(v)
    ensures Avoids(AttrText(k, v), {']'} + LineBreaks)
  {
    LiteralsAvoid();
  }

  lemma AttrTextReadBack(k: string, v: string)
    requires IsWord(k) && ValueSurvives(v)
    ensures MatchAttribute(AttrText(k, v)) == Some((k, v))
  {
    MatchAttributeComplete([], k, v, []);
    AttrTextShape(k, v);
  }

  lemma AttrTextShape(k: string, v: string)
    ensures [] + (k + ("=\"" + (v + ("\"" + [])))) == AttrText(k, v)
  {
  }

  /** The chunks of a node body, read in the order they were written, give
      the dictionary the later chunks overriding the accumulated one. */
  lemma {:induction false} CollectAttrTexts(attrs: map<string, string>, order: seq<string>, acc: map<string, string>)
    requires forall k :: k in order ==> k in attrs && IsWord(k) && ValueSurvives(attrs[k])
    ensures var r := CollectAttributes(AttrTexts(attrs, order), acc);
      && r.Success?
      && (forall k :: k in r.value <==> k in acc || k in order)
      && forall k :: k in r.value ==> r.value[k] == if k in order then attrs[k] else acc[k]
  {
    if order != [] {
      var k0 := order[0];
      AttrTextReadBack(k0, attrs[k0]);
      var texts := [AttrText(k0, attrs[k0])] + AttrTexts(attrs, order[1..]);
      assert texts[0] == AttrText(k0, attrs[k0]) && texts[1..] == AttrTexts(attrs, order[1..]);
      CollectAttrTexts(attrs, order[1..], acc[k0 := attrs[k0]]);
      assert [order[0]] + order[1..] == order;
    }
  }

  /** The text between the brackets of a node line. */
  function NodeBody(attrs: map<string, string>, order: seq<string>): string
    requires forall k :: k in order ==> k in attrs
  {
    " " + Join(AttrTexts(attrs, order), ", ") + " "
  }

  lemma NodeBodyAvoids(attrs: map<string, string>, order: seq<string>)
    requires AttributesSurvive(attrs) && forall k :: k in order ==> k in attrs
    ensures Avoids(NodeBody(attrs, order), {']'} + LineBreaks)
  {
    var texts := AttrTexts(attrs, order);
    forall i | 0 <= i < |texts| ensures Avoids(texts[i], {']'} + LineBreaks) {
      AttrTextsAt(attrs, order, i);
      AttrTextAvoids(order[i], attrs[order[i]]);
    }
    LiteralsAvoid();
    JoinAvoids(texts, ", ", {']'} + LineBreaks);
  }

  /** Splitting the body at commas gives back the attribute strings. */
  lemma NodeBodyParts(attrs: map<string, string>, order: seq<string>)
    requires AttributesSurvive(attrs) && forall k :: k in order ==> k in attrs
    ensures AttributeParts(NodeBody(attrs, order)) == AttrTexts(attrs, order)
  {
    var texts := AttrTexts(attrs, order);
    forall x | x in texts ensures IsToken(x, {','}) {
      var i :| 0 <= i < |texts| && texts[i] == x;
      AttrTextsAt(attrs, order, i);
      AttrTextToken(order[i], attrs[order[i]]);
    }
    assert ", " == [','] + " ";
    PartsOfPaddedJoin(texts, ',', " ", " ", " ", {','});
  }

  /** Reading the attribute strings of a node, in any order that lists its
      keys, gives its dictionary. */
  lemma CollectAllAttrTexts(attrs: map<string, string>, order: seq<string>)
    requires AttributesSurvive(attrs) && IsListing(order, attrs.Keys)
    ensures CollectAttributes(AttrTexts(attrs, order), map[]) == Success(attrs)
  {
    CollectAttrTexts(attrs, order, map[]);
    var m := CollectAttributes(AttrTexts(attrs, order), map[]).value;
    assert m.Keys == attrs.Keys;
    assert m == attrs;
  }

  /** The body of a node line parses to the node's dictionary. */
  lemma NodeBodyReadBack(attrs: map<string, string>, order: seq<string>)
    requires AttributesSurvive(attrs) && IsListing(order, attrs.Keys)
    ensures ParseAttributes(NodeBody(attrs, order)) == Success(attrs)
  {
    NodeBodyParts(attrs, order);
    CollectAllAttrTexts(attrs, order);
  }

  lemma NodeLineShape(id: string, j: string)
    ensures id + " [ " + j + " ]" + ";" == [] + (id + (" " + ("[" + ((" " + j + " ") + ("]" + ([] + (";" + [])))))))
  {
    assert " [ " == " " + "[" + " " && " ]" == " " + "]";
  }

  /** A node line with attributes is read as the definition of that id with
      that body. */
  lemma NodeLineMatch(id: string, attrs: map<string, string>, order: seq<string>)
    requires IsWord(id) && AttributesSurvive(attrs) && forall k :: k in order ==> k in attrs
    ensures MatchNode(NodeLine(id, attrs, order)) == Some((id, NodeBody(attrs, order)))
  {
    var body := NodeBody(attrs, order);
    NodeBodyAvoids(attrs, order);
    NodeLineShape(id, Join(AttrTexts(attrs, order), ", "));
    MatchNodeComplete([], id, " ", body, [], []);
  }

  /** A node line with attributes is one line of the file. */
  lemma NodeLineToken(id: string, attrs: map<string, string>, order: seq<string>)
    requires IsWord(id) && AttributesSurvive(attrs) && forall k :: k in order ==> k in attrs
    ensures IsToken(NodeLine(id, attrs, order), LineBreaks)
  {
    var line := NodeLine(id, attrs, order);
    NodeBodyAvoids(attrs, order);
    LiteralsAvoid();
    assert line[0] == id[0] && id[0] in id;
    assert line[|line| - 1] == ';';
  }

  lemma EdgeLineToken(a: string, b: string)
    requires IsWord(a) && IsWord(b)
    ensures IsToken(EdgeLine(a, b), LineBreaks)
  {
    var line := EdgeLine(a, b);
    LiteralsAvoid();
    assert line[0] == a[0] && a[0] in a;
    assert line[|line| - 1] == ';';
  }

  lemma EdgeLineReadBack(a: string, b: string)
    requires IsWord(a) && IsWord(b)
    ensures MatchNode(EdgeLine(a, b)) == None && MatchEdge(EdgeLine(a, b)) == Some((a, b))
  {
    EdgeLineParts(a, b);
    MatchEdgeComplete([], a, " ", " ", b, []);
    EdgeLineIsNoNode(a, b);
  }

  lemma EdgeLineParts(a: string, b: string)
    ensures EdgeLine(a, b) == [] + (a + (" " + ("->" + (" " + (b + (";" + []))))))
  {
    assert " -> " == " " + "->" + " ";
  }

  // --------------------------------------------------------- the document

  lemma HeaderLines(name: string)
    requires NameSurvives(name)
    ensures Lines(Header(name)) == [Header(name)]
  {
    var h := Header(name);
    LiteralsAvoid();
    assert h == [] + h + [];
    assert h[|h| - 1] == '{';
    PaddedToken([], h, [], LineBreaks);
  }

  lemma HeaderReadBack(name: string)
    requires NameSurvives(name)
    ensures MatchIntroducer(Header(name)) == Some(name)
  {
    HeaderShape(name);
    MatchIntroducerComplete([], name, " ", []);
  }

  lemma HeaderShape(name: string)
    ensures Header(name) == [] + ("digraph \"" + (name + ("\"" + (" " + ("{" + [])))))
  {
    assert "\" {" == "\"" + " " + "{";
  }

  lemma CloserLines()
    ensures Lines("}") == ["}"]
  {
    assert "}" == [] + "}" + [];
    PaddedToken([], "}", [], LineBreaks);
  }

  /** The indented block of node lines or of edge lines. */
  lemma BlockLines(xs: seq<string>)
    requires forall x :: x in xs ==> IsToken(x, LineBreaks)
    ensures Lines(Block(xs)) == xs
  {
    assert "\n  " == ['\n'] + "  ";
    assert Block(xs) == "  " + Join(xs, ['\n'] + "  ") + [];
    AllSpaceByIndex("  ");
    AvoidsByIndex("  ", LineBreaks);
    PartsOfPaddedJoin(xs, '\n', "  ", "  ", [], LineBreaks);
  }

  /** The lines the reader sees in an emitted document: the header, each node
      line, each edge line and the closer. */
  lemma DocumentLines(name: string, nl: seq<string>, el: seq<string>)
    requires NameSurvives(name)
    requires forall x :: x in nl ==> IsToken(x, LineBreaks)
    requires forall x :: x in el ==> IsToken(x, LineBreaks)
    ensures Lines(Document(name, nl, el)) == [Header(name)] + (nl + (el + ["}"]))
  {
    var h := Header(name);
    var x := Block(nl);
    var y := Block(el);
    LinesAt(h, x + "\n" + (y + "\n" + "}"));
    LinesAt(x, y + "\n" + "}");
    LinesAt(y, "}");
    HeaderLines(name);
    CloserLines();
    BlockLines(nl);
    BlockLines(el);
  }

  // ---------------------------------------------------------- the reading

  /** The nodes declared by reading node lines for `ids` in turn. */
  function DeclareAll(m: Nodes, ns: Nodes, ids: seq<string>): Nodes
    requires forall k :: k in ids ==> k in ns
    decreases ids
  {
    if ids == [] then m
    else DeclareAll(InsertNode(m, ids[0], ns[ids[0]].attributes), ns, ids[1..])
  }

  /** Declaring keeps every node already there and adds each other id, with
      its attributes and no edge. */
  lemma {:induction false} DeclareAllResult(m: Nodes, ns: Nodes, ids: seq<string>)
    requires forall k :: k in ids ==> k in ns
    decreases ids
    ensures var r := DeclareAll(m, ns, ids);
      && (forall k :: k in r <==> k in m || k in ids)
      && forall k :: k in r ==> r[k] == if k in m then m[k] else NodeRec(ns[k].attributes, {})
  {
    if ids != [] {
      DeclareAllResult(InsertNode(m, ids[0], ns[ids[0]].attributes), ns, ids[1..]);
      assert ids == [ids[0]] + ids[1..];
    }
  }

  /** The edges added by reading edge lines for `pairs` in turn. */
  function AddEdges(m: Nodes, pairs: seq<(string, string)>): Nodes
    requires forall p :: p in pairs ==> p.0 in m
    decreases pairs
  {
    if pairs == [] then m
    else AddEdges(InsertEdge(m, pairs[0].0, pairs[0].1), pairs[1..])
  }

  /** Each node gains the targets of the pairs that start at it. */
  lemma {:induction false} AddEdgesResult(m: Nodes, pairs: seq<(string, string)>)
    requires forall p :: p in pairs ==> p.0 in m
    decreases pairs
    ensures var r := AddEdges(m, pairs);
      && r.Keys == m.Keys
      && (forall k :: k in r ==> r[k].attributes == m[k].attributes)
      && forall k, d :: k in r ==> (d in r[k].edges <==> d in m[k].edges || (k, d) in pairs)
  {
    if pairs != [] {
      var m' := InsertEdge(m, pairs[0].0, pairs[0].1);
      AddEdgesResult(m', pairs[1..]);
      assert pairs == [pairs[0]] + pairs[1..];
    }
  }

  /** One node definition read. */
  lemma ScanNodeStep(line: string, rest: seq<string>, g: GraphValue, id: string, attrs: map<string, string>)
    requires MatchNode(line).Some? && MatchNode(line).value.0 == id
    requires ParseAttributes(MatchNode(line).value.1) == Success(attrs)
    ensures Scan([line] + rest, g) == Scan(rest, g.(nodes := InsertNode(g.nodes, id, attrs)))
  {
    assert ([line] + rest)[0] == line && ([line] + rest)[1..] == rest;
  }

  /** One edge definition read between declared nodes. */
  lemma ScanEdgeStep(line: string, rest: seq<string>, g: GraphValue, a: string, b: string)
    requires MatchNode(line) == None && MatchEdge(line) == Some((a, b))
    requires a in g.nodes && b in g.nodes
    ensures Scan([line] + rest, g) == Scan(rest, g.(nodes := InsertEdge(g.nodes, a, b)))
  {
    assert ([line] + rest)[0] == line && ([line] + rest)[1..] == rest;
  }

  lemma ScanFirstNodeLine(ns: Nodes, ids: seq<string>, ao: map<string, seq<string>>, rest: seq<string>, g: GraphValue)
    requires Renderable(ns, ids, ao) && ids != []
    requires IsWord(ids[0]) && AttributesSurvive(ns[ids[0]].attributes) && IsListing(ao[ids[0]], ns[ids[0]].attributes.Keys)
    ensures Scan(NodeLines(ns, ids, ao) + rest, g)
         == Scan(NodeLines(ns, ids[1..], ao) + rest, g.(nodes := InsertNode(g.nodes, ids[0], ns[ids[0]].attributes)))
  {
    var id := ids[0];
    var line := NodeLine(id, ns[id].attributes, ao[id]);
    NodeLineMatch(id, ns[id].attributes, ao[id]);
    NodeBodyReadBack(ns[id].attributes, ao[id]);
    ConcatAssoc([line], NodeLines(ns, ids[1..], ao), rest);
    ScanNodeStep(line, NodeLines(ns, ids[1..], ao) + rest, g, id, ns[id].attributes);
  }

  lemma {:induction false} ScanNodeLines(ns: Nodes, ids: seq<string>, ao: map<string, seq<string>>, rest: seq<string>, g: GraphValue)
    requires Renderable(ns, ids, ao)
    requires forall k :: k in ids ==> IsWord(k) && AttributesSurvive(ns[k].attributes) && IsListing(ao[k], ns[k].attributes.Keys)
    ensures Scan(NodeLines(ns, ids, ao) + rest, g) == Scan(rest, g.(nodes := DeclareAll(g.nodes, ns, ids)))
  {
    if ids != [] {
      ScanFirstNodeLine(ns, ids, ao, rest, g);
      ScanNodeLines(ns, ids[1..], ao, rest, g.(nodes := InsertNode(g.nodes, ids[0], ns[ids[0]].attributes)));
    } else {
      assert NodeLines(ns, ids, ao) + rest == rest;
    }
  }

  lemma {:induction false} ScanEdgeLines(pairs: seq<(string, string)>, rest: seq<string>, g: GraphValue)
    requires forall p :: p in pairs ==> IsWord(p.0) && IsWord(p.1) && p.0 in g.nodes && p.1 in g.nodes
    ensures Scan(EdgeLines(pairs) + rest, g) == Scan(rest, g.(nodes := AddEdges(g.nodes, pairs)))
  {
    if pairs != [] {
      var (a, b) := pairs[0];
      EdgeLineReadBack(a, b);
      assert ([EdgeLine(a, b)] + EdgeLines(pairs[1..])) + rest == [EdgeLine(a, b)] + (EdgeLines(pairs[1..]) + rest);
      ScanEdgeStep(EdgeLine(a, b), EdgeLines(pairs[1..]) + rest, g, a, b);
      InsertEdgeLemma(g.nodes, a, b);
      ScanEdgeLines(pairs[1..], rest, g.(nodes := InsertEdge(g.nodes, a, b)));
    } else {
      assert EdgeLines(pairs) + rest == rest;
    }
  }

  /** Declaring every id of the graph, starting from no node, gives each
      node its attributes and no edge. */
  lemma DeclaredNodes(ns: Nodes, ids: seq<string>)
    requires IsListing(ids, ns.Keys)
    ensures var m := DeclareAll(map[], ns, ids);
      && m.Keys == ns.Keys
      && forall k :: k in m ==> m[k] == NodeRec(ns[k].attributes, {})
  {
    DeclareAllResult(map[], ns, ids);
  }

  /** Every pair of the edge order joins two nodes with word ids. */
  lemma EdgeOrderEnds(name: Option<string>, ns: Nodes, lay: Layout)
    requires RoundTrippable(name, ns) && IsLayout(ns, lay)
    ensures forall p :: p in lay.edgeOrder ==> p.0 in ns && p.1 in ns && IsWord(p.0) && IsWord(p.1)
  {
    forall p | p in lay.edgeOrder ensures p.0 in ns && p.1 in ns {
      assert p in EdgePairs(ns);
    }
  }

  /** Declaring the nodes in the layout's order and then adding its edges
      rebuilds the graph. */
  lemma Rebuilt(ns: Nodes, lay: Layout)
    requires IsLayout(ns, lay)
    requires forall p :: p in lay.edgeOrder ==> p.0 in ns
    ensures forall p :: p in lay.edgeOrder ==> p.0 in DeclareAll(map[], ns, lay.ids)
    ensures AddEdges(DeclareAll(map[], ns, lay.ids), lay.edgeOrder) == ns
  {
    var m := DeclareAll(map[], ns, lay.ids);
    DeclaredNodes(ns, lay.ids);
    AddEdgesResult(m, lay.edgeOrder);
    var r := AddEdges(m, lay.edgeOrder);
    forall k | k in ns ensures r[k] == ns[k] {
      forall d ensures d in r[k].edges <==> d in ns[k].edges {
        if d in ns[k].edges {
          assert (k, d) in EdgePairs(ns);
        }
      }
    }
  }

  /** The lines of `toDot()`'s text. */
  lemma DotTextLines(name: Option<string>, ns: Nodes, lay: Layout)
    requires RoundTrippable(name, ns) && IsLayout(ns, lay)
    ensures Lines(DotText(name, ns, lay))
        == [Header(name.value)] + (NodeLines(ns, lay.ids, lay.attrOrder) + (EdgeLines(lay.edgeOrder) + ["}"]))
  {
    LayoutRenderable(ns, lay);
    NodeLinesTokens(name, ns, lay);
    EdgeLinesTokens(name, ns, lay);
    DocumentLines(name.value, NodeLines(ns, lay.ids, lay.attrOrder), EdgeLines(lay.edgeOrder));
  }

  lemma NodeLinesTokens(name: Option<string>, ns: Nodes, lay: Layout)
    requires RoundTrippable(name, ns) && IsLayout(ns, lay)
    ensures Renderable(ns, lay.ids, lay.attrOrder)
    ensures forall x :: x in NodeLines(ns, lay.ids, lay.attrOrder) ==> IsToken(x, LineBreaks)
  {
    LayoutRenderable(ns, lay);
    var nl := NodeLines(ns, lay.ids, lay.attrOrder);
    forall x | x in nl ensures IsToken(x, LineBreaks) {
      var i :| 0 <= i < |nl| && nl[i] == x;
      var id := lay.ids[i];
      NodeLinesAt(ns, lay.ids, lay.attrOrder, i);
      NodeLineToken(id, ns[id].attributes, lay.attrOrder[id]);
    }
  }

  lemma EdgeLinesTokens(name: Option<string>, ns: Nodes, lay: Layout)
    requires RoundTrippable(name, ns) && IsLayout(ns, lay)
    ensures forall x :: x in EdgeLines(lay.edgeOrder) ==> IsToken(x, LineBreaks)
  {
    var el := EdgeLines(lay.edgeOrder);
    forall x | x in el ensures IsToken(x, LineBreaks) {
      var i :| 0 <= i < |el| && el[i] == x;
      assert lay.edgeOrder[i] in EdgePairs(ns);
      EdgeLinesAt(lay.edgeOrder, i);
      EdgeLineToken(lay.edgeOrder[i].0, lay.edgeOrder[i].1);
    }
  }

  /** The statements after the header rebuild the graph. */
  lemma ScanDotBody(name: Option<string>, ns: Nodes, lay: Layout)
    requires RoundTrippable(name, ns) && IsLayout(ns, lay)
    ensures Scan(NodeLines(ns, lay.ids, lay.attrOrder) + (EdgeLines(lay.edgeOrder) + ["}"]), GraphValue(name, map[]))
        == Success(GraphValue(name, ns))
  {
    LayoutRenderable(ns, lay);
    var g0 := GraphValue(name, map[]);
    ScanNodeLines(ns, lay.ids, lay.attrOrder, EdgeLines(lay.edgeOrder) + ["}"], g0);
    EdgeOrderEnds(name, ns, lay);
    DeclaredNodes(ns, lay.ids);
    Rebuilt(ns, lay);
    var g1 := g0.(nodes := DeclareAll(map[], ns, lay.ids));
    ScanEdgeLines(lay.edgeOrder, ["}"], g1);
    CloserIsNoStatement();
  }

  /** `fromDot(toDot(g))` gives back `g`: the same name, the same ids, the
      same attribute dictionaries and the same edges. */
  lemma RoundTrip(name: Option<string>, ns: Nodes, lay: Layout)
    requires RoundTrippable(name, ns) && IsLayout(ns, lay)
    ensures ParseText(DotText(name, ns, lay)) == Success(GraphValue(name, ns))
  {
    LayoutRenderable(ns, lay);
    var n := name.value;
    var nl := NodeLines(ns, lay.ids, lay.attrOrder);
    var el := EdgeLines(lay.edgeOrder);
    DotTextLines(name, ns, lay);
    var lines := [Header(n)] + (nl + (el + ["}"]));
    HeaderReadBack(n);
    assert lines[0] == Header(n) && lines[1..] == nl + (el + ["}"]);
    ScanDotBody(name, ns, lay);
  }
}
