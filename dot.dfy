/** The DOT-subset text format: what `DotEmitter` writes and what `DotReader`
    accepts, as functions. The reader's regular expressions are written out as
    recognisers over strings; `ParseText` is what `DotReader.parse` computes. */
module Dot {
  import opened Wrappers
  import opened Text
  import opened Order
  import opened Graph

  // ---------------------------------------------------------------- writing

  /** `str(name)`: a nameless graph is written as `None`. */
  function NameText(name: Option<string>): string {
    match name
    case Some(n) => n
    case None => "None"
  }

  /** `f'{k}="{v}"'`. */
  function AttrText(k: string, v: string): string {
    k + "=\"" + v + "\""
  }

  /** The attribute strings of one node, in the order `order` lists the keys. */
  function AttrTexts(attrs: map<string, string>, order: seq<string>): (r: seq<string>)
    requires forall k :: k in order ==> k in attrs
    ensures |r| == |order|
  {
    if order == [] then []
    else [AttrText(order[0], attrs[order[0]])] + AttrTexts(attrs, order[1..])
  }

  /** `DotEmitter.addNode`: `id;` without attributes, `id [ k="v", ... ];`
      with them. */
  function NodeLine(id: string, attrs: map<string, string>, order: seq<string>): string
    requires forall k :: k in order ==> k in attrs
  {
    if |attrs| == 0 then id + ";"
    else id + " [ " + Join(AttrTexts(attrs, order), ", ") + " ]" + ";"
  }

  /** `DotEmitter.addEdge`. */
  function EdgeLine(src: string, dst: string): string {
    src + " -> " + dst + ";"
  }

  function EdgeLines(pairs: seq<(string, string)>): (r: seq<string>)
    ensures |r| == |pairs|
  {
    if pairs == [] then [] else [EdgeLine(pairs[0].0, pairs[0].1)] + EdgeLines(pairs[1..])
  }

  /** `DotEmitter.emit()`: the header, the node lines, the edge lines and the
      closing brace on lines of their own, the whole stripped. */
  function Document(name: string, nodeLines: seq<string>, edgeLines: seq<string>): string {
    Header(name) + "\n" + (Block(nodeLines) + "\n" + (Block(edgeLines) + "\n" + "}"))
  }

  /** The node definitions or the edge list of the template: each line
      indented by two spaces, one per line. */
  function Block(lines: seq<string>): string {
    "  " + Join(lines, "\n  ")
  }

  /** The introducer line. */
  function Header(name: string): string {
    "digraph \"" + name + "\" {"
  }

  /** The orders the emitter happens to use: ids ascending (sorted), each
      node's attributes and the edges in the unspecified order of dictionary
      and set iteration. */
  datatype Layout = Layout(ids: seq<string>, attrOrder: map<string, seq<string>>, edgeOrder: seq<(string, string)>)

  predicate IsLayout(ns: Nodes, lay: Layout) {
    && StrictlyAscending(lay.ids) && IsListing(lay.ids, ns.Keys)
    && (forall k :: k in ns ==> k in lay.attrOrder && IsListing(lay.attrOrder[k], ns[k].attributes.Keys))
    && IsListing(lay.edgeOrder, EdgePairs(ns))
  }

  /** Every id listed has a record and an attribute order within its keys. */
  predicate Renderable(ns: Nodes, ids: seq<string>, ao: map<string, seq<string>>) {
    forall k :: k in ids ==> k in ns && k in ao && forall a :: a in ao[k] ==> a in ns[k].attributes
  }

  function NodeLines(ns: Nodes, ids: seq<string>, ao: map<string, seq<string>>): (r: seq<string>)
    requires Renderable(ns, ids, ao)
    ensures |r| == |ids|
  {
    if ids == [] then []
    else [NodeLine(ids[0], ns[ids[0]].attributes, ao[ids[0]])] + NodeLines(ns, ids[1..], ao)
  }

  lemma LayoutRenderable(ns: Nodes, lay: Layout)
    requires IsLayout(ns, lay)
    ensures Renderable(ns, lay.ids, lay.attrOrder)
  {
  }

  /** `toDot()` for a given layout. */
  function DotText(name: Option<string>, ns: Nodes, lay: Layout): string
    requires IsLayout(ns, lay)
  {
    LayoutRenderable(ns, lay);
    Document(NameText(name), NodeLines(ns, lay.ids, lay.attrOrder), EdgeLines(lay.edgeOrder))
  }

  // ------------------------------------------------------------- recognising

  /** Length of the longest prefix of `\s` characters. */
  function SpaceLen(s: string): (n: nat)
    ensures n <= |s| && (n == |s| || !IsSpace(s[n]))
  {
    if s != [] && IsSpace(s[0]) then 1 + SpaceLen(s[1..]) else 0
  }

  /** Length of the longest prefix of `\w` characters. */
  function WordLen(s: string): (n: nat)
    ensures n <= |s| && (n == |s| || !IsWordChar(s[n]))
  {
    if s != [] && IsWordChar(s[0]) then 1 + WordLen(s[1..]) else 0
  }

  /** Length of the longest prefix without `c`. */
  function LenUntil(s: string, c: char): (n: nat)
    ensures n <= |s| && (n == |s| || s[n] == c)
  {
    if s != [] && s[0] != c then 1 + LenUntil(s[1..], c) else 0
  }

  /** `\s*`: what is left after the leading whitespace. */
  function Skip(s: string): string {
    s[SpaceLen(s)..]
  }

  /** `\s+`: at least one whitespace character, then the rest. */
  function SkipSome(s: string): Option<string> {
    if SpaceLen(s) == 0 then None else Some(s[SpaceLen(s)..])
  }

  /** `(\w+)`: the longest run of word characters, and the rest. */
  function Word(s: string): Option<(string, string)> {
    var n := WordLen(s);
    if n == 0 then None else Some((s[..n], s[n..]))
  }

  /** A literal such as `->` or `="`. */
  function Literal(lit: string, s: string): Option<string> {
    if |lit| <= |s| && s[..|lit|] == lit then Some(s[|lit|..]) else None
  }

  /** `([^c]+)c`: a non-empty run without `c`, the `c` itself consumed. */
  function Until(c: char, s: string): Option<(string, string)> {
    var q := LenUntil(s, c);
    if q == 0 || q == |s| then None else Some((s[..q], s[q + 1..]))
  }

  /** `c\s*$`. */
  predicate EndsWith(c: char, s: string) {
    s != [] && s[0] == c && AllSpace(s[1..])
  }

  /** `^\s*digraph "([^"]+)"\s+{\s*$`, giving the name. */
  function MatchIntroducer(l: string): Option<string> {
    match Literal("digraph \"", Skip(l))
    case None => None
    case Some(s1) =>
      match Until('"', s1)
      case None => None
      case Some((name, s2)) =>
        match SkipSome(s2)
        case None => None
        case Some(s3) => if EndsWith('{', s3) then Some(name) else None
  }

  /** `^\s*(\w+)\s+\[([^\]]+)\]\s*;\s*$`, giving the id and the text
      between the brackets. */
  function MatchNode(l: string): Option<(string, string)> {
    match Word(Skip(l))
    case None => None
    case Some((id, s1)) =>
      match SkipSome(s1)
      case None => None
      case Some(s2) =>
        match Literal("[", s2)
        case None => None
        case Some(s3) =>
          match Until(']', s3)
          case None => None
          case Some((body, s4)) => if EndsWith(';', Skip(s4)) then Some((id, body)) else None
  }

  /** `^\s*(\w+)\s+->\s+(\w+);\s*$`, giving both ids. */
  function MatchEdge(l: string): Option<(string, string)> {
    match Word(Skip(l))
    case None => None
    case Some((src, s1)) =>
      match SkipSome(s1)
      case None => None
      case Some(s2) =>
        match Literal("->", s2)
        case None => None
        case Some(s3) =>
          match SkipSome(s3)
          case None => None
          case Some(s4) =>
            match Word(s4)
            case None => None
            case Some((dst, s5)) => if EndsWith(';', s5) then Some((src, dst)) else None
  }

  /** `^\s*(\w+)="([^"]+)"`, a prefix match: whatever follows the closing
      quote is ignored. */
  function MatchAttribute(a: string): Option<(string, string)> {
    match Word(Skip(a))
    case None => None
    case Some((k, s1)) =>
      match Literal("=\"", s1)
      case None => None
      case Some(s2) =>
        match Until('"', s2)
        case None => None
        case Some((v, _)) => Some((k, v))
  }

  /** `^\s*}\s*$`. */
  predicate IsCloser(l: string) {
    EndsWith('}', Skip(l))
  }

  // ---------------------------------------------------------------- parsing

  /** The exceptions `DotReader.parse` can raise. `NoInput` is the index
      error of reading the first line of an input without one; the
      missing-endpoint case is `addEdge`'s assertion. */
  datatype ParseError =
    | NoInput
    | BadIntroducer
    | BadAttribute(chunk: string)
    | UnknownEndpoint(src: string, dst: string)
    | MissingCloser

  datatype GraphValue = GraphValue(name: Option<string>, nodes: Nodes)

  /** `[l.strip() for l in raw.split(',') if l.strip()]`. */
  function AttributeParts(raw: string): seq<string> {
    StrippedNonBlank(Split(raw, {','}))
  }

  /** The for-loop of `parseAttributes`: each chunk must match, and a later
      chunk overwrites an earlier one with the same key. */
  function CollectAttributes(parts: seq<string>, acc: map<string, string>): (r: Result<map<string, string>, ParseError>)
    ensures r.Failure? ==> r.error.BadAttribute? && r.error.chunk in parts && MatchAttribute(r.error.chunk).None?
  {
    if parts == [] then Success(acc)
    else match MatchAttribute(parts[0])
      case None => Failure(BadAttribute(parts[0]))
      case Some(kv) => CollectAttributes(parts[1..], acc[kv.0 := kv.1])
  }

  function ParseAttributes(raw: string): Result<map<string, string>, ParseError> {
    CollectAttributes(AttributeParts(raw), map[])
  }

  /** One line of the statement loop of `parse`: None when it is neither a
      node nor an edge statement; otherwise the abort (a bad attribute chunk,
      an undeclared end) or the graph with the node or edge added. */
  function Statement(l: string, g: GraphValue): Option<Result<GraphValue, ParseError>> {
    match MatchNode(l)
    case Some(node) =>
      (match ParseAttributes(node.1)
       case Failure(e) => Some(Failure(e))
       case Success(attrs) => Some(Success(g.(nodes := InsertNode(g.nodes, node.0, attrs)))))
    case None =>
      match MatchEdge(l)
      case Some(edge) =>
        if edge.0 in g.nodes && edge.1 in g.nodes then Some(Success(g.(nodes := InsertEdge(g.nodes, edge.0, edge.1))))
        else Some(Failure(UnknownEndpoint(edge.0, edge.1)))
      case None => None
  }

  /** The statement loop of `parse` from some line on, with the graph built so
      far: statements extend the graph, and the first other line must be the
      closer. */
  function Scan(lines: seq<string>, g: GraphValue): Result<GraphValue, ParseError> {
    if lines == [] then Failure(MissingCloser)
    else match Statement(lines[0], g)
      case None => if IsCloser(lines[0]) then Success(g) else Failure(MissingCloser)
      case Some(Failure(e)) => Failure(e)
      case Some(Success(g')) => Scan(lines[1..], g')
  }

  lemma InsertNodeLemma(ns: Nodes, id: string, attrs: map<string, string>)
    ensures Closed(ns) ==> Closed(InsertNode(ns, id, attrs))
    ensures InsertNode(ns, id, attrs).Keys == ns.Keys + {id}
  {
    if Closed(ns) { InsertNodeProperties(ns, id, attrs); }
  }

  lemma InsertEdgeLemma(ns: Nodes, src: string, dst: string)
    requires src in ns && dst in ns
    ensures Closed(ns) ==> Closed(InsertEdge(ns, src, dst))
    ensures InsertEdge(ns, src, dst).Keys == ns.Keys
  {
    if Closed(ns) { InsertEdgeProperties(ns, src, dst); }
  }

  /** `DotReader.parse(data)` on a reader whose graph is `g`: the introducer
      names the graph, the statements extend it. */
  function ParseInto(data: string, g: GraphValue): Result<GraphValue, ParseError> {
    var lines := Lines(data);
    if lines == [] then Failure(NoInput)
    else match MatchIntroducer(lines[0])
      case None => Failure(BadIntroducer)
      case Some(name) => Scan(lines[1..], g.(name := Some(name)))
  }

  /** A statement keeps the graph closed and its name unchanged: a node
      brings no edges, and an edge is only added between declared nodes. */
  lemma StatementClosed(l: string, g: GraphValue)
    requires Closed(g.nodes)
    ensures var st := Statement(l, g);
      st.Some? && st.value.Success? ==> Closed(st.value.value.nodes) && st.value.value.name == g.name
  {
    match MatchNode(l)
    case Some(node) =>
      if ParseAttributes(node.1).Success? {
        InsertNodeLemma(g.nodes, node.0, ParseAttributes(node.1).value);
      }
    case None =>
      match MatchEdge(l)
      case Some(edge) =>
        if edge.0 in g.nodes && edge.1 in g.nodes {
          InsertEdgeLemma(g.nodes, edge.0, edge.1);
        }
      case None =>
  }

  lemma {:induction false} ScanClosed(lines: seq<string>, g: GraphValue)
    requires Closed(g.nodes)
    ensures Scan(lines, g).Success? ==> Closed(Scan(lines, g).value.nodes) && Scan(lines, g).value.name == g.name
    decreases |lines|
  {
    if lines != [] {
      StatementClosed(lines[0], g);
      var st := Statement(lines[0], g);
      if st.Some? && st.value.Success? {
        ScanClosed(lines[1..], st.value.value);
      }
    }
  }

  /** Every graph a parse yields is closed (each edge ends at a node) and
      named. */
  lemma ParseIntoClosed(data: string, g: GraphValue)
    requires Closed(g.nodes)
    ensures ParseInto(data, g).Success? ==> Closed(ParseInto(data, g).value.nodes) && ParseInto(data, g).value.name.Some?
  {
    var lines := Lines(data);
    if lines != [] && MatchIntroducer(lines[0]).Some? {
      ScanClosed(lines[1..], g.(name := MatchIntroducer(lines[0])));
    }
  }

  /** `DirectedGraph.fromDot(data)`: a fresh reader starts from an empty,
      nameless graph. */
  function ParseText(data: string): Result<GraphValue, ParseError> {
    ParseInto(data, GraphValue(None, map[]))
  }
}
