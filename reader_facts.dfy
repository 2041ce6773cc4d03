/** Behaviours of `DotReader.parse` that follow from its patterns and its
    statement loop: how attribute lists combine, where the loop stops, what
    an undeclared end or a bare node line does, and which lines it never
    sees. */
module ReaderFacts {
  import opened Wrappers
  import opened Text
  import opened Graph
  import opened Dot
  import opened DotLemmas
  import opened RoundTrip

  /** `parseAttributes`: a later chunk with a key overwrites an earlier one,
      so the last value given for a key wins. */
  lemma {:induction false} LastChunkWins(parts: seq<string>, p: string, acc: map<string, string>, k: string, v: string)
    requires MatchAttribute(p) == Some((k, v)) && CollectAttributes(parts, acc).Success?
    ensures CollectAttributes(parts + [p], acc) == Success(CollectAttributes(parts, acc).value[k := v])
    decreases |parts|
  {
    if parts == [] {
      assert [] + [p] == [p];
    } else {
      var kv := MatchAttribute(parts[0]).value;
      CollectHead(parts, [p], acc);
      LastChunkWins(parts[1..], p, acc[kv.0 := kv.1], k, v);
    }
  }

  /** `parseAttributes`: the first chunk that does not match aborts the
      whole list, whatever follows it. */
  lemma {:induction false} BadChunkAborts(parts: seq<string>, tail: seq<string>, acc: map<string, string>)
    requires tail != [] && MatchAttribute(tail[0]).None? && CollectAttributes(parts, acc).Success?
    ensures CollectAttributes(parts + tail, acc) == Failure(BadAttribute(tail[0]))
    decreases |parts|
  {
    if parts == [] {
      assert [] + tail == tail;
    } else {
      var kv := MatchAttribute(parts[0]).value;
      CollectHead(parts, tail, acc);
      BadChunkAborts(parts[1..], tail, acc[kv.0 := kv.1]);
    }
  }

  /** `parseAttributes` on a list with a first chunk and more chunks after
      it: the first chunk is matched first. */
  lemma CollectHead(parts: seq<string>, tail: seq<string>, acc: map<string, string>)
    requires parts != []
    ensures CollectAttributes(parts + tail, acc)
         == match MatchAttribute(parts[0])
            case None => Failure(BadAttribute(parts[0]))
            case Some(kv) => CollectAttributes(parts[1..] + tail, acc[kv.0 := kv.1])
  {
    assert (parts + tail)[0] == parts[0] && (parts + tail)[1..] == parts[1..] + tail;
  }

  /** The closer matches neither statement pattern. */
  lemma CloserIsNoNodeOrEdge(l: string)
    requires IsCloser(l)
    ensures MatchNode(l) == None && MatchEdge(l) == None
  {
    assert Skip(l)[0] == '}' && !IsWordChar('}');
    assert WordLen(Skip(l)) == 0;
  }

  /** The statement loop stops at the first closer: whatever follows it is
      never read. */
  lemma {:induction false} TextAfterCloserIgnored(lines: seq<string>, c: string, rest: seq<string>, rest': seq<string>, g: GraphValue)
    requires IsCloser(c)
    ensures Scan(lines + [c] + rest, g) == Scan(lines + [c] + rest', g)
    decreases |lines|
  {
    var xs := lines + [c] + rest;
    var ys := lines + [c] + rest';
    if lines == [] {
      CloserIsNoNodeOrEdge(c);
      assert xs[0] == c && ys[0] == c;
    } else {
      assert xs[0] == lines[0] && ys[0] == lines[0];
      assert xs[1..] == lines[1..] + [c] + rest && ys[1..] == lines[1..] + [c] + rest';
      var st := Statement(lines[0], g);
      if st.Some? && st.value.Success? {
        TextAfterCloserIgnored(lines[1..], c, rest, rest', st.value.value);
      }
    }
  }

  /** `parseEdgeDefinition`: an edge line whose ends are not both declared
      aborts the parse (the assertion in `addEdge`), whatever follows. */
  lemma UndeclaredEndAborts(l: string, a: string, b: string, rest: seq<string>, g: GraphValue)
    requires MatchEdge(l) == Some((a, b)) && (a !in g.nodes || b !in g.nodes)
    ensures Scan([l] + rest, g) == Failure(UnknownEndpoint(a, b))
  {
    EdgeIsNoNode(l);
    assert ([l] + rest)[0] == l;
  }

  /** After the first word and its spaces an edge line has `->` where a node
      definition has `[`, so no line is both. */
  lemma EdgeIsNoNode(l: string)
    requires MatchEdge(l).Some?
    ensures MatchNode(l) == None
  {
    var w := Word(Skip(l));
    var s2 := SkipSome(w.value.1).value;
    assert Literal("->", s2).Some?;
    assert s2[..2] == "->";
    assert Literal("[", s2) == None by {
      assert s2[..1] != "[" by { assert s2[..1][0] == s2[..2][0] == '-'; }
    }
  }

  /** The line `id;` the emitter writes for a node without attributes is
      neither a statement nor the closer: the parse stops there and fails. */
  lemma BareNodeEndsParse(id: string, rest: seq<string>, g: GraphValue)
    requires IsWord(id)
    ensures Scan([id + ";"] + rest, g) == Failure(MissingCloser)
  {
    BareNodeLineIsNoStatement(id);
    assert ([id + ";"] + rest)[0] == id + ";";
  }

  /** `parseNodeDefinition` on an id already declared: `nodes.add` keeps the
      resident node, so the second definition changes nothing. */
  lemma RedeclaredNodeKept(l: string, rest: seq<string>, g: GraphValue)
    requires MatchNode(l).Some? && MatchNode(l).value.0 in g.nodes
    requires ParseAttributes(MatchNode(l).value.1).Success?
    ensures Scan([l] + rest, g) == Scan(rest, g)
  {
    assert ([l] + rest)[0] == l && ([l] + rest)[1..] == rest;
  }

  /** A line of whitespace alone yields no line at all. */
  lemma BlankLines(blank: string)
    requires AllSpace(blank) && Avoids(blank, LineBreaks)
    ensures Lines(blank) == []
  {
    SplitAvoiding(blank, LineBreaks);
    StripBlank(blank);
    assert StrippedNonBlank([blank]) == Kept(blank) + StrippedNonBlank([]);
  }

  /** `parse` reads `[l.strip() for l in data.splitlines() if l.strip()]`: a
      blank line between two others is dropped. */
  lemma BlankLineDropped(a: string, blank: string, b: string)
    requires AllSpace(blank) && Avoids(blank, LineBreaks)
    ensures Lines(a + "\n" + blank + "\n" + b) == Lines(a + "\n" + b)
  {
    var tail := blank + "\n" + b;
    assert a + "\n" + blank + "\n" + b == a + "\n" + tail;
    LinesAt(a, tail);
    LinesAt(blank, b);
    BlankLines(blank);
    assert Lines(tail) == Lines(b);
    LinesAt(a, b);
  }
}
