/** What the recognisers of the DOT-subset reader accept: each pattern matches
    the shapes it describes, with any run of whitespace where the pattern
    allows one, and gives back the pieces; and the lines the emitter can write
    are told apart (an edge line is no node line, a bare `id;` is neither). */
module DotLemmas {
  import opened Text
  import opened Wrappers
  import opened Dot

  lemma {:induction false} SpaceLenOf(p: string, t: string)
    requires AllSpace(p) && (t == [] || !IsSpace(t[0]))
    ensures SpaceLen(p + t) == |p|
  {
    if p != [] {
      assert (p + t)[0] == p[0];
      assert (p + t)[1..] == p[1..] + t;
      SpaceLenOf(p[1..], t);
    } else {
      assert p + t == t;
    }
  }

  lemma {:induction false} WordLenOf(a: string, t: string)
    requires forall i :: 0 <= i < |a| ==> IsWordChar(a[i])
    requires t == [] || !IsWordChar(t[0])
    ensures WordLen(a + t) == |a|
  {
    if a != [] {
      assert (a + t)[0] == a[0];
      assert (a + t)[1..] == a[1..] + t;
      WordLenOf(a[1..], t);
    } else {
      assert a + t == t;
    }
  }

  lemma {:induction false} LenUntilOf(v: string, c: char, t: string)
    requires Avoids(v, {c}) && t != [] && t[0] == c
    ensures LenUntil(v + t, c) == |v|
  {
    if v != [] {
      assert (v + t)[0] == v[0];
      assert (v + t)[1..] == v[1..] + t;
      LenUntilOf(v[1..], c, t);
    } else {
      assert v + t == t;
    }
  }

  lemma WordCharIsNoSpace(c: char)
    requires IsWordChar(c)
    ensures !IsSpace(c)
  {
  }

  lemma SkipOf(p: string, t: string)
    requires AllSpace(p) && (t == [] || !IsSpace(t[0]))
    ensures Skip(p + t) == t
  {
    SpaceLenOf(p, t);
    assert (p + t)[|p|..] == t;
  }

  lemma SkipSomeOf(p: string, t: string)
    requires p != [] && AllSpace(p) && (t == [] || !IsSpace(t[0]))
    ensures SkipSome(p + t) == Some(t)
  {
    SpaceLenOf(p, t);
    assert (p + t)[|p|..] == t;
  }

  lemma WordOf(a: string, t: string)
    requires IsWord(a) && (t == [] || !IsWordChar(t[0]))
    ensures Word(a + t) == Some((a, t))
  {
    WordLenOf(a, t);
    assert (a + t)[..|a|] == a && (a + t)[|a|..] == t;
  }

  lemma LiteralOf(lit: string, t: string)
    ensures Literal(lit, lit + t) == Some(t)
  {
    assert (lit + t)[..|lit|] == lit && (lit + t)[|lit|..] == t;
  }

  lemma UntilOf(v: string, c: char, t: string)
    requires v != [] && Avoids(v, {c})
    ensures Until(c, v + ([c] + t)) == Some((v, t))
  {
    LenUntilOf(v, c, [c] + t);
    assert (v + ([c] + t))[..|v|] == v && (v + ([c] + t))[|v| + 1..] == t;
  }

  lemma LiteralMismatch(lit: string, t: string)
    requires lit != [] && t != [] && t[0] != lit[0]
    ensures Literal(lit, t) == None
  {
    if |lit| <= |t| {
      assert t[..|lit|][0] == t[0];
    }
  }

  lemma EndsWithOf(c: char, t: string)
    requires AllSpace(t)
    ensures EndsWith(c, [c] + t)
  {
    assert ([c] + t)[1..] == t;
  }

  /** The edge pattern accepts `a -> b;` with any whitespace runs around the
      arrow and at both ends. */
  lemma MatchEdgeComplete(p: string, a: string, q: string, r: string, b: string, t: string)
    requires AllSpace(p) && AllSpace(q) && AllSpace(r) && AllSpace(t) && q != [] && r != []
    requires IsWord(a) && IsWord(b)
    ensures MatchEdge(p + (a + (q + ("->" + (r + (b + (";" + t))))))) == Some((a, b))
  {
    var s5 := ";" + t;
    var s4 := b + s5;
    var s3 := r + s4;
    var s2 := "->" + s3;
    var s1 := q + s2;
    var s0 := a + s1;
    WordCharIsNoSpace(a[0]);
    SkipOf(p, s0);
    assert s1[0] == q[0] && q[0] in q;
    WordOf(a, s1);
    SkipSomeOf(q, s2);
    LiteralOf("->", s3);
    WordCharIsNoSpace(b[0]);
    SkipSomeOf(r, s4);
    WordOf(b, s5);
    EndsWithOf(';', t);
  }

  /** The node pattern accepts `id [body];` with whitespace where allowed and
      a body that is non-empty and holds no `]`. */
  lemma MatchNodeComplete(p: string, id: string, q: string, body: string, q2: string, t: string)
    requires AllSpace(p) && AllSpace(q) && AllSpace(q2) && AllSpace(t) && q != []
    requires IsWord(id) && body != [] && Avoids(body, {']'})
    ensures MatchNode(p + (id + (q + ("[" + (body + ("]" + (q2 + (";" + t)))))))) == Some((id, body))
  {
    var s5 := ";" + t;
    var s4 := q2 + s5;
    var s3 := body + ("]" + s4);
    var s2 := "[" + s3;
    var s1 := q + s2;
    var s0 := id + s1;
    var l := p + s0;
    WordCharIsNoSpace(id[0]);
    SkipOf(p, s0);
    assert s1[0] == q[0] && q[0] in q;
    WordOf(id, s1);
    assert Word(Skip(l)) == Some((id, s1));
    SkipSomeOf(q, s2);
    LiteralOf("[", s3);
    UntilOf(body, ']', s4);
    assert Until(']', s3) == Some((body, s4));
    SkipOf(q2, s5);
    EndsWithOf(';', t);
    assert EndsWith(';', Skip(s4));
  }

  /** The introducer pattern accepts `digraph "name" {` for a non-empty name
      without `"`, with whitespace where allowed. */
  lemma MatchIntroducerComplete(p: string, name: string, q: string, t: string)
    requires AllSpace(p) && AllSpace(q) && AllSpace(t) && q != []
    requires name != [] && Avoids(name, {'"'})
    ensures MatchIntroducer(p + ("digraph \"" + (name + ("\"" + (q + ("{" + t)))))) == Some(name)
  {
    var s3 := "{" + t;
    var s2 := q + s3;
    var s1 := name + ("\"" + s2);
    var s0 := "digraph \"" + s1;
    SkipOf(p, s0);
    LiteralOf("digraph \"", s1);
    UntilOf(name, '"', s2);
    SkipSomeOf(q, s3);
    EndsWithOf('{', t);
  }

  /** The attribute pattern accepts `key="value"` followed by anything. */
  lemma MatchAttributeComplete(p: string, k: string, v: string, t: string)
    requires AllSpace(p) && IsWord(k) && v != [] && Avoids(v, {'"'})
    ensures MatchAttribute(p + (k + ("=\"" + (v + ("\"" + t))))) == Some((k, v))
  {
    var s2 := v + ("\"" + t);
    var s1 := "=\"" + s2;
    var s0 := k + s1;
    WordCharIsNoSpace(k[0]);
    SkipOf(p, s0);
    WordOf(k, s1);
    LiteralOf("=\"", s2);
    UntilOf(v, '"', t);
  }

  lemma CloserComplete(p: string, t: string)
    requires AllSpace(p) && AllSpace(t)
    ensures IsCloser(p + ("}" + t))
  {
    SkipOf(p, "}" + t);
    EndsWithOf('}', t);
  }

  /** An edge statement needs whitespace before `->`. */
  lemma EdgeNeedsSpace(a: string, t: string)
    requires IsWord(a)
    ensures MatchEdge(a + "->" + t) == None
  {
    var s1 := "->" + t;
    var l := a + s1;
    assert a + "->" + t == l;
    WordCharIsNoSpace(a[0]);
    assert l[0] == a[0];
    SkipOf([], l);
    assert [] + l == l;
    WordOf(a, s1);
    assert Word(Skip(l)) == Some((a, s1));
    assert s1[0] == '-' && !IsSpace('-');
    assert SkipSome(s1) == None;
  }

  /** An id and whitespace followed by anything but `[` is no node
      definition. */
  lemma NodeNeedsBracket(p: string, id: string, q: string, t: string)
    requires AllSpace(p) && IsWord(id) && q != [] && AllSpace(q)
    requires t != [] && t[0] != '[' && !IsSpace(t[0])
    ensures MatchNode(p + id + q + t) == None
  {
    var s1 := q + t;
    var s0 := id + s1;
    assert p + id + q + t == p + s0;
    WordCharIsNoSpace(id[0]);
    SkipOf(p, s0);
    assert s1[0] == q[0] && q[0] in q;
    WordOf(id, s1);
    assert Word(Skip(p + s0)) == Some((id, s1));
    SkipSomeOf(q, t);
    LiteralMismatch("[", t);
  }

  lemma EdgeLineShape(a: string, b: string)
    ensures EdgeLine(a, b) == [] + a + " " + ("-> " + b + ";")
  {
    assert " -> " == " " + "-> ";
  }

  /** A line the emitter writes for an edge is not read as a node. */
  lemma EdgeLineIsNoNode(a: string, b: string)
    requires IsWord(a) && IsWord(b)
    ensures MatchNode(EdgeLine(a, b)) == None
  {
    EdgeLineShape(a, b);
    NodeNeedsBracket([], a, " ", "-> " + b + ";");
  }

  /** The line `id;` written for a node without attributes is neither a node
      nor an edge statement, nor the closer. */
  lemma BareNodeLineIsNoStatement(id: string)
    requires IsWord(id)
    ensures MatchNode(id + ";") == None && MatchEdge(id + ";") == None && !IsCloser(id + ";")
  {
    WordCharIsNoSpace(id[0]);
    assert id + ";" == [] + (id + ";");
    SkipOf([], id + ";");
    WordOf(id, ";");
    SpaceLenOf([], ";");
    assert [] + ";" == ";";
  }

  lemma CloserIsNoStatement()
    ensures MatchNode("}") == None && MatchEdge("}") == None && IsCloser("}")
  {
    SkipOf([], "}");
    assert [] + "}" == "}";
    CloserComplete([], []);
    assert [] + ("}" + []) == "}";
  }

  // ------------------------------------------------------------- soundness

  lemma {:induction false} SpaceLenSpans(s: string)
    ensures forall i :: 0 <= i < SpaceLen(s) ==> IsSpace(s[i])
  {
    if s != [] && IsSpace(s[0]) {
      SpaceLenSpans(s[1..]);
      forall i | 1 <= i < SpaceLen(s) ensures IsSpace(s[i]) {
        assert s[i] == s[1..][i - 1];
      }
    }
  }

  lemma {:induction false} WordLenSpans(s: string)
    ensures forall i :: 0 <= i < WordLen(s) ==> IsWordChar(s[i])
  {
    if s != [] && IsWordChar(s[0]) {
      WordLenSpans(s[1..]);
      forall i | 1 <= i < WordLen(s) ensures IsWordChar(s[i]) {
        assert s[i] == s[1..][i - 1];
      }
    }
  }

  lemma {:induction false} LenUntilSpans(s: string, c: char)
    ensures forall i :: 0 <= i < LenUntil(s, c) ==> s[i] != c
  {
    if s != [] && s[0] != c {
      LenUntilSpans(s[1..], c);
      forall i | 1 <= i < LenUntil(s, c) ensures s[i] != c {
        assert s[i] == s[1..][i - 1];
      }
    }
  }

  /** `\s*` consumes whitespace only, and all of it. */
  lemma SkipSound(s: string)
    ensures AllSpace(s[..SpaceLen(s)]) && s == s[..SpaceLen(s)] + Skip(s)
    ensures Skip(s) == [] || !IsSpace(Skip(s)[0])
  {
    SpaceLenSpans(s);
    AllSpaceByIndex(s[..SpaceLen(s)]);
  }

  lemma SkipSomeSound(s: string)
    requires SkipSome(s).Some?
    ensures s[..SpaceLen(s)] != [] && AllSpace(s[..SpaceLen(s)]) && s == s[..SpaceLen(s)] + SkipSome(s).value
  {
    SkipSound(s);
  }

  /** `(\w+)` gives a word, the longest one. */
  lemma WordSound(s: string)
    requires Word(s).Some?
    ensures IsWord(Word(s).value.0) && s == Word(s).value.0 + Word(s).value.1
    ensures Word(s).value.1 == [] || !IsWordChar(Word(s).value.1[0])
  {
    var n := WordLen(s);
    WordLenSpans(s);
    forall c | c in s[..n] ensures IsWordChar(c) {
      var i :| 0 <= i < n && s[..n][i] == c;
    }
    assert s == s[..n] + s[n..];
  }

  lemma LiteralSound(lit: string, s: string)
    requires Literal(lit, s).Some?
    ensures s == lit + Literal(lit, s).value
  {
    assert s == s[..|lit|] + s[|lit|..];
  }

  lemma UntilSound(c: char, s: string)
    requires Until(c, s).Some?
    ensures var (v, rest) := Until(c, s).value;
      v != [] && Avoids(v, {c}) && s == v + ([c] + rest)
  {
    var n := LenUntil(s, c);
    LenUntilSpans(s, c);
    AvoidsByIndex(s[..n], {c});
    assert s == s[..n] + ([s[n]] + s[n + 1..]);
  }

  lemma EndsWithSound(c: char, s: string)
    requires EndsWith(c, s)
    ensures s == [c] + s[1..]
  {
  }

  // --------------------------------------------- the languages of the patterns

  /** `l` is `id [body];` with whitespace before, between, after the bracket
      and at the end, as `^\s*(\w+)\s+\[([^\]]+)\]\s*;\s*$` describes. */
  ghost predicate NodeShaped(l: string, id: string, body: string) {
    && IsWord(id) && body != [] && Avoids(body, {']'})
    && exists p, q, q2, t :: AllSpace(p) && AllSpace(q) && q != [] && AllSpace(q2) && AllSpace(t)
         && l == p + (id + (q + ("[" + (body + ("]" + (q2 + (";" + t)))))))
  }

  /** `l` is `a -> b;` as `^\s*(\w+)\s+->\s+(\w+);\s*$` describes. */
  ghost predicate EdgeShaped(l: string, a: string, b: string) {
    && IsWord(a) && IsWord(b)
    && exists p, q, r, t :: AllSpace(p) && AllSpace(q) && q != [] && AllSpace(r) && r != [] && AllSpace(t)
         && l == p + (a + (q + ("->" + (r + (b + (";" + t))))))
  }

  /** `l` is `digraph "name" {` as `^\s*digraph "([^"]+)"\s+{\s*$` describes. */
  ghost predicate IntroducerShaped(l: string, name: string) {
    && name != [] && Avoids(name, {'"'})
    && exists p, q, t :: AllSpace(p) && AllSpace(q) && q != [] && AllSpace(t)
         && l == p + ("digraph \"" + (name + ("\"" + (q + ("{" + t)))))
  }

  /** `a` starts with `key="value"` as `^\s*(\w+)="([^"]+)"` describes. */
  ghost predicate AttributeShaped(a: string, k: string, v: string) {
    && IsWord(k) && v != [] && Avoids(v, {'"'})
    && exists p, t :: AllSpace(p) && a == p + (k + ("=\"" + (v + ("\"" + t))))
  }

  ghost predicate CloserShaped(l: string) {
    exists p, t :: AllSpace(p) && AllSpace(t) && l == p + ("}" + t)
  }

  lemma NodeShapedIntro(l: string, id: string, body: string, p: string, q: string, q2: string, t: string)
    requires IsWord(id) && body != [] && Avoids(body, {']'})
    requires AllSpace(p) && AllSpace(q) && q != [] && AllSpace(q2) && AllSpace(t)
    requires l == p + (id + (q + ("[" + (body + ("]" + (q2 + (";" + t)))))))
    ensures NodeShaped(l, id, body)
  {
  }

  lemma EdgeShapedIntro(l: string, a: string, b: string, p: string, q: string, r: string, t: string)
    requires IsWord(a) && IsWord(b)
    requires AllSpace(p) && AllSpace(q) && q != [] && AllSpace(r) && r != [] && AllSpace(t)
    requires l == p + (a + (q + ("->" + (r + (b + (";" + t))))))
    ensures EdgeShaped(l, a, b)
  {
  }

  lemma IntroducerShapedIntro(l: string, name: string, p: string, q: string, t: string)
    requires name != [] && Avoids(name, {'"'})
    requires AllSpace(p) && AllSpace(q) && q != [] && AllSpace(t)
    requires l == p + ("digraph \"" + (name + ("\"" + (q + ("{" + t)))))
    ensures IntroducerShaped(l, name)
  {
  }

  lemma MatchNodeSound(l: string)
    requires MatchNode(l).Some?
    ensures NodeShaped(l, MatchNode(l).value.0, MatchNode(l).value.1)
  {
    var s0 := Skip(l);
    SkipSound(l);
    var p := l[..SpaceLen(l)];
    WordSound(s0);
    var (id, s1) := Word(s0).value;
    SkipSomeSound(s1);
    var q, s2 := s1[..SpaceLen(s1)], SkipSome(s1).value;
    LiteralSound("[", s2);
    var s3 := Literal("[", s2).value;
    UntilSound(']', s3);
    var (body, s4) := Until(']', s3).value;
    SkipSound(s4);
    var q2, s5 := s4[..SpaceLen(s4)], Skip(s4);
    assert EndsWith(';', s5);
    EndsWithSound(';', s5);
    var t := s5[1..];
    assert MatchNode(l).value == (id, body);
    assert l == p + (id + (q + ("[" + (body + ("]" + (q2 + (";" + t)))))));
    NodeShapedIntro(l, id, body, p, q, q2, t);
  }

  /** The node recogniser accepts exactly the lines of the node pattern, and
      gives back their id and body. */
  lemma MatchNodeExact(l: string, id: string, body: string)
    ensures MatchNode(l) == Some((id, body)) <==> NodeShaped(l, id, body)
  {
    if MatchNode(l) == Some((id, body)) {
      MatchNodeSound(l);
    }
    if NodeShaped(l, id, body) {
      var p, q, q2, t :| AllSpace(p) && AllSpace(q) && q != [] && AllSpace(q2) && AllSpace(t)
         && l == p + (id + (q + ("[" + (body + ("]" + (q2 + (";" + t)))))));
      MatchNodeComplete(p, id, q, body, q2, t);
    }
  }

  lemma MatchEdgeSound(l: string)
    requires MatchEdge(l).Some?
    ensures EdgeShaped(l, MatchEdge(l).value.0, MatchEdge(l).value.1)
  {
    var s0 := Skip(l);
    SkipSound(l);
    var p := l[..SpaceLen(l)];
    WordSound(s0);
    var (a, s1) := Word(s0).value;
    SkipSomeSound(s1);
    var q, s2 := s1[..SpaceLen(s1)], SkipSome(s1).value;
    LiteralSound("->", s2);
    var s3 := Literal("->", s2).value;
    SkipSomeSound(s3);
    var r, s4 := s3[..SpaceLen(s3)], SkipSome(s3).value;
    WordSound(s4);
    var (b, s5) := Word(s4).value;
    assert EndsWith(';', s5);
    EndsWithSound(';', s5);
    var t := s5[1..];
    assert MatchEdge(l).value == (a, b);
    assert l == p + (a + (q + ("->" + (r + (b + (";" + t))))));
    EdgeShapedIntro(l, a, b, p, q, r, t);
  }

  /** The edge recogniser accepts exactly the lines of the edge pattern. */
  lemma MatchEdgeExact(l: string, a: string, b: string)
    ensures MatchEdge(l) == Some((a, b)) <==> EdgeShaped(l, a, b)
  {
    if MatchEdge(l) == Some((a, b)) {
      MatchEdgeSound(l);
    }
    if EdgeShaped(l, a, b) {
      var p, q, r, t :| AllSpace(p) && AllSpace(q) && q != [] && AllSpace(r) && r != [] && AllSpace(t)
         && l == p + (a + (q + ("->" + (r + (b + (";" + t))))));
      MatchEdgeComplete(p, a, q, r, b, t);
    }
  }

  lemma MatchIntroducerSound(l: string)
    requires MatchIntroducer(l).Some?
    ensures IntroducerShaped(l, MatchIntroducer(l).value)
  {
    var name := MatchIntroducer(l).value;
    SkipSound(l);
    var p, s0 := l[..SpaceLen(l)], Skip(l);
    LiteralSound("digraph \"", s0);
    var s1 := Literal("digraph \"", s0).value;
    UntilSound('"', s1);
    var s2 := Until('"', s1).value.1;
    SkipSomeSound(s2);
    var q, s3 := s2[..SpaceLen(s2)], SkipSome(s2).value;
    EndsWithSound('{', s3);
    var t := s3[1..];
    assert l == p + ("digraph \"" + (name + ("\"" + (q + ("{" + t)))));
    IntroducerShapedIntro(l, name, p, q, t);
  }

  /** The introducer recogniser accepts exactly the lines of its pattern. */
  lemma MatchIntroducerExact(l: string, name: string)
    ensures MatchIntroducer(l) == Some(name) <==> IntroducerShaped(l, name)
  {
    if MatchIntroducer(l) == Some(name) {
      MatchIntroducerSound(l);
    }
    if IntroducerShaped(l, name) {
      var p, q, t :| AllSpace(p) && AllSpace(q) && q != [] && AllSpace(t)
         && l == p + ("digraph \"" + (name + ("\"" + (q + ("{" + t)))));
      MatchIntroducerComplete(p, name, q, t);
    }
  }

  lemma MatchAttributeSound(a: string)
    requires MatchAttribute(a).Some?
    ensures AttributeShaped(a, MatchAttribute(a).value.0, MatchAttribute(a).value.1)
  {
    var (k, v) := MatchAttribute(a).value;
    SkipSound(a);
    var p, s0 := a[..SpaceLen(a)], Skip(a);
    WordSound(s0);
    var s1 := Word(s0).value.1;
    LiteralSound("=\"", s1);
    var s2 := Literal("=\"", s1).value;
    UntilSound('"', s2);
    var t := Until('"', s2).value.1;
    assert a == p + (k + ("=\"" + (v + ("\"" + t))));
  }

  /** The attribute recogniser accepts exactly the chunks that start with
      its pattern. */
  lemma MatchAttributeExact(a: string, k: string, v: string)
    ensures MatchAttribute(a) == Some((k, v)) <==> AttributeShaped(a, k, v)
  {
    if MatchAttribute(a) == Some((k, v)) {
      MatchAttributeSound(a);
    }
    if AttributeShaped(a, k, v) {
      var p, t :| AllSpace(p) && a == p + (k + ("=\"" + (v + ("\"" + t))));
      MatchAttributeComplete(p, k, v, t);
    }
  }

  /** The closer recogniser accepts exactly `}` with surrounding whitespace. */
  lemma CloserExact(l: string)
    ensures IsCloser(l) <==> CloserShaped(l)
  {
    if IsCloser(l) {
      SkipSound(l);
      var p, s0 := l[..SpaceLen(l)], Skip(l);
      EndsWithSound('}', s0);
      assert l == p + ("}" + s0[1..]);
    }
    if CloserShaped(l) {
      var p, t :| AllSpace(p) && AllSpace(t) && l == p + ("}" + t);
      CloserComplete(p, t);
    }
  }
}
