/** The string handling the DOT-subset codec relies on: the character classes
    of its patterns, `str.strip()`, `str.split(sep)`, `str.splitlines()` and
    `sep.join(xs)`, over the characters of Python's `str`. */
module Text {

  /** `\w` of the patterns, in its ASCII meaning: letters, digits and
      underscore. Over `str`, Python also counts non-ASCII letters and digits. */
  predicate IsWordChar(c: char) {
    ('a' <= c <= 'z') || ('A' <= c <= 'Z') || ('0' <= c <= '9') || c == '_'
  }

  /** The characters `str.isspace()` accepts: what `strip()` removes and what
      `\s` matches in a pattern over `str`. */
  predicate IsSpace(c: char) {
    || c == ' ' || '\t' <= c <= '\r' || '\U{001C}' <= c <= '\U{001F}'
    || c == '\U{0085}' || c == '\U{00A0}' || c == '\U{1680}' || '\U{2000}' <= c <= '\U{200A}'
    || c == '\U{2028}' || c == '\U{2029}' || c == '\U{202F}' || c == '\U{205F}' || c == '\U{3000}'
  }

  /** The line boundaries `splitlines()` recognises. */
  const LineBreaks: set<char> :=
    {'\n', '\r', '\U{000B}', '\U{000C}', '\U{001C}', '\U{001D}', '\U{001E}', '\U{0085}', '\U{2028}', '\U{2029}'}

  /** One or more word characters: an identifier or an attribute key. */
  predicate IsWord(s: string) {
    |s| > 0 && forall c :: c in s ==> IsWordChar(c)
  }

  predicate AllSpace(s: string) {
    forall c :: c in s ==> IsSpace(c)
  }

  /** No character of `s` is in `cs`. */
  predicate Avoids(s: string, cs: set<char>) {
    forall c :: c in s ==> c !in cs
  }

  /** A non-blank string that `strip()` leaves alone and that contains no
      separator: what one segment of a split looks like when it survives. */
  predicate IsToken(s: string, seps: set<char>) {
    s != [] && !IsSpace(s[0]) && !IsSpace(s[|s| - 1]) && Avoids(s, seps)
  }

  function TrimStart(s: string): (r: string)
    ensures r == [] || !IsSpace(r[0])
  {
    if s != [] && IsSpace(s[0]) then TrimStart(s[1..]) else s
  }

  function TrimEnd(s: string): (r: string)
    ensures |r| <= |s|
    ensures r == [] || (r[0] == s[0] && !IsSpace(r[|r| - 1]))
  {
    if s != [] && IsSpace(s[|s| - 1]) then TrimEnd(s[..|s| - 1]) else s
  }

  /** `s.strip()`. */
  function Strip(s: string): (r: string)
    ensures r == [] || (!IsSpace(r[0]) && !IsSpace(r[|r| - 1]))
  {
    TrimEnd(TrimStart(s))
  }

  /** `s.split(sep)` generalised to a set of separator characters; with
      `LineBreaks` it gives the segments `splitlines()` would see. */
  function Split(s: string, seps: set<char>): (r: seq<string>)
    ensures |r| >= 1
  {
    if s == [] then [""]
    else if s[0] in seps then [""] + Split(s[1..], seps)
    else
      var t := Split(s[1..], seps);
      [[s[0]] + t[0]] + t[1..]
  }

  /** What one element contributes to `[x.strip() for x in xs if x.strip()]`. */
  function Kept(x: string): seq<string> {
    if Strip(x) == [] then [] else [Strip(x)]
  }

  /** `[x.strip() for x in xs if x.strip()]`. */
  function StrippedNonBlank(xs: seq<string>): (r: seq<string>)
    ensures |r| <= |xs|
  {
    if xs == [] then [] else Kept(xs[0]) + StrippedNonBlank(xs[1..])
  }

  /** `[l.strip() for l in data.splitlines() if l.strip()]`. */
  function Lines(data: string): seq<string> {
    StrippedNonBlank(Split(data, LineBreaks))
  }

  /** `sep.join(xs)`. */
  function Join(xs: seq<string>, sep: string): string {
    if xs == [] then ""
    else if |xs| == 1 then xs[0]
    else xs[0] + sep + Join(xs[1..], sep)
  }

  lemma {:induction false} TrimStartSpaces(p: string, t: string)
    requires AllSpace(p)
    requires t == [] || !IsSpace(t[0])
    ensures TrimStart(p + t) == t
  {
    if p != [] {
      assert (p + t)[1..] == p[1..] + t;
      TrimStartSpaces(p[1..], t);
    }
  }

  lemma {:induction false} TrimEndSpaces(t: string, q: string)
    requires AllSpace(q)
    requires t == [] || !IsSpace(t[|t| - 1])
    ensures TrimEnd(t + q) == t
  {
    if q != [] {
      var q' := q[..|q| - 1];
      assert (t + q)[..|t + q| - 1] == t + q';
      TrimEndSpaces(t, q');
    }
  }

  /** Surrounding whitespace is all `strip()` removes. */
  lemma StripPadded(p: string, x: string, q: string)
    requires AllSpace(p) && AllSpace(q)
    requires x != [] && !IsSpace(x[0]) && !IsSpace(x[|x| - 1])
    ensures Strip(p + x + q) == x
  {
    assert p + x + q == p + (x + q);
    TrimStartSpaces(p, x + q);
    TrimEndSpaces(x, q);
  }

  lemma StripBlank(p: string)
    requires AllSpace(p)
    ensures Strip(p) == []
  {
    assert p + [] == p;
    TrimStartSpaces(p, []);
  }

  lemma {:induction false} SplitAvoiding(s: string, seps: set<char>)
    requires Avoids(s, seps)
    ensures Split(s, seps) == [s]
  {
    if s != [] {
      SplitAvoiding(s[1..], seps);
      assert [s[0]] + s[1..] == s;
    }
  }

  /** No piece of a split contains a separator. */
  lemma {:induction false} SplitPiecesAvoid(s: string, seps: set<char>)
    ensures forall x :: x in Split(s, seps) ==> Avoids(x, seps)
  {
    if s != [] {
      SplitPiecesAvoid(s[1..], seps);
      var t := Split(s[1..], seps);
      if s[0] !in seps {
        assert t[0] in t;
        forall x | x in t[1..] ensures x in t {
          var i :| 0 <= i < |t[1..]| && t[1..][i] == x;
          assert t[i + 1] == x;
        }
      }
    }
  }

  /** What survives `[x.strip() for x in xs if x.strip()]` is non-blank and
      has no whitespace at either end, and was stripped from an element. */
  lemma StrippedNonBlankPieces(xs: seq<string>)
    ensures forall x :: x in StrippedNonBlank(xs) ==>
      x != [] && !IsSpace(x[0]) && !IsSpace(x[|x| - 1]) && exists y :: y in xs && x == Strip(y)
  {
    forall x | x in StrippedNonBlank(xs)
      ensures x != [] && !IsSpace(x[0]) && !IsSpace(x[|x| - 1]) && exists y :: y in xs && x == Strip(y)
    {
      PieceOrigin(xs, x);
    }
  }

  /** Each survivor is the non-empty strip of some element. */
  lemma {:induction false} PieceOrigin(xs: seq<string>, x: string)
    requires x in StrippedNonBlank(xs)
    ensures x != [] && exists y :: y in xs && x == Strip(y)
    decreases |xs|
  {
    assert StrippedNonBlank(xs) == Kept(xs[0]) + StrippedNonBlank(xs[1..]);
    if x in Kept(xs[0]) {
      assert x == Strip(xs[0]) && xs[0] in xs;
    } else {
      PieceOrigin(xs[1..], x);
      var y :| y in xs[1..] && x == Strip(y);
      assert y in xs;
    }
  }

  /** A separator cuts the input in two independently split halves. */
  lemma {:induction false} SplitAt(a: string, c: char, b: string, seps: set<char>)
    requires c in seps
    ensures Split(a + [c] + b, seps) == Split(a, seps) + Split(b, seps)
  {
    var s := a + [c] + b;
    if a == [] {
      assert s == [c] + b && s[1..] == b;
    } else {
      assert s[0] == a[0] && s[1..] == a[1..] + [c] + b;
      SplitAt(a[1..], c, b, seps);
      var ta := Split(a[1..], seps);
      var tb := Split(b, seps);
      if a[0] in seps {
        assert Split(s, seps) == [""] + (ta + tb);
        assert Split(a, seps) == [""] + ta;
      } else {
        assert Split(s, seps) == [[a[0]] + (ta + tb)[0]] + (ta + tb)[1..];
        assert Split(a, seps) == [[a[0]] + ta[0]] + ta[1..];
        HeadMerge([a[0]], ta, tb);
      }
    }
  }

  lemma HeadMerge(h: string, ta: seq<string>, tb: seq<string>)
    requires |ta| >= 1
    ensures [h + (ta + tb)[0]] + (ta + tb)[1..] == ([h + ta[0]] + ta[1..]) + tb
  {
    assert (ta + tb)[0] == ta[0];
    assert (ta + tb)[1..] == ta[1..] + tb;
  }

  /** Joining the pieces of a split with the same separator gives the input
      back: `sep.join(s.split(sep)) == s`. */
  lemma {:induction false} JoinSplit(s: string, c: char)
    ensures Join(Split(s, {c}), [c]) == s
  {
    if s != [] {
      JoinSplit(s[1..], c);
      var t := Split(s[1..], {c});
      if s[0] == c {
        assert Split(s, {c}) == [""] + t;
        assert ([""] + t)[1..] == t;
      } else {
        var r := Split(s, {c});
        assert r == [[s[0]] + t[0]] + t[1..];
        if |t| > 1 {
          assert r[1..] == t[1..];
          assert Join(t, [c]) == t[0] + [c] + Join(t[1..], [c]);
        }
      }
    }
  }

  lemma {:induction false} StrippedNonBlankAppend(a: seq<string>, b: seq<string>)
    ensures StrippedNonBlank(a + b) == StrippedNonBlank(a) + StrippedNonBlank(b)
  {
    if a == [] {
      assert a + b == b;
    } else {
      assert (a + b)[0] == a[0];
      assert (a + b)[1..] == a[1..] + b;
      StrippedNonBlankAppend(a[1..], b);
    }
  }

  /** Splitting at line breaks, stripping and dropping blanks is compositional
      over a newline. */
  lemma LinesAt(a: string, b: string)
    ensures Lines(a + "\n" + b) == Lines(a) + Lines(b)
  {
    SplitAt(a, '\n', b, LineBreaks);
    StrippedNonBlankAppend(Split(a, LineBreaks), Split(b, LineBreaks));
  }

  /** `Avoids` checked position by position, which is the cheap way to
      establish it for a string literal. */
  lemma AvoidsByIndex(s: string, cs: set<char>)
    requires forall i :: 0 <= i < |s| ==> s[i] !in cs
    ensures Avoids(s, cs)
  {
    forall c | c in s ensures c !in cs {
      var i :| 0 <= i < |s| && s[i] == c;
    }
  }

  lemma AllSpaceByIndex(s: string)
    requires forall i :: 0 <= i < |s| ==> IsSpace(s[i])
    ensures AllSpace(s)
  {
    forall c | c in s ensures IsSpace(c) {
      var i :| 0 <= i < |s| && s[i] == c;
    }
  }

  /** A join avoids whatever its pieces and its separator avoid. */
  lemma {:induction false} JoinAvoids(xs: seq<string>, sep: string, cs: set<char>)
    requires Avoids(sep, cs) && forall i :: 0 <= i < |xs| ==> Avoids(xs[i], cs)
    ensures Avoids(Join(xs, sep), cs)
  {
    if |xs| > 1 {
      JoinAvoids(xs[1..], sep, cs);
    }
  }

  /** A padded token is one surviving piece. */
  lemma PaddedToken(p: string, x: string, q: string, seps: set<char>)
    requires AllSpace(p) && AllSpace(q) && Avoids(p, seps) && Avoids(q, seps)
    requires IsToken(x, seps)
    ensures StrippedNonBlank(Split(p + x + q, seps)) == [x]
  {
    SplitAvoiding(p + x + q, seps);
    StripPadded(p, x, q);
    assert StrippedNonBlank([p + x + q]) == [x] + StrippedNonBlank([]);
  }

  /** Padding alone leaves no piece. */
  lemma PaddingOnly(p: string, q: string, seps: set<char>)
    requires AllSpace(p) && AllSpace(q) && Avoids(p, seps) && Avoids(q, seps)
    ensures StrippedNonBlank(Split(p + q, seps)) == []
  {
    SplitAvoiding(p + q, seps);
    StripBlank(p + q);
    assert StrippedNonBlank([p + q]) == [] + StrippedNonBlank([]);
  }

  /** Concatenation regroups; stated once for the proofs whose context is
      too large for the solver to regroup unaided. */
  lemma ConcatAssoc<T>(a: seq<T>, b: seq<T>, c: seq<T>)
    ensures (a + b) + c == a + (b + c)
  {
  }

  /** A token, a separator, and text whose pieces are already known. */
  lemma PaddedJoinCons(p: string, x: string, c: char, rest: string, seps: set<char>, tail: seq<string>)
    requires c in seps && AllSpace(p) && Avoids(p, seps) && IsToken(x, seps)
    requires StrippedNonBlank(Split(rest, seps)) == tail
    ensures StrippedNonBlank(Split((p + x) + [c] + rest, seps)) == [x] + tail
  {
    assert p + x + [] == p + x;
    PaddedToken(p, x, [], seps);
    PiecesCons(p + x, c, rest, seps, [x], tail);
  }

  /** The surviving pieces of text cut at a separator are those of its two
      halves. */
  lemma PiecesCons(u: string, c: char, rest: string, seps: set<char>, head: seq<string>, tail: seq<string>)
    requires c in seps
    requires StrippedNonBlank(Split(u, seps)) == head
    requires StrippedNonBlank(Split(rest, seps)) == tail
    ensures StrippedNonBlank(Split(u + [c] + rest, seps)) == head + tail
  {
    SplitAt(u, c, rest, seps);
    StrippedNonBlankAppend(Split(u, seps), Split(rest, seps));
  }

  lemma JoinConsPieces(p: string, x: string, c: char, pad: string, j: string, q: string, seps: set<char>, tail: seq<string>)
    requires c in seps && AllSpace(p) && Avoids(p, seps) && IsToken(x, seps)
    requires StrippedNonBlank(Split(pad + j + q, seps)) == tail
    ensures StrippedNonBlank(Split(p + (x + ([c] + pad) + j) + q, seps)) == [x] + tail
  {
    assert p + (x + ([c] + pad) + j) + q == (p + x) + [c] + (pad + j + q);
    PaddedJoinCons(p, x, c, pad + j + q, seps, tail);
  }

  /** The pieces `sep.join(xs)` is made of come back out of split-strip-filter
      when the separator is one separator character followed by padding, and
      the whole text may carry further padding at both ends. */
  lemma {:induction false} PartsOfPaddedJoin(xs: seq<string>, c: char, pad: string, p: string, q: string, seps: set<char>)
    requires c in seps
    requires AllSpace(pad) && AllSpace(p) && AllSpace(q)
    requires Avoids(pad, seps) && Avoids(p, seps) && Avoids(q, seps)
    requires forall x :: x in xs ==> IsToken(x, seps)
    ensures StrippedNonBlank(Split(p + Join(xs, [c] + pad) + q, seps)) == xs
  {
    if xs == [] {
      assert Join(xs, [c] + pad) == [] && p + [] == p;
      PaddingOnly(p, q, seps);
    } else if |xs| == 1 {
      assert Join(xs, [c] + pad) == xs[0] && xs[0] in xs;
      PaddedToken(p, xs[0], q, seps);
    } else {
      var tl := xs[1..];
      assert xs == [xs[0]] + tl;
      forall y | y in tl ensures IsToken(y, seps) {
        assert y in xs;
      }
      PartsOfPaddedJoin(tl, c, pad, pad, q, seps);
      assert xs[0] in xs;
      JoinConsPieces(p, xs[0], c, pad, Join(tl, [c] + pad), q, seps, tl);
    }
  }
}
