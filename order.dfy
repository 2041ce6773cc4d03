/** Python's ordering of strings (code point by code point, a proper prefix
    first), the sort the emitter applies to node ids, and the enumeration of a
    set or of a dictionary's keys in some unspecified order. */
module Order {

  /** `a < b` on Python strings. */
  predicate Less(a: string, b: string) {
    if a == [] then b != []
    else b != [] && (a[0] < b[0] || (a[0] == b[0] && Less(a[1..], b[1..])))
  }

  lemma {:induction false} LessIrreflexive(a: string)
    ensures !Less(a, a)
  {
    if a != [] { LessIrreflexive(a[1..]); }
  }

  lemma {:induction false} LessTransitive(a: string, b: string, c: string)
    requires Less(a, b) && Less(b, c)
    ensures Less(a, c)
  {
    if a != [] && a[0] == b[0] && b[0] == c[0] {
      LessTransitive(a[1..], b[1..], c[1..]);
    }
  }

  /** Any two different strings are ordered one way. */
  lemma {:induction false} LessTotal(a: string, b: string)
    requires a != b
    ensures Less(a, b) || Less(b, a)
  {
    if a != [] && b != [] && a[0] == b[0] {
      assert a == [a[0]] + a[1..] && b == [b[0]] + b[1..];
      LessTotal(a[1..], b[1..]);
    }
  }

  lemma {:induction false} LessAsymmetric(a: string, b: string)
    requires Less(a, b)
    ensures !Less(b, a)
  {
    if a != [] && a[0] == b[0] {
      LessAsymmetric(a[1..], b[1..]);
    }
  }

  predicate IsLeast(m: string, s: set<string>) {
    m in s && forall x :: x in s && x != m ==> Less(m, x)
  }

  /** Every non-empty finite set of strings has a least element. */
  lemma {:induction false} LeastExists(s: set<string>)
    requires s != {}
    ensures exists m :: IsLeast(m, s)
    decreases |s|
  {
    var y :| y in s;
    if s - {y} == {} {
      assert s == {y};
      assert IsLeast(y, s);
    } else {
      LeastExists(s - {y});
      var m :| IsLeast(m, s - {y});
      if Less(m, y) {
        forall x | x in s && x != m ensures Less(m, x) {
          if x == y {} else { assert x in s - {y}; }
        }
        assert IsLeast(m, s);
      } else {
        LessTotal(m, y);
        forall x | x in s && x != y ensures Less(y, x) {
          if x != m { LessTransitive(y, m, x); }
        }
        assert IsLeast(y, s);
      }
    }
  }

  predicate StrictlyAscending(xs: seq<string>) {
    forall i, j :: 0 <= i < j < |xs| ==> Less(xs[i], xs[j])
  }

  /** `xs` lists every element of `s` exactly once. */
  predicate IsListing<T(==)>(xs: seq<T>, s: set<T>) {
    (forall i, j :: 0 <= i < j < |xs| ==> xs[i] != xs[j])
    && (forall x :: x in xs ==> x in s)
    && (forall x :: x in s ==> x in xs)
  }

  lemma ListingEmpty<T>(xs: seq<T>, s: set<T>)
    requires IsListing(xs, s)
    ensures xs == [] <==> s == {}
  {
    if xs != [] { assert xs[0] in s; }
  }

  /** The sorted listing of a set is unique, so "the ids in ascending order"
      determines one sequence. */
  lemma {:induction false} AscendingListingUnique(xs: seq<string>, ys: seq<string>, s: set<string>)
    requires StrictlyAscending(xs) && IsListing(xs, s)
    requires StrictlyAscending(ys) && IsListing(ys, s)
    ensures xs == ys
    decreases |xs|
  {
    ListingEmpty(xs, s);
    ListingEmpty(ys, s);
    if xs != [] {
      // both heads are the least element of s
      if xs[0] != ys[0] {
        LessTotal(xs[0], ys[0]);
        assert xs[0] in s && xs[0] in ys && ys[0] in s && ys[0] in xs;
        var i :| 0 <= i < |ys| && ys[i] == xs[0];
        var j :| 0 <= j < |xs| && xs[j] == ys[0];
        assert i > 0 && j > 0;
        LessAsymmetric(ys[0], ys[i]);
        assert false;
      }
      var s' := s - {xs[0]};
      forall i, j | 0 <= i < j < |xs[1..]| ensures xs[1..][i] != xs[1..][j] {
        assert xs[1..][i] == xs[i + 1];
      }
      forall x ensures x in xs[1..] <==> x in s' {
        if x in xs[1..] {
          var k :| 0 <= k < |xs[1..]| && xs[1..][k] == x;
          assert xs[k + 1] == x;
        }
        if x in s' {
          var k :| 0 <= k < |xs| && xs[k] == x;
          assert k != 0;
          assert xs[1..][k - 1] == x;
        }
      }
      forall i, j | 0 <= i < j < |ys[1..]| ensures ys[1..][i] != ys[1..][j] {
        assert ys[1..][i] == ys[i + 1];
      }
      forall x ensures x in ys[1..] <==> x in s' {
        if x in ys[1..] {
          var k :| 0 <= k < |ys[1..]| && ys[1..][k] == x;
          assert ys[k + 1] == x;
        }
        if x in s' {
          var k :| 0 <= k < |ys| && ys[k] == x;
          assert k != 0;
          assert ys[1..][k - 1] == x;
        }
      }
      AscendingListingUnique(xs[1..], ys[1..], s');
      assert xs == [xs[0]] + xs[1..] && ys == [ys[0]] + ys[1..];
    }
  }

  /** An element of a listing does not occur before its own position. */
  lemma ListingFresh<T>(xs: seq<T>, s: set<T>, i: int)
    requires IsListing(xs, s) && 0 <= i < |xs|
    ensures xs[i] !in xs[..i]
  {
    forall j | 0 <= j < i ensures xs[..i][j] != xs[i] {
      assert xs[..i][j] == xs[j];
    }
  }

  /** `sorted(s)`: the elements of `s` in ascending order, each once. */
  method SortIds(s: set<string>) returns (xs: seq<string>)
    ensures StrictlyAscending(xs) && IsListing(xs, s)
  {
    xs := [];
    var remaining := s;
    while remaining != {}
      invariant StrictlyAscending(xs) && IsListing(xs, s - remaining)
      invariant remaining <= s
      invariant forall i, x :: 0 <= i < |xs| && x in remaining ==> Less(xs[i], x)
      decreases |remaining|
    {
      LeastExists(remaining);
      var m :| IsLeast(m, remaining);
      xs := xs + [m];
      remaining := remaining - {m};
    }
  }

  /** Iterating over a set or a dictionary's keys: every element once, in an
      order the model leaves open. */
  method Enumerate<T(==)>(s: set<T>) returns (xs: seq<T>)
    ensures IsListing(xs, s)
  {
    xs := [];
    var remaining := s;
    while remaining != {}
      invariant IsListing(xs, s - remaining)
      invariant remaining <= s
      decreases |remaining|
    {
      var x :| x in remaining;
      xs := xs + [x];
      remaining := remaining - {x};
    }
  }
}
