/**
 The two JavaScript built-ins the relay dialer leans on, over Dafny values:
 `Array.prototype.filter` (ArrayFilter) and `String.prototype.split` with a
 non-empty string separator (StringSplit), together with the laws the dialer's
 contracts are built from.
 */
module JsBuiltins {

  /** `a` can be obtained from `b` by deleting elements, without reordering. */
  predicate IsSubsequence<T(==,!new)>(a: seq<T>, b: seq<T>)
    decreases |b|
  {
    if a == [] then true
    else if b == [] then false
    else if a[0] == b[0] then IsSubsequence(a[1..], b[1..])
    else IsSubsequence(a, b[1..])
  }

  /** `xs.filter(keep)`: the elements that pass `keep`, in their original order. */
  function ArrayFilter<T(==,!new)>(keep: T -> bool, xs: seq<T>): (r: seq<T>)
    ensures |r| <= |xs|
    ensures forall i :: 0 <= i < |r| ==> keep(r[i])
  {
    if xs == [] then []
    else
      var rest := ArrayFilter(keep, xs[1..]);
      assert xs == [xs[0]] + xs[1..];
      if keep(xs[0]) then [xs[0]] + rest else rest
  }

  /** An element is in the result exactly when it is in the input and passes,
      and it occurs there as often as in the input. */
  lemma {:induction false} ArrayFilterMembers<T(!new)>(keep: T -> bool, xs: seq<T>)
    ensures forall x :: x in ArrayFilter(keep, xs) <==> x in xs && keep(x)
    ensures forall x :: multiset(ArrayFilter(keep, xs))[x] == if keep(x) then multiset(xs)[x] else 0
    decreases |xs|
  {
    if xs != [] {
      ArrayFilterMembers(keep, xs[1..]);
      assert xs == [xs[0]] + xs[1..];
    }
  }

  /** What the filter returns is taken from its input in order. */
  lemma {:induction false} ArrayFilterIsSubsequence<T(!new)>(keep: T -> bool, xs: seq<T>)
    ensures IsSubsequence(ArrayFilter(keep, xs), xs)
    decreases |xs|
  {
    if xs != [] {
      var rest := ArrayFilter(keep, xs[1..]);
      ArrayFilterIsSubsequence(keep, xs[1..]);
      if keep(xs[0]) {
        assert ([xs[0]] + rest)[1..] == rest;
      } else {
        SubsequenceDropHead(rest, xs);
      }
    }
  }

  /** Deleting the head of `b` keeps `a` a subsequence of `b`. */
  lemma {:induction false} SubsequenceDropHead<T(!new)>(a: seq<T>, b: seq<T>)
    requires b != [] && IsSubsequence(a, b[1..])
    ensures IsSubsequence(a, b)
    decreases |b|, 0
  {
    if a != [] && a[0] == b[0] {
      SubsequenceDropFirst(a, b[1..]);
    }
  }

  /** Deleting the head of `a` keeps it a subsequence of `c`. */
  lemma {:induction false} SubsequenceDropFirst<T(!new)>(a: seq<T>, c: seq<T>)
    requires a != [] && IsSubsequence(a, c)
    ensures IsSubsequence(a[1..], c)
    decreases |c|, 1
  {
    if a[0] == c[0] {
      if a[1..] != [] {
        SubsequenceDropHead(a[1..], c);
      }
    } else {
      SubsequenceDropFirst(a, c[1..]);
      if a[1..] != [] {
        SubsequenceDropHead(a[1..], c);
      }
    }
  }

  /** Filtering a sequence every element of which passes changes nothing. */
  lemma {:induction false} ArrayFilterKeepsAll<T(!new)>(keep: T -> bool, xs: seq<T>)
    requires forall i :: 0 <= i < |xs| ==> keep(xs[i])
    ensures ArrayFilter(keep, xs) == xs
    decreases |xs|
  {
    if xs != [] {
      ArrayFilterKeepsAll(keep, xs[1..]);
      assert xs == [xs[0]] + xs[1..];
    }
  }

  /** Filtering twice with the same test is filtering once. */
  lemma ArrayFilterIdempotent<T(!new)>(keep: T -> bool, xs: seq<T>)
    ensures ArrayFilter(keep, ArrayFilter(keep, xs)) == ArrayFilter(keep, xs)
  {
    ArrayFilterKeepsAll(keep, ArrayFilter(keep, xs));
  }

  /** The concatenation of `f(x)` over the elements `x` of `xs`, in order:
      what nested `forEach` loops over `xs` and each `f(x)` visit. */
  function FlatMap<T, U>(f: T -> seq<U>, xs: seq<T>): seq<U>
    decreases |xs|
  {
    if xs == [] then [] else FlatMap(f, xs[..|xs| - 1]) + f(xs[|xs| - 1])
  }

  /** Flat-mapping two sequences is flat-mapping each and concatenating. */
  lemma {:induction false} FlatMapAppend<T, U>(f: T -> seq<U>, a: seq<T>, b: seq<T>)
    ensures FlatMap(f, a + b) == FlatMap(f, a) + FlatMap(f, b)
    decreases |b|
  {
    if b == [] {
      assert a + b == a;
    } else {
      var n := |b| - 1;
      FlatMapAppend(f, a, b[..n]);
      assert (a + b)[..|a + b| - 1] == a + b[..n];
      assert (a + b)[|a + b| - 1] == b[n];
    }
  }

  /** Every element of a flat map comes from `f` of some element. */
  lemma {:induction false} FlatMapOrigin<T, U>(f: T -> seq<U>, xs: seq<T>, k: nat)
    requires k < |FlatMap(f, xs)|
    ensures exists i :: 0 <= i < |xs| && FlatMap(f, xs)[k] in f(xs[i])
    decreases |xs|
  {
    var n := |xs| - 1;
    var front := FlatMap(f, xs[..n]);
    if k < |front| {
      FlatMapOrigin(f, xs[..n], k);
      var i :| 0 <= i < n && front[k] in f(xs[..n][i]);
      assert xs[..n][i] == xs[i];
    } else {
      assert FlatMap(f, xs)[k] == f(xs[n])[k - |front|];
    }
  }

  /** Whether `d` occurs as a contiguous block somewhere in `s`. */
  predicate Occurs(s: string, d: string)
    decreases |s|
  {
    if d <= s then true
    else if s == [] then false
    else Occurs(s[1..], d)
  }

  /** `s.split(d)` for a non-empty separator `d`: `s` is scanned from the left,
      cut at every occurrence of `d` that does not overlap an earlier cut, and
      the separators are dropped; an empty `s` gives one empty piece. */
  function StringSplit(s: string, d: string): (pieces: seq<string>)
    requires d != []
    ensures |pieces| >= 1
    ensures pieces[0] <= s
    decreases |s|
  {
    if d <= s then [""] + StringSplit(s[|d|..], d)
    else if s == [] then [""]
    else
      var rest := StringSplit(s[1..], d);
      [[s[0]] + rest[0]] + rest[1..]
  }

  /** `pieces.join(d)`: the pieces with one `d` between each neighbouring pair. */
  function ArrayJoin(pieces: seq<string>, d: string): (s: string)
    requires |pieces| >= 1
    decreases |pieces|
  {
    if |pieces| == 1 then pieces[0] else pieces[0] + d + ArrayJoin(pieces[1..], d)
  }

  /** Joining the pieces of a split with the same separator restores the string. */
  lemma {:induction false} JoinSplit(s: string, d: string)
    requires d != []
    ensures ArrayJoin(StringSplit(s, d), d) == s
    decreases |s|
  {
    if d <= s {
      JoinSplit(s[|d|..], d);
      JoinSplitAtSeparator(s, d);
    } else if s != [] {
      JoinSplit(s[1..], d);
      JoinSplitAtChar(s, d);
    }
  }

  lemma JoinSplitAtSeparator(s: string, d: string)
    requires d != [] && d <= s
    requires ArrayJoin(StringSplit(s[|d|..], d), d) == s[|d|..]
    ensures ArrayJoin(StringSplit(s, d), d) == s
  {
    var tail := StringSplit(s[|d|..], d);
    assert StringSplit(s, d) == [""] + tail;
    JoinCons("", tail, d);
    assert "" + d == d;
    assert s == d + s[|d|..];
  }

  lemma JoinSplitAtChar(s: string, d: string)
    requires d != [] && !(d <= s) && s != []
    requires ArrayJoin(StringSplit(s[1..], d), d) == s[1..]
    ensures ArrayJoin(StringSplit(s, d), d) == s
  {
    var rest := StringSplit(s[1..], d);
    JoinExtendHead([s[0]], rest, d);
    assert s == [s[0]] + s[1..];
  }

  /** Joining a piece in front of at least one other adds one separator. */
  lemma JoinCons(p: string, ps: seq<string>, d: string)
    requires |ps| >= 1
    ensures ArrayJoin([p] + ps, d) == p + d + ArrayJoin(ps, d)
  {
    assert ([p] + ps)[1..] == ps;
  }

  /** Extending the first piece extends the joined string at its front. */
  lemma JoinExtendHead(c: string, ps: seq<string>, d: string)
    requires |ps| >= 1
    ensures ArrayJoin([c + ps[0]] + ps[1..], d) == c + ArrayJoin(ps, d)
  {
    if |ps| > 1 {
      JoinCons(c + ps[0], ps[1..], d);
      JoinCons(ps[0], ps[1..], d);
      assert ps == [ps[0]] + ps[1..];
    }
  }

  /** No piece of a split contains the separator. */
  lemma {:induction false} SplitPiecesFree(s: string, d: string)
    requires d != []
    ensures forall i :: 0 <= i < |StringSplit(s, d)| ==> !Occurs(StringSplit(s, d)[i], d)
    decreases |s|
  {
    var pieces := StringSplit(s, d);
    if d <= s {
      SplitPiecesFree(s[|d|..], d);
      assert !Occurs("", d);
      forall i | 1 <= i < |pieces| ensures pieces[i] == StringSplit(s[|d|..], d)[i - 1] { }
    } else if s != [] {
      var rest := StringSplit(s[1..], d);
      SplitPiecesFree(s[1..], d);
      var head := [s[0]] + rest[0];
      assert head[1..] == rest[0];
      assert head <= s;
      assert !(d <= head);
      assert !Occurs(head, d);
      forall i | 1 <= i < |pieces| ensures pieces[i] == rest[i] { }
    }
  }

  /** A string in which the separator does not occur splits into itself. */
  lemma {:induction false} SplitWithoutSeparator(s: string, d: string)
    requires d != [] && !Occurs(s, d)
    ensures StringSplit(s, d) == [s]
    decreases |s|
  {
    if s != [] {
      SplitWithoutSeparator(s[1..], d);
      assert s == [s[0]] + s[1..];
    }
  }

  /** A prefix of a string free of `d` is free of `d`. */
  lemma {:induction false} NotOccursInPrefix(p: string, s: string, d: string)
    requires p <= s && !Occurs(s, d)
    ensures !Occurs(p, d)
    decreases |p|
  {
    if p != [] {
      assert p[1..] <= s[1..];
      NotOccursInPrefix(p[1..], s[1..], d);
    }
  }

  /** `a` followed by the separator, where the first occurrence of the separator
      is the one just after `a`, splits into `a` and the pieces of the rest.
      `!Occurs(a + d[..|d| - 1], d)` says that no occurrence starts inside `a`. */
  lemma {:induction false} SplitAtFirst(a: string, d: string, b: string)
    requires d != [] && !Occurs(a + d[..|d| - 1], d)
    ensures StringSplit(a + d + b, d) == [a] + StringSplit(b, d)
    decreases |a|
  {
    if a == [] {
      assert a + d + b == d + b;
      assert (d + b)[|d|..] == b;
    } else {
      var s := a + d + b;
      var early := a + d[..|d| - 1];
      assert !(d <= early);
      assert s[..|d|] == early[..|d|];
      assert !(d <= s);
      assert s[1..] == a[1..] + d + b;
      assert early[1..] == a[1..] + d[..|d| - 1];
      SplitAtFirst(a[1..], d, b);
      assert a == [a[0]] + a[1..];
    }
  }

  /** No occurrence of `d` starts inside `p`, not even one that would run on
      into a separator written right after `p`. */
  predicate ClearOf(p: string, d: string)
    requires d != []
  {
    !Occurs(p + d[..|d| - 1], d)
  }

  /** Splitting pieces joined with `d` gives the pieces back, provided no
      occurrence of `d` starts inside any of them. */
  lemma {:induction false} SplitJoin(ps: seq<string>, d: string)
    requires d != [] && |ps| >= 1
    requires forall i :: 0 <= i < |ps| ==> ClearOf(ps[i], d)
    ensures StringSplit(ArrayJoin(ps, d), d) == ps
    decreases |ps|
  {
    if |ps| == 1 {
      NotOccursInPrefix(ps[0], ps[0] + d[..|d| - 1], d);
      SplitWithoutSeparator(ps[0], d);
    } else {
      assert ClearOf(ps[0], d);
      SplitAtFirst(ps[0], d, ArrayJoin(ps[1..], d));
      SplitJoin(ps[1..], d);
      assert ps == [ps[0]] + ps[1..];
    }
  }

  /** Keeping the pieces that pass `keep` after splitting a join of pieces
      that all pass and are clear of the separator gives those pieces back. */
  lemma FilterSplitJoin(keep: string -> bool, ps: seq<string>, d: string)
    requires d != [] && |ps| >= 1
    requires forall i :: 0 <= i < |ps| ==> keep(ps[i]) && ClearOf(ps[i], d)
    ensures ArrayFilter(keep, StringSplit(ArrayJoin(ps, d), d)) == ps
  {
    SplitJoin(ps, d);
    ArrayFilterKeepsAll(keep, ps);
  }
}
