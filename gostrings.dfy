/**
  The functions of Go's `strings` package that the changelog code relies on, for a
  one-character separator: `strings.SplitN` (with its `n == 0` and `n < 0` cases) and
  `strings.Join`. `Count` and `Index` are helpers that define and specify `SplitN`.
 */
module GoStrings {

  /** Number of occurrences of `c` in `s`. */
  function Count(s: string, c: char): (k: nat)
    ensures k <= |s|
  {
    if s == [] then 0 else (if s[0] == c then 1 else 0) + Count(s[1..], c)
  }

  /** No occurrence is counted exactly when there is none. */
  lemma {:induction false} CountZero(s: string, c: char)
    ensures Count(s, c) == 0 <==> c !in s
  {
    if s != [] {
      assert s == [s[0]] + s[1..];
      CountZero(s[1..], c);
    }
  }

  lemma {:induction false} CountAppend(a: string, b: string, c: char)
    ensures Count(a + b, c) == Count(a, c) + Count(b, c)
  {
    if a == [] {
      assert a + b == b;
    } else {
      assert (a + b)[0] == a[0];
      assert (a + b)[1..] == a[1..] + b;
      CountAppend(a[1..], b, c);
    }
  }

  /** Position of the first `c` in `s`, or -1 when there is none. */
  function Index(s: string, c: char): (i: int)
    ensures -1 <= i < |s|
  {
    if s == [] then -1
    else if s[0] == c then 0
    else
      var j := Index(s[1..], c);
      if j < 0 then -1 else j + 1
  }

  /** `Index` finds the first occurrence, and finds none only when there is none. */
  lemma {:induction false} IndexFirst(s: string, c: char)
    ensures Index(s, c) == -1 <==> c !in s
    ensures Index(s, c) >= 0 ==> s[Index(s, c)] == c && c !in s[..Index(s, c)]
  {
    if s != [] && s[0] != c {
      IndexFirst(s[1..], c);
      assert s == [s[0]] + s[1..];
      var j := Index(s[1..], c);
      if j >= 0 {
        assert s[..j + 1] == [s[0]] + s[1..][..j];
      }
    }
  }

  /** `Index` returns a position holding `c` with no `c` before it. */
  lemma {:induction false} IndexAt(s: string, c: char, m: nat)
    requires m < |s| && s[m] == c && c !in s[..m]
    ensures Index(s, c) == m
  {
    if m > 0 {
      assert s[..m][0] == s[0];
      assert s[1..][..m - 1] == s[..m][1..];
      IndexAt(s[1..], c, m - 1);
    }
  }

  /** `strings.Index` finds the separator that follows a separator-free prefix. */
  lemma IndexAfterFree(a: string, c: char, b: string)
    requires c !in a
    ensures Index(a + [c] + b, c) == |a|
  {
    var s := a + [c] + b;
    assert s[..|a|] == a;
    IndexAt(s, c, |a|);
  }

  /**
    `strings.SplitN(s, string(sep), n)`: for `n > 0` at most `n` parts, the last being
    the unsplit remainder; for `n == 0` no parts; for `n < 0` every separator splits.
   */
  function SplitN(s: string, sep: char, n: int): (parts: seq<string>)
    ensures n == 0 <==> parts == []
    ensures n > 0 ==> |parts| <= n
    decreases |s|
  {
    if n == 0 then []
    else if n == 1 then [s]
    else
      var i := Index(s, sep);
      if i < 0 then [s] else [s[..i]] + SplitN(s[i + 1..], sep, n - 1)
  }

  /** `strings.Join(elems, sep)`. */
  function Join(elems: seq<string>, sep: string): (s: string)
    ensures |elems| == 1 ==> s == elems[0]
  {
    if |elems| == 0 then []
    else if |elems| == 1 then elems[0]
    else elems[0] + sep + Join(elems[1..], sep)
  }

  lemma JoinCons(x: string, rest: seq<string>, sep: string)
    requires rest != []
    ensures Join([x] + rest, sep) == x + sep + Join(rest, sep)
  {
    assert ([x] + rest)[1..] == rest;
  }

  /** A string is the text before position `i`, the character at `i`, and the text after it. */
  lemma Around(s: string, i: nat)
    requires i < |s|
    ensures s == s[..i] + [s[i]] + s[i + 1..]
  {
  }

  lemma SplitNSingle(s: string, sep: char, n: int)
    requires n != 0
    requires n == 1 || Index(s, sep) < 0
    ensures SplitN(s, sep, n) == [s]
  {
  }

  /** One step of `SplitN`: the text before the first separator, then the rest split into `n - 1`. */
  lemma SplitNStep(s: string, sep: char, n: int)
    requires n != 0 && n != 1 && Index(s, sep) >= 0
    ensures SplitN(s, sep, n) == [s[..Index(s, sep)]] + SplitN(s[Index(s, sep) + 1..], sep, n - 1)
  {
  }

  /** Splitting keeps every character: joining the parts again gives back `s`. */
  lemma {:induction false} SplitNJoin(s: string, sep: char, n: int)
    requires n != 0
    ensures Join(SplitN(s, sep, n), [sep]) == s
    decreases |s|
  {
    if n == 1 || Index(s, sep) < 0 {
      SplitNSingle(s, sep, n);
    } else {
      var i := Index(s, sep);
      var rest := SplitN(s[i + 1..], sep, n - 1);
      IndexFirst(s, sep);
      SplitNStep(s, sep, n);
      SplitNJoin(s[i + 1..], sep, n - 1);
      JoinCons(s[..i], rest, [sep]);
      Around(s, i);
    }
  }

  /** The first separator accounts for one occurrence; the rest lie after it. */
  lemma CountAfterIndex(s: string, sep: char)
    requires Index(s, sep) >= 0
    ensures Count(s, sep) == 1 + Count(s[Index(s, sep) + 1..], sep)
  {
    var i := Index(s, sep);
    IndexFirst(s, sep);
    Around(s, i);
    CountAppend(s[..i] + [sep], s[i + 1..], sep);
    CountAppend(s[..i], [sep], sep);
  }

  /** How many parts `SplitN` yields: one more than the separators, capped at `n`. */
  lemma {:induction false} SplitNLength(s: string, sep: char, n: int)
    requires n != 0
    ensures |SplitN(s, sep, n)| == if n < 0 || Count(s, sep) + 1 < n then Count(s, sep) + 1 else n
    decreases |s|
  {
    if n == 1 || Index(s, sep) < 0 {
      IndexFirst(s, sep);
      CountZero(s, sep);
      SplitNSingle(s, sep, n);
    } else {
      var i := Index(s, sep);
      SplitNStep(s, sep, n);
      CountAfterIndex(s, sep);
      SplitNLength(s[i + 1..], sep, n - 1);
    }
  }

  /**
    Every part but the last is free of the separator, and so is the last one when
    the split into at most `n` parts produced fewer than `n` of them.
   */
  predicate PartsFree(ps: seq<string>, sep: char, n: int) {
    && (forall k :: 0 <= k < |ps| - 1 ==> sep !in ps[k])
    && (ps != [] && (n < 0 || |ps| < n) ==> sep !in ps[|ps| - 1])
  }

  /** The parts `SplitN` yields have no separator, except in an unsplit remainder. */
  lemma {:induction false} SplitNPartsFree(s: string, sep: char, n: int)
    ensures PartsFree(SplitN(s, sep, n), sep, n)
    decreases |s|, 1
  {
    if n == 0 {
    } else if n == 1 || Index(s, sep) < 0 {
      IndexFirst(s, sep);
      SplitNSingle(s, sep, n);
    } else {
      SplitNPartsFreeStep(s, sep, n);
    }
  }

  /** The inductive step of `SplitNPartsFree`, when `s` holds a separator and `n` allows a split. */
  lemma {:induction false} SplitNPartsFreeStep(s: string, sep: char, n: int)
    requires n != 0 && n != 1 && Index(s, sep) >= 0
    ensures PartsFree(SplitN(s, sep, n), sep, n)
    decreases |s|, 0
  {
    var i := Index(s, sep);
    var rest := SplitN(s[i + 1..], sep, n - 1);
    assert sep !in s[..i] by {
      IndexFirst(s, sep);
    }
    assert PartsFree(rest, sep, n - 1) by {
      SplitNPartsFree(s[i + 1..], sep, n - 1);
    }
    assert SplitN(s, sep, n) == [s[..i]] + rest by {
      SplitNStep(s, sep, n);
    }
    ConsParts(s[..i], rest, sep, n);
  }

  /** Putting a separator-free part in front of the parts of a split keeps them so. */
  lemma ConsParts(first: string, rest: seq<string>, sep: char, n: int)
    requires sep !in first && rest != [] && n != 1
    requires PartsFree(rest, sep, n - 1)
    ensures PartsFree([first] + rest, sep, n)
  {
    var ps := [first] + rest;
    forall k | 0 <= k < |ps| - 1 ensures sep !in ps[k] {
      if k > 0 {
        assert ps[k] == rest[k - 1];
      }
    }
    assert ps[|ps| - 1] == rest[|rest| - 1];
  }

  /** Dropping the first part of a split leaves the parts of a split into one part fewer. */
  lemma TailParts(ps: seq<string>, sep: char, n: int)
    requires n != 0 && |ps| >= 2 && PartsFree(ps, sep, n)
    ensures sep !in ps[0]
    ensures PartsFree(ps[1..], sep, n - 1)
    ensures [ps[0]] + ps[1..] == ps
  {
    var rest := ps[1..];
    forall k | 0 <= k < |rest| - 1 ensures sep !in rest[k] {
      assert rest[k] == ps[k + 1];
    }
    assert rest[|rest| - 1] == ps[|ps| - 1];
  }

  lemma JoinUnfold(ps: seq<string>, sep: string)
    requires |ps| >= 2
    ensures Join(ps, sep) == ps[0] + sep + Join(ps[1..], sep)
  {
  }

  /**
    `SplitN` is the only decomposition of a string into at most `n` parts, joined by
    `sep`, whose parts are separator-free except possibly the last of exactly `n`.
   */
  lemma {:induction false} SplitNOfJoin(ps: seq<string>, sep: char, n: int)
    requires n != 0 && 1 <= |ps|
    requires n > 0 ==> |ps| <= n
    requires PartsFree(ps, sep, n)
    ensures SplitN(Join(ps, [sep]), sep, n) == ps
    decreases |ps|, 1
  {
    if |ps| == 1 {
      IndexFirst(ps[0], sep);
      SplitNSingle(ps[0], sep, n);
    } else {
      SplitNOfJoinStep(ps, sep, n);
    }
  }

  /** The inductive step of `SplitNOfJoin`, for two parts or more. */
  lemma {:induction false} SplitNOfJoinStep(ps: seq<string>, sep: char, n: int)
    requires n != 0 && 2 <= |ps|
    requires n > 0 ==> |ps| <= n
    requires PartsFree(ps, sep, n)
    ensures SplitN(Join(ps, [sep]), sep, n) == ps
    decreases |ps|, 0
  {
    var rest := ps[1..];
    var j := Join(rest, [sep]);
    TailParts(ps, sep, n);
    assert SplitN(j, sep, n - 1) == rest by {
      SplitNOfJoin(rest, sep, n - 1);
    }
    assert Join(ps, [sep]) == ps[0] + [sep] + j by {
      JoinUnfold(ps, [sep]);
    }
    assert SplitN(ps[0] + [sep] + j, sep, n) == [ps[0]] + SplitN(j, sep, n - 1) by {
      SplitNCons(ps[0], sep, j, n);
    }
  }

  lemma SplitNCons(a: string, sep: char, b: string, n: int)
    requires n != 0 && n != 1
    requires sep !in a
    ensures SplitN(a + [sep] + b, sep, n) == [a] + SplitN(b, sep, n - 1)
  {
    var s := a + [sep] + b;
    IndexAfterFree(a, sep, b);
    assert s[..|a|] == a;
    assert s[|a| + 1..] == b;
  }

  /** Join then split at every separator is the identity on non-empty separator-free lists. */
  lemma JoinSplit(ps: seq<string>, sep: char)
    requires |ps| >= 1
    requires forall k :: 0 <= k < |ps| ==> sep !in ps[k]
    ensures SplitN(Join(ps, [sep]), sep, -1) == ps
  {
    SplitNOfJoin(ps, sep, -1);
  }
}
