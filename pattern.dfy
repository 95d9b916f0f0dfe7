/**
  The one regular expression of the changelog code, `Merge pull request (#\d+)`, as a
  hand-written matcher with the semantics of Go's `regexp.FindStringSubmatch`: the
  leftmost position where the pattern matches wins, and the greedy `\d+` takes every
  ASCII digit that follows. The first submatch is the `#` and those digits.
 */
module PullRequestPattern {
  import opened Wrappers

  /** The literal text of the pattern up to and including the `#` that opens the group. */
  const Literal: string := "Merge pull request #"

  /** `\d` in Go's regular expressions: ASCII digits only. */
  predicate IsDigit(c: char) {
    '0' <= c <= '9'
  }

  /** The pattern matches at position `i`: the literal, then at least one digit. */
  predicate MatchesAt(s: string, i: nat) {
    i + |Literal| < |s| && s[i..i + |Literal|] == Literal && IsDigit(s[i + |Literal|])
  }

  /** `i` is the leftmost position where the pattern matches. */
  predicate Leftmost(s: string, i: nat) {
    MatchesAt(s, i) && forall j: nat :: j < i ==> !MatchesAt(s, j)
  }

  lemma LeftmostUnique(s: string, i: nat, j: nat)
    requires Leftmost(s, i) && Leftmost(s, j)
    ensures i == j
  {
  }

  /** The longest prefix of `s` made of ASCII digits: what greedy `\d+` consumes. */
  function DigitRun(s: string): (r: string)
    ensures r <= s
    ensures forall k :: 0 <= k < |r| ==> IsDigit(r[k])
    ensures |r| == |s| || !IsDigit(s[|r|])
  {
    if s != [] && IsDigit(s[0]) then [s[0]] + DigitRun(s[1..]) else []
  }

  /** The leftmost match at or after `from`, or None when there is none. */
  function FindFrom(s: string, from: nat): (r: Option<nat>)
    ensures r.Some? ==> from <= r.value && MatchesAt(s, r.value)
    ensures forall j: nat :: from <= j && (r.None? || j < r.value) ==> !MatchesAt(s, j)
    decreases |s| - from
  {
    if from + |Literal| >= |s| then None
    else if MatchesAt(s, from) then Some(from)
    else FindFrom(s, from + 1)
  }

  /** Start of the leftmost match in `s`. */
  function FindMatch(s: string): (r: Option<nat>)
    ensures r.Some? ==> Leftmost(s, r.value)
    ensures r.None? <==> forall i: nat :: !MatchesAt(s, i)
  {
    FindFrom(s, 0)
  }

  /** The submatch of a match at `i`: the `#` that ends the literal and the digit run after it. */
  function GroupAt(s: string, i: nat): (g: string)
    requires MatchesAt(s, i)
    ensures 2 <= |g| && g[0] == '#'
    ensures forall k :: 1 <= k < |g| ==> IsDigit(g[k])
    ensures i + |Literal| - 1 + |g| <= |s|
    ensures g == s[i + |Literal| - 1 .. i + |Literal| - 1 + |g|]
    ensures i + |Literal| - 1 + |g| == |s| || !IsDigit(s[i + |Literal| - 1 + |g|])
  {
    var start := i + |Literal|;
    var digits := DigitRun(s[start..]);
    assert s[start - 1] == Literal[|Literal| - 1] == '#';
    assert s[start..][..|digits|] == digits;
    "#" + digits
  }

  /**
    `re.FindStringSubmatch(s)[1]` when the match has one: the group of the leftmost match;
    None exactly when the pattern occurs nowhere in `s`.
   */
  function Capture(s: string): (r: Option<string>)
    ensures r.None? <==> forall i: nat :: !MatchesAt(s, i)
    ensures r.Some? ==> exists i: nat :: Leftmost(s, i) && r.value == GroupAt(s, i)
  {
    match FindMatch(s)
    case None => None
    case Some(i) => Some(GroupAt(s, i))
  }

  /** A capture is determined by the leftmost match. */
  lemma CaptureAtLeftmost(s: string, i: nat)
    requires Leftmost(s, i)
    ensures Capture(s) == Some(GroupAt(s, i))
  {
    var m := FindMatch(s);
    LeftmostUnique(s, i, m.value);
  }
}
