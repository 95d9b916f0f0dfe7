/**
  The self-contained logic of the tagger's git helpers: the certificate policy of the
  fetch, the changelog of merged pull requests since the last tag, and the message of
  the annotated tag. Everything the helpers hand to libgit2 (opening the repository,
  fetching, walking the commit graph, writing index, tree, commit and tag) is outside
  the model; the commits the revision walk visits are an input.
 */
module GitHelp {
  import opened Wrappers
  import opened GoStrings
  import opened PullRequestPattern
  import opened FilterMaps

  // ---------------------------------------------------------------------------
  // Certificate check of the remote transport

  /** libgit2's certificate kinds (`git_cert_t`). */
  datatype CertificateKind = CertNone | X509 | Hostkey | StrArray

  /** The part of a certificate the policy looks at. */
  datatype Certificate = Certificate(kind: CertificateKind)

  /** The outcome of the check; the source terminates the process on a rejection. */
  datatype CertDecision = Accept | Reject(reason: string)

  const HttpsUnsupported: string := "Tagger does not support HTTPS for git remote."

  /**
    `CertCheckCallback`: only SSH host-key certificates are trusted. The validity flag
    and the host name that libgit2 passes are ignored.
   */
  function CertCheck(cert: Certificate, valid: bool, hostname: string): (d: CertDecision)
    ensures d == Accept <==> cert.kind == Hostkey
    ensures d != Accept ==> d == Reject(HttpsUnsupported)
  {
    if cert.kind == Hostkey then Accept else Reject(HttpsUnsupported)
  }

  // ---------------------------------------------------------------------------
  // Changelog of merged pull requests

  /** What the revision walk yields of a commit: its summary and its full message. */
  datatype Commit = Commit(summary: string, message: string)

  /**
    The outcome of setting up and running the revision walk: setting it up failed
    (creating the walker, hiding the tag's reference, pushing HEAD), or it visited
    `visited` in order and then either ended or stopped on an error.
   */
  datatype Walk = SetupFailed | Walked(visited: seq<Commit>, iterError: bool)

  const ChangelogError: string := "Error getting changelog"

  /** The separator between a pull request's number and its title in an entry. */
  const TitleSeparator: string := " - "

  /**
    The changelog entry of one commit: the `#N` of the leftmost
    `Merge pull request #N` in its summary, followed by `" - "` and the third line of
    its message when `SplitN(message, "\n", 4)` has a third part; None when the
    summary does not match. A commit yields an entry exactly when its summary holds
    `Merge pull request #` followed by a digit, anywhere in it, and then the entry
    begins with the capture. `EntryWithoutTitle`, `EntryWithTitle` and
    `EntryHasNoLineBreak` below say what follows the capture.
   */
  function Entry(c: Commit): (e: Option<string>)
    ensures e.Some? <==> exists i: nat :: MatchesAt(c.summary, i)
    ensures e.Some? ==> Capture(c.summary).value <= e.value
  {
    match Capture(c.summary)
    case None => None
    case Some(number) =>
      var lines := SplitN(c.message, '\n', 4);
      if |lines| >= 3 then Some(number + TitleSeparator + lines[2]) else Some(number)
  }

  /** A commit whose message has fewer than two line breaks yields its `#N` alone. */
  lemma EntryWithoutTitle(c: Commit)
    requires Capture(c.summary).Some?
    requires Count(c.message, '\n') < 2
    ensures Entry(c) == Capture(c.summary)
  {
    SplitNLength(c.message, '\n', 4);
  }

  /**
    A commit whose message is `first`, a line break, `second`, a line break, then
    `title` up to the end or up to a further line break, yields `#N - title`.
   */
  lemma EntryWithTitle(c: Commit, first: string, second: string, title: string, tail: string)
    requires Capture(c.summary).Some?
    requires '\n' !in first && '\n' !in second && '\n' !in title
    requires tail == [] || tail[0] == '\n'
    requires c.message == first + "\n" + second + "\n" + title + tail
    ensures Entry(c) == Some(Capture(c.summary).value + TitleSeparator + title)
  {
    ThirdLine(first, second, title, tail);
  }

  /** The third part of `SplitN(message, "\n", 4)` is the message's third line. */
  lemma ThirdLine(first: string, second: string, title: string, tail: string)
    requires '\n' !in first && '\n' !in second && '\n' !in title
    requires tail == [] || tail[0] == '\n'
    ensures |SplitN(first + "\n" + second + "\n" + title + tail, '\n', 4)| >= 3
    ensures SplitN(first + "\n" + second + "\n" + title + tail, '\n', 4)[2] == title
  {
    var msg := first + "\n" + second + "\n" + title + tail;
    if tail == [] {
      var ps := [first, second, title];
      JoinThree(first, second, title);
      assert msg == first + "\n" + second + "\n" + title;
      SplitNOfJoin(ps, '\n', 4);
    } else {
      var ps := [first, second, title, tail[1..]];
      JoinFour(first, second, title, tail[1..]);
      assert msg == first + "\n" + second + "\n" + title + "\n" + tail[1..];
      SplitNOfJoin(ps, '\n', 4);
    }
  }

  lemma JoinThree(a: string, b: string, c: string)
    ensures Join([a, b, c], "\n") == a + "\n" + b + "\n" + c
  {
    assert [a, b, c][1..] == [b, c];
    assert [b, c][1..] == [c];
  }

  lemma JoinFour(a: string, b: string, c: string, d: string)
    ensures Join([a, b, c, d], "\n") == a + "\n" + b + "\n" + c + "\n" + d
  {
    assert [a, b, c, d][1..] == [b, c, d];
    JoinThree(b, c, d);
  }

  /** A capture is `#` and digits, so it holds no line break. */
  lemma CaptureHasNoLineBreak(s: string)
    requires Capture(s).Some?
    ensures '\n' !in Capture(s).value
  {
    var number := Capture(s).value;
    var i :| Leftmost(s, i) && number == GroupAt(s, i);
    assert forall k :: 0 <= k < |number| ==> number[k] != '\n';
  }

  /** No entry spans more than one line. */
  lemma EntryHasNoLineBreak(c: Commit)
    ensures Entry(c).Some? ==> '\n' !in Entry(c).value
  {
    if Capture(c.summary).None? {
      return;
    }
    var number := Capture(c.summary).value;
    CaptureHasNoLineBreak(c.summary);
    var lines := SplitN(c.message, '\n', 4);
    SplitNPartsFree(c.message, '\n', 4);
    if |lines| >= 3 {
      assert '\n' !in lines[2];
      NoLineBreakInConcat(number, TitleSeparator, lines[2]);
    }
  }

  lemma NoLineBreakInConcat(a: string, b: string, c: string)
    requires '\n' !in a && '\n' !in b && '\n' !in c
    ensures '\n' !in a + b + c
  {
    var s := a + b + c;
    forall k | 0 <= k < |s| ensures s[k] != '\n' {
      if k < |a| {
        assert s[k] == a[k];
      } else if k < |a| + |b| {
        assert s[k] == b[k - |a|];
      } else {
        assert s[k] == c[k - |a| - |b|];
      }
    }
  }

  /** The entries of the walked commits, in walk order; non-matching commits give none. */
  function Entries(cs: seq<Commit>): (r: seq<string>)
    ensures |r| <= |cs|
  {
    FilterMap(Entry, cs)
  }

  /**
    The changelog is the image of a subsequence of the walk: the positions of the
    matching commits, in increasing order, and one entry for each, the k-th entry being
    the entry of the k-th matching commit.
   */
  lemma EntriesAreMatchingCommits(cs: seq<Commit>)
    ensures var pos := Kept(Entry, cs);
      && |Entries(cs)| == |pos|
      && (forall k :: 0 <= k < |pos| ==> pos[k] < |cs| && Entry(cs[pos[k]]) == Some(Entries(cs)[k]))
      && (forall k, l :: 0 <= k < l < |pos| ==> pos[k] < pos[l])
      && (forall i :: 0 <= i < |cs| ==> (Entry(cs[i]).Some? <==> i in pos))
  {
    FilterMapKept(Entry, cs);
    KeptExactly(Entry, cs);
  }

  /** The changelog of a walk split in two is the changelogs of its halves, in order. */
  lemma EntriesAppend(a: seq<Commit>, b: seq<Commit>)
    ensures Entries(a + b) == Entries(a) + Entries(b)
  {
    FilterMapAppend(Entry, a, b);
  }

  /** Visiting one more commit appends its entry, if any. */
  lemma EntriesSnoc(cs: seq<Commit>, i: nat)
    requires i < |cs|
    ensures Entries(cs[..i + 1]) == Entries(cs[..i]) + Entry(cs[i]).ToSeq()
  {
    assert cs[..i + 1][..i] == cs[..i];
  }

  /** No entry of the changelog spans more than one line. */
  lemma EntriesHaveNoLineBreak(cs: seq<Commit>)
    ensures forall k :: 0 <= k < |Entries(cs)| ==> '\n' !in Entries(cs)[k]
  {
    var pos := Kept(Entry, cs);
    FilterMapKept(Entry, cs);
    forall k | 0 <= k < |Entries(cs)| ensures '\n' !in Entries(cs)[k] {
      EntryHasNoLineBreak(cs[pos[k]]);
    }
  }

  /**
    The callback `Changelog` hands to `walk.Iterate`: it appends the commit's entry, if
    it has one, to the changelog gathered so far, and always asks for the next commit.
   */
  method Visit(mergeCommits: seq<string>, c: Commit) returns (next: seq<string>, cont: bool)
    ensures next == mergeCommits + Entry(c).ToSeq()
    ensures cont
  {
    next := mergeCommits;
    var matches := Capture(c.summary);
    if matches.Some? {
      var commit := matches.value;
      var lines := SplitN(c.message, '\n', 4);
      if |lines| >= 3 {
        commit := commit + TitleSeparator + lines[2];
      }
      next := next + [commit];
    }
    cont := true;
  }

  /**
    `Changelog`: the entries of the commits the walk visited, accumulated in walk order.
    A failed setup yields no entries; a failed iteration yields the entries gathered so
    far together with the error, as the source returns both.
   */
  method Changelog(walk: Walk) returns (mergeCommits: seq<string>, err: Option<string>)
    ensures walk.SetupFailed? ==> mergeCommits == [] && err == Some(ChangelogError)
    ensures walk.Walked? ==> mergeCommits == Entries(walk.visited)
    ensures walk.Walked? ==> err == if walk.iterError then Some(ChangelogError) else None
  {
    mergeCommits := [];
    if walk.SetupFailed? {
      return mergeCommits, Some(ChangelogError);
    }
    var cs := walk.visited;
    var i, cont := 0, true;
    while i < |cs| && cont
      invariant 0 <= i <= |cs|
      invariant cont
      invariant mergeCommits == Entries(cs[..i])
    {
      mergeCommits, cont := Visit(mergeCommits, cs[i]);
      EntriesSnoc(cs, i);
      i := i + 1;
    }
    assert cs[..i] == cs;
    err := if walk.iterError then Some(ChangelogError) else None;
  }

  // ---------------------------------------------------------------------------
  // Message of the annotated tag

  const Header: string := "Changelog\n\n"

  /** `PrepareMessage`: the header, a blank line, then the changes one per line. */
  function PrepareMessage(changes: seq<string>): (msg: string)
    ensures Header <= msg
  {
    Header + Join(changes, "\n")
  }

  /** The message lists the changes, in order, after the header. */
  lemma PrepareMessageBody(changes: seq<string>)
    requires changes != []
    requires forall k :: 0 <= k < |changes| ==> '\n' !in changes[k]
    ensures SplitN(PrepareMessage(changes)[|Header|..], '\n', -1) == changes
  {
    JoinSplit(changes, '\n');
  }

  /**
    Read line by line, the message is the title line, one blank line, then one line per
    change; with no changes the body is a single empty line.
   */
  lemma PrepareMessageLines(changes: seq<string>)
    requires forall k :: 0 <= k < |changes| ==> '\n' !in changes[k]
    ensures SplitN(PrepareMessage(changes), '\n', -1) ==
      ["Changelog", ""] + (if changes == [] then [""] else changes)
  {
    if changes == [] {
      JoinThree("Changelog", "", "");
      assert PrepareMessage(changes) == Join(["Changelog", "", ""], "\n");
      SplitNOfJoin(["Changelog", "", ""], '\n', -1);
    } else {
      var ps := ["Changelog", ""] + changes;
      assert Join(ps, "\n") == PrepareMessage(changes) by {
        JoinCons("", changes, "\n");
        JoinCons("Changelog", [""] + changes, "\n");
        assert ps == ["Changelog"] + ([""] + changes);
      }
      assert forall k :: 0 <= k < |ps| ==> '\n' !in ps[k] by {
        forall k | 0 <= k < |ps| ensures '\n' !in ps[k] {
          if k >= 2 {
            assert ps[k] == changes[k - 2];
          }
        }
      }
      JoinSplit(ps, '\n');
    }
  }

  lemma PrepareMessageEmpty()
    ensures PrepareMessage([]) == "Changelog\n\n"
  {
  }

  lemma PrepareMessageTwo()
    ensures PrepareMessage(["a", "b"]) == "Changelog\n\na\nb"
  {
    JoinCons("a", ["b"], "\n");
  }

  /** End to end: the tag message of a non-empty changelog gives back its entries. */
  lemma TagMessageListsChangelog(cs: seq<Commit>)
    ensures Entries(cs) != [] ==>
      SplitN(PrepareMessage(Entries(cs))[|Header|..], '\n', -1) == Entries(cs)
  {
    if Entries(cs) != [] {
      EntriesHaveNoLineBreak(cs);
      PrepareMessageBody(Entries(cs));
    }
  }
}
