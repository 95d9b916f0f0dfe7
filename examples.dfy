/** Worked instances of the changelog and tag-message behaviour. */
module GitHelpExamples {
  import opened Wrappers
  import opened GoStrings
  import opened PullRequestPattern
  import opened GitHelp

  const MergeSummary: string := "Merge pull request #42"

  // The examples take the commit, and the summary, as parameters pinned to constants:
  // the solver then reasons about `MergeSummary` only where a proof unfolds it, which
  // keeps it from evaluating the matcher on the literal in every proof obligation.

  lemma CaptureOfMergeSummary(s: string)
    requires s == MergeSummary
    ensures Capture(s) == Some("#42")
  {
    assert s == Literal + "42";
    assert MatchesAt(s, 0);
    CaptureAtLeftmost(s, 0);
    assert s[|Literal|..] == "42";
    assert "42"[1..] == "2" && "2"[1..] == "";
    assert DigitRun("42") == "42";
    assert GroupAt(s, 0) == "#42";
  }

  /** The usual merge commit: summary, blank line, pull request title. */
  lemma EntryOfMergeCommitWithTitle(c: Commit, first: string, title: string)
    requires '\n' !in first && '\n' !in title
    requires c.summary == MergeSummary && c.message == first + "\n\n" + title
    ensures Entry(c) == Some("#42 - " + title)
  {
    CaptureOfMergeSummary(c.summary);
    assert c.message == first + "\n" + "" + "\n" + title + "";
    EntryWithTitle(c, first, "", title, "");
    assert "#42" + TitleSeparator + title == "#42 - " + title;
  }

  /** A merge commit whose message has a single line break yields the pull request number alone. */
  lemma EntryOfMergeCommitWithoutTitle(c: Commit, first: string, body: string)
    requires '\n' !in first && '\n' !in body
    requires c.summary == MergeSummary && c.message == first + "\n" + body
    ensures Entry(c) == Some("#42")
  {
    CaptureOfMergeSummary(c.summary);
    assert c.message == first + ("\n" + body);
    CountAppend(first, "\n" + body, '\n');
    CountAppend("\n", body, '\n');
    assert Count("\n", '\n') == 1;
    CountZero(first, '\n');
    CountZero(body, '\n');
    EntryWithoutTitle(c);
  }

  /** A message `x\ny\n` has an empty third part, so the entry ends in the separator. */
  lemma EntryOfEmptyThirdLine(c: Commit, x: string, y: string)
    requires '\n' !in x && '\n' !in y
    requires c.summary == MergeSummary && c.message == x + "\n" + y + "\n"
    ensures Entry(c) == Some("#42 - ")
  {
    CaptureOfMergeSummary(c.summary);
    assert c.message == x + "\n" + y + "\n" + "" + "";
    EntryWithTitle(c, x, y, "", "");
    assert "#42" + TitleSeparator + "" == "#42 - ";
  }

  /** A commit whose summary is not a merge of a pull request gives no entry. */
  lemma NoEntryForPlainCommit(c: Commit)
    requires c.summary == "Fix typo"
    ensures Entry(c) == None
  {
  }
}
