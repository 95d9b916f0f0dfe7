# tagger: git helpers, modelled in Dafny

tagger cuts a release of a git repository. It fetches the remote, collects a
changelog of the pull requests merged since the last tag, and writes an annotated tag
whose message is that changelog. This project models the logic of `githelp.go` that
does not go through libgit2:

- the certificate policy that the fetch installs (`CertCheckCallback`);
- the changelog (`Changelog`), i.e. the callback that the revision walk runs on every
  commit. It finds `Merge pull request (#\d+)` in the commit's summary, splits the
  message with `strings.SplitN(message, "\n", 4)`, and adds `" - "` and the third part
  when there is one;
- the tag message (`PrepareMessage`): `"Changelog\n\n"` followed by the entries joined
  by line breaks.

Modules:

- `Wrappers` holds `Option`.
- `GoStrings` models `strings.SplitN` and `strings.Join` for a one-character
  separator. `SplitN` includes Go's `n == 0` and `n < 0` cases. `Count` and `Index`
  are helpers that define and specify `SplitN`; the source does not call them.
- `PullRequestPattern` matches the one regular expression by hand. As in Go's
  `FindStringSubmatch`, the leftmost match wins and `\d+` greedily takes ASCII digits.
- `FilterMaps` is a generic filter-map with its index properties.
- `GitHelp` holds the certificate check, the changelog entry of a commit, the
  `Visit` callback, the `Changelog` loop and the tag message.
- `GitHelpExamples` states worked examples as lemmas.

The revision walk is an input. A `Walk` value is one of two things:

- the walk could not be set up (`repo.Walk`, `HideRef` or `PushHead` failed);
- the sequence of commits it visited, plus whether `Iterate` ended with an error.

Each commit is its summary and its full message. `Changelog` returns two things, as
the Go function does: the entries gathered so far, and the error.

The message `"x\ny\n"` has an empty third part, so its entry ends in `" - "`; the model
keeps this. `Changelog`'s contract pins its result to the function `Entries` of the
visited commits, so two calls on the same walk return the same sequence.

## Model

| member | source | states |
|---|---|---|
| GitHelp.CertCheck | githelp.go:72-79 | a certificate is accepted exactly when it is an SSH host key; any other kind is rejected with the "Tagger does not support HTTPS for git remote." message |
| PullRequestPattern.DigitRun | githelp.go:100 | greedy `\d+`: the longest prefix of ASCII digits |
| PullRequestPattern.FindMatch | githelp.go:100-102 | the position found is the leftmost match of the pattern; none is found exactly when the pattern matches nowhere |
| PullRequestPattern.GroupAt | githelp.go:100-104 | the submatch is `#` followed by at least one digit; it is the text of the input at the match, and it ends where the digits end |
| PullRequestPattern.Capture | githelp.go:100-104 | `matches[1]` exists exactly when the pattern occurs somewhere, and then it is the group of the leftmost match |
| PullRequestPattern.CaptureAtLeftmost | githelp.go:102-104 | the capture is determined by the leftmost match |
| GoStrings.SplitN | githelp.go:105 | no parts exactly when `n == 0`; at most `n` parts when `n > 0` |
| GoStrings.SplitNJoin | githelp.go:105 | joining the parts with the separator gives back the string |
| GoStrings.SplitNLength | githelp.go:105 | the number of parts is one more than the number of separators, capped at `n` |
| GoStrings.SplitNPartsFree | githelp.go:105 | every part but the last has no separator, and the last has none when `n` did not cut the split short |
| GoStrings.SplitNOfJoin | githelp.go:105 | `SplitN` gives back any list of at most `n` parts whose parts have no separator (the last may have one only when there are exactly `n` parts) once it is joined |
| GoStrings.Join | githelp.go:123 | one element joins to itself |
| GoStrings.JoinSplit | githelp.go:123 | splitting a join of separator-free parts at every separator gives back the parts |
| GitHelp.Entry | githelp.go:102-108 | a commit has an entry exactly when its summary contains `Merge pull request #` followed by a digit; the entry begins with the captured `#N` (what follows it: EntryWithoutTitle, EntryWithTitle, EntryHasNoLineBreak) |
| GitHelp.EntryWithoutTitle | githelp.go:105-109 | a message with fewer than two line breaks yields `#N` alone |
| GitHelp.EntryWithTitle | githelp.go:105-109 | a message with at least two line breaks yields `#N - ` followed by its third line |
| GitHelp.ThirdLine | githelp.go:105-107 | `SplitN(message, "\n", 4)` has a third part, and that part is the message's third line |
| GitHelp.EntryHasNoLineBreak | githelp.go:104-108 | no entry contains a line break |
| GitHelp.Entries | githelp.go:101-112 | the changelog has no more entries than the walk has commits |
| GitHelp.EntriesAreMatchingCommits | githelp.go:101-112 | the entries are the entries of the matching commits, in walk order; a commit contributes exactly when it matches |
| GitHelp.EntriesAppend | githelp.go:101-112 | the changelog of two consecutive stretches of the walk is the concatenation of their changelogs |
| GitHelp.EntriesHaveNoLineBreak | githelp.go:101-112 | no entry of the changelog contains a line break |
| FilterMaps.FilterMapKept | githelp.go:101-112 | the k-th collected value comes from the k-th element that produced one |
| GitHelp.Visit | githelp.go:101-112 | the callback appends the commit's entry, if any, to the entries so far, and always continues the walk |
| GitHelp.Changelog | githelp.go:82-117 | a failed setup gives no entries and "Error getting changelog"; otherwise the entries of the visited commits in walk order, plus the error exactly when the iteration failed |
| GitHelp.PrepareMessage | githelp.go:122-126 | the message starts with `"Changelog\n\n"` |
| GitHelp.PrepareMessageBody | githelp.go:123 | after the header, splitting into lines gives back the non-empty list of single-line changes |
| GitHelp.PrepareMessageLines | githelp.go:123 | read line by line, the message is `Changelog`, a blank line, then one line per change (a single empty line when there are none) |
| GitHelp.PrepareMessageEmpty | githelp.go:123 | `PrepareMessage([])` is `"Changelog\n\n"` |
| GitHelp.PrepareMessageTwo | githelp.go:123 | `PrepareMessage(["a", "b"])` is `"Changelog\n\na\nb"` |
| GitHelp.TagMessageListsChangelog | githelp.go:101-125 | the tag message of a non-empty changelog gives back its entries, line by line, after the header |
| GitHelpExamples.CaptureOfMergeSummary | githelp.go:100-104 | `Merge pull request #42` captures `#42` |
| GitHelpExamples.EntryOfMergeCommitWithTitle | githelp.go:102-109 | summary, blank line and title yields `#42 - title` |
| GitHelpExamples.EntryOfMergeCommitWithoutTitle | githelp.go:105-109 | a message with a single line break yields `#42` |
| GitHelpExamples.EntryOfEmptyThirdLine | githelp.go:105-108 | the message `x\ny\n` yields `#42 - `, with an empty title |
| GitHelpExamples.NoEntryForPlainCommit | githelp.go:102-103 | a summary that is not a pull-request merge yields no entry |

## Left out

- OpenRepo, GetCurrentBranch, GitFetch, CommitFiles and CreateAnnotatedTag are not modelled. Each is a sequence of libgit2 calls. GetCurrentBranch and GitFetch replace libgit2's errors with fixed messages; the others return them unchanged. Their only logic of their own is stopping at the first error (in CommitFiles also inside the loop that adds each file with `AddByPath`) and GitFetch's check for an empty list of remote heads.
- CredsCallback is not modelled: it only asks the SSH agent for a key.
- The revision walk itself is not modelled: which commits `HideRef("refs/tags/" + tag)` and `PushHead` select, and in what order. Its output is an input to `Changelog`.
- How libgit2 derives a commit's `Summary()` from its message is not modelled; the summary is a separate input.
- Only the source's one pattern is matched, by a hand-written matcher; Go's general regular-expression engine is not modelled.
- GitHelp.CertCheck ignores `valid` and `hostname`, as the source does. It does not model `Die` ending the process; a rejection is a value.
- libgit2's error codes (`ErrOk`, `ErrGeneric`) are not modelled; `Accept` and `Reject` stand for them.
- Strings are sequences of characters, and a character stands for a byte. Every character the code compares against is ASCII, and a UTF-8 multi-byte sequence contains no ASCII byte. UTF-8 decoding is not modelled.
- GoStrings.SplitN models Go's function only for a one-character separator, which is the only kind the source uses. It does not model multi-character or empty separators.
