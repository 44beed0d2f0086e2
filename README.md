# Commit-window truncation of the release helper

This project models the core of the release helper's `GitHubHelper.GetCommits`
(src/Cli/GitHubHelper.cs). The hosting client returns the commits of a branch,
newest first. The local iterator `ProcessCommits` walks that feed and emits one
`Commit` record per item. Each record holds:

- the full sha;
- the first line of the message;
- the item's `HtmlUrl`, or `https://github.com/{owner}/{repo}/commit/{sha}`
  when that is null.

The walk stops right after the first item whose sha starts with `untilSha`, so
that boundary commit is included in the output.

Files:

- `text.dfy` (module `Text`) models the .NET string operations the core uses:
  an ordinal `StartsWith`, `Split(char)` with its inverse `Join`, and the facts
  about the first piece of a split.
- `github_helper.dfy` (module `GitHubHelper`) holds the rest:
  - the raw feed item `RawCommit` and the `Commit` record, which mirrors the
    record `Commit(Sha, Message, PullRequestUrl)` at src/Cli/GitHubHelper.cs:6
    with the link as a string;
  - the per-item conversion (`FirstLine`, `FallbackLink`, `ToCommit`);
  - the loop `ProcessCommits`, a method with a `while` loop and a `break`;
  - `Processed`, a reference definition of the loop's result, written item by
    item;
  - the lemmas about `Processed`: the output is a prefix of the converted
    feed, the boundary is inclusive, nothing is truncated when nothing
    matches, and an empty `untilSha` emits at most one record.

`GitHubHelper` sets its `owner` and `repo` fields once and only reads them
afterwards, so they are plain parameters here. The client call is replaced by
the feed, which is a parameter of `ProcessCommits`.

The model follows what the code does, where the names suggest more:

- The field name `PullRequestUrl` suggests a pull-request link. The code
  parses no pull-request number from the message: the field always holds the
  commit page link (`HtmlUrl` or the constructed one). The record has no author
  field, and no author is resolved.
- Nothing checks the message. An empty message, or one that starts with a line
  break, yields an empty first line rather than an error. `FirstLine` states
  this.

## Model

| member | source | states |
|---|---|---|
| Text.StartsWith | src/Cli/GitHubHelper.cs:44 | The prefix test holds exactly when `untilSha` is a leading segment of the sha (Dafny's prefix order on sequences), compared character by character |
| Text.Split | src/Cli/GitHubHelper.cs:41 | `Split('\n')` always returns at least one piece, and no piece contains the separator |
| Text.JoinSplit | src/Cli/GitHubHelper.cs:41 | Joining the pieces of a split with the separator gives back the original string, so splitting loses nothing |
| Text.SplitFirstPiece | src/Cli/GitHubHelper.cs:41 | The first piece of a split is a prefix of the string that is either the whole string or followed by the separator |
| GitHubHelper.FirstLine | src/Cli/GitHubHelper.cs:41 | The first line is a prefix of the message with no `'\n'`, ending at the first `'\n'` or at the end of the message. It equals the message exactly when the message has no line break. It is empty exactly when the message is empty or starts with `'\n'`, and that case is not an error |
| GitHubHelper.FallbackLink | src/Cli/GitHubHelper.cs:37 | The constructed commit page link ends with the commit's sha |
| GitHubHelper.FallbackLinkInjective | src/Cli/GitHubHelper.cs:37 | Within one owner and repository, two shas with the same fallback link are equal, so the link identifies the commit |
| GitHubHelper.ToCommit | src/Cli/GitHubHelper.cs:36-42 | The record keeps the sha unchanged. Its message is the text before the first `'\n'` and has no line break. Its link is `HtmlUrl` when that is non-null, otherwise the constructed commit page |
| GitHubHelper.FirstMatch | src/Cli/GitHubHelper.cs:44-47 | Finds the first position whose sha starts with `untilSha`: that item matches and no earlier one does. When it finds none, no item matches |
| GitHubHelper.EmittedCount | src/Cli/GitHubHelper.cs:34-48 | The number of records emitted never exceeds the feed length |
| GitHubHelper.Processed | src/Cli/GitHubHelper.cs:34-48 | The reference definition of the truncated feed: emit each item, stop after the first whose sha starts with `untilSha`. The output is never longer than the feed, and it is empty only for an empty feed, because the newest item is yielded before any test; its first record is the newest item converted |
| GitHubHelper.ProcessCommits | src/Cli/GitHubHelper.cs:32-49 | The loop's output equals the reference definition `Processed`. It is no longer than the feed, and record i is the conversion of feed item i. No record before the last has a matching sha, and an output shorter than the feed ends at a matching item |
| GitHubHelper.ProcessedAt | src/Cli/GitHubHelper.cs:34-42 | Each emitted record is the per-item conversion of the feed item at the same position |
| GitHubHelper.ProcessedLength | src/Cli/GitHubHelper.cs:34-48 | One record per item consumed: the output length runs up to and including the first match, or is the whole feed |
| GitHubHelper.ProcessedIsPrefix | src/Cli/GitHubHelper.cs:34-48 | The output is a prefix, in the same order, of the whole feed converted item by item |
| GitHubHelper.BoundaryInclusive | src/Cli/GitHubHelper.cs:39-47 | When item k is the first whose sha starts with `untilSha`, the output is exactly items 0..k converted, so the boundary is included |
| GitHubHelper.OnlyLastMatches | src/Cli/GitHubHelper.cs:44-47 | No emitted record other than the last has a sha starting with `untilSha` |
| GitHubHelper.NoMatchKeepsAll | src/Cli/GitHubHelper.cs:34-48 | When no sha starts with `untilSha`, every item is emitted and nothing is truncated |
| GitHubHelper.TruncatedOnlyAtMatch | src/Cli/GitHubHelper.cs:44-47 | An output shorter than the feed is non-empty and ends with a record whose sha starts with `untilSha` |
| GitHubHelper.EmptyUntilShaEmitsOne | src/Cli/GitHubHelper.cs:44-47 | With an empty `untilSha` every sha matches, so the output is the newest commit alone, or empty for an empty feed |

## Left out

- The client call `Repository.Commit.GetAll` and its `CommitRequest` built from the branch and `since` (src/Cli/GitHubHelper.cs:23-29) are not modelled. They are network I/O with server-side date filtering and pagination. The feed they return is an input of `ProcessCommits`.
- `CreateGitHubClient` (src/Cli/GitHubHelper.cs:52-66) is not modelled. It reads a token from the user-secrets configuration and sets the client's credentials, which is configuration and I/O.
- The `async`/`Task` wrapper and the lazy `yield return` are not modelled. The model is the fully materialised result. Items after the `break` are never reached in the source either.
- `System.Uri` construction, validation and normalisation are not modelled: links are strings. In the source, a malformed `HtmlUrl` would make `new Uri` throw, and the model does not capture that error. `new Uri` also lowercases the scheme and host, escapes characters and removes dot segments, so the source's link equals `HtmlUrl` (or the constructed link) only up to that normalisation, which the model does not apply.
- Text.StartsWith: modelled as an ordinal, case-sensitive prefix test, which differs from the culture-sensitive default of `string.StartsWith(string)` that the source calls. For ASCII-hexadecimal input the two agree under the invariant culture and under cultures without contraction rules for these letters (en-US, for one). They can differ under others. Danish and Norwegian collation treat "aa" as one unit, so an `untilSha` ending in `a` that stands before another `a` in the sha (sha `3aa7…`, `untilSha` `3a`) matches only in the model. An `untilSha` holding characters the culture comparison ignores (a soft hyphen U+00AD, or U+0000 under ICU) can match in the source and not in the model. The model does not capture either case.
- A null `Sha` or a null `Commit.Message` on a feed item is not modelled. Both are plain strings here.
- src/Cli/Program.cs is not modelled. It is the command-line bootstrap with a stub command that only prints a line.
- Pull-request number extraction, author resolution and the interactive cherry-pick selection are not part of this model. They do not exist in the source files modelled.
