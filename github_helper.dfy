/** The commit-window truncation of GitHubHelper.GetCommits: the feed of
    commits the hosting client returns (newest first) is turned into Commit
    records, one per item, stopping right after the first item whose sha
    starts with `untilSha`. The fetch itself is replaced by the feed given
    as input; the helper's read-only `owner` and `repo` fields are passed
    as parameters. */
module GitHubHelper {
  import opened Text

  /** A value that may be null in the source. */
  datatype Option<T> = None | Some(value: T)

  /** One item of the feed: the full sha, the full commit message and the
      commit's web page, which the client may leave null. */
  datatype RawCommit = RawCommit(sha: string, message: string, htmlUrl: Option<string>)

  /** The record emitted per item. Despite its name, `pullRequestUrl` holds
      the commit page link; the source extracts no pull-request number. */
  datatype Commit = Commit(sha: string, message: string, pullRequestUrl: string)

  /** `message.Split('\n').First()`: the message up to the first line break.
      An empty message gives the empty string, not an error. */
  function FirstLine(message: string): (line: string)
    ensures line <= message && '\n' !in line
    ensures |line| < |message| ==> message[|line|] == '\n'
    ensures line == message <==> '\n' !in message
    ensures line == [] <==> message == [] || message[0] == '\n'
  {
    SplitFirstPiece(message, '\n');
    Split(message, '\n')[0]
  }

  /** The commit page built when the client gives no HtmlUrl:
      https://github.com/{owner}/{repo}/commit/{sha}. It ends with the sha. */
  function FallbackLink(owner: string, repo: string, sha: string): (link: string)
    ensures |sha| <= |link| && link[|link| - |sha|..] == sha
  {
    "https://github.com/" + owner + "/" + repo + "/commit/" + sha
  }

  /** The per-item conversion: the sha unchanged, the first line of the
      message, and the link `commit.HtmlUrl ?? FallbackLink(...)`. */
  function ToCommit(owner: string, repo: string, raw: RawCommit): (c: Commit)
    ensures c.sha == raw.sha
    ensures c.message <= raw.message && '\n' !in c.message
    ensures |c.message| < |raw.message| ==> raw.message[|c.message|] == '\n'
    ensures raw.htmlUrl.Some? ==> c.pullRequestUrl == raw.htmlUrl.value
    ensures raw.htmlUrl.None? ==> c.pullRequestUrl == FallbackLink(owner, repo, raw.sha)
  {
    var link := match raw.htmlUrl
      case Some(url) => url
      case None => FallbackLink(owner, repo, raw.sha);
    Commit(raw.sha, FirstLine(raw.message), link)
  }

  /** The position of the first feed item whose sha starts with `untilSha`. */
  function FirstMatch(feed: seq<RawCommit>, untilSha: string): (r: Option<nat>)
    ensures r.Some? ==> r.value < |feed| && StartsWith(feed[r.value].sha, untilSha)
    ensures r.Some? ==> forall j :: 0 <= j < r.value ==> !StartsWith(feed[j].sha, untilSha)
    ensures r.None? ==> forall j :: 0 <= j < |feed| ==> !StartsWith(feed[j].sha, untilSha)
  {
    if feed == [] then None
    else if StartsWith(feed[0].sha, untilSha) then Some(0)
    else
      match FirstMatch(feed[1..], untilSha)
      case None => None
      case Some(k) => Some(k + 1)
  }

  /** How many records the truncation emits: up to and including the first
      match, or the whole feed when nothing matches. */
  function EmittedCount(feed: seq<RawCommit>, untilSha: string): (n: nat)
    ensures n <= |feed|
  {
    match FirstMatch(feed, untilSha)
    case Some(k) => k + 1
    case None => |feed|
  }

  /** Every item of the feed converted, with no truncation. */
  function ConvertAll(owner: string, repo: string, feed: seq<RawCommit>): seq<Commit>
  {
    seq(|feed|, i requires 0 <= i < |feed| => ToCommit(owner, repo, feed[i]))
  }

  /** Reference definition of the truncated feed, item by item: emit the
      head, then stop if its sha starts with `untilSha`. The output is never
      longer than the feed, and the newest commit is always emitted, since
      the test comes after the record is yielded. */
  function Processed(owner: string, repo: string, feed: seq<RawCommit>, untilSha: string): (out: seq<Commit>)
    ensures |out| <= |feed|
    ensures out == [] <==> feed == []
    ensures feed != [] ==> out[0] == ToCommit(owner, repo, feed[0])
  {
    if feed == [] then []
    else
      [ToCommit(owner, repo, feed[0])]
      + (if StartsWith(feed[0].sha, untilSha) then [] else Processed(owner, repo, feed[1..], untilSha))
  }

  /** The `foreach` over the feed with its `yield return` and `break`,
      with the lazily produced sequence materialised. */
  method ProcessCommits(owner: string, repo: string, githubCommits: seq<RawCommit>, untilSha: string)
    returns (commits: seq<Commit>)
    ensures commits == Processed(owner, repo, githubCommits, untilSha)
    ensures |commits| <= |githubCommits|
    ensures forall i :: 0 <= i < |commits| ==> commits[i] == ToCommit(owner, repo, githubCommits[i])
    ensures forall i :: 0 <= i < |commits| - 1 ==> !StartsWith(githubCommits[i].sha, untilSha)
    ensures |commits| < |githubCommits| ==>
              |commits| > 0 && StartsWith(githubCommits[|commits| - 1].sha, untilSha)
  {
    commits := [];
    var i := 0;
    while i < |githubCommits|
      invariant 0 <= i <= |githubCommits|
      invariant |commits| == i
      invariant commits == ConvertAll(owner, repo, githubCommits[..i])
      invariant forall j :: 0 <= j < i ==> !StartsWith(githubCommits[j].sha, untilSha)
    {
      var commit := githubCommits[i];
      commits := commits + [ToCommit(owner, repo, commit)];
      assert commits == ConvertAll(owner, repo, githubCommits[..i + 1]);
      if StartsWith(commit.sha, untilSha) {
        break;
      }
      i := i + 1;
    }
    if i == |githubCommits| {
      assert githubCommits[..i] == githubCommits;
      NoMatchKeepsAll(owner, repo, githubCommits, untilSha);
    } else {
      BoundaryInclusive(owner, repo, githubCommits, untilSha, i);
    }
  }

  /** The i-th emitted record is the conversion of the i-th feed item. */
  lemma {:induction false} ProcessedAt(owner: string, repo: string, feed: seq<RawCommit>, untilSha: string, i: nat)
    requires i < |Processed(owner, repo, feed, untilSha)|
    ensures i < |feed| && Processed(owner, repo, feed, untilSha)[i] == ToCommit(owner, repo, feed[i])
  {
    if i > 0 {
      ProcessedAt(owner, repo, feed[1..], untilSha, i - 1);
    }
  }

  /** The output has one record per item consumed: as many as EmittedCount. */
  lemma {:induction false} ProcessedLength(owner: string, repo: string, feed: seq<RawCommit>, untilSha: string)
    ensures |Processed(owner, repo, feed, untilSha)| == EmittedCount(feed, untilSha)
  {
    if feed != [] && !StartsWith(feed[0].sha, untilSha) {
      ProcessedLength(owner, repo, feed[1..], untilSha);
    }
  }

  /** The output is a prefix of the converted feed, in the same order. */
  lemma {:induction false} ProcessedIsPrefix(owner: string, repo: string, feed: seq<RawCommit>, untilSha: string)
    ensures Processed(owner, repo, feed, untilSha) <= ConvertAll(owner, repo, feed)
  {
    var out := Processed(owner, repo, feed, untilSha);
    ProcessedLength(owner, repo, feed, untilSha);
    forall i | 0 <= i < |out|
      ensures out[i] == ConvertAll(owner, repo, feed)[i]
    {
      ProcessedAt(owner, repo, feed, untilSha, i);
    }
  }

  /** The boundary is inclusive: when item k is the first whose sha starts
      with `untilSha`, the output ends exactly at item k. */
  lemma {:induction false} BoundaryInclusive(owner: string, repo: string, feed: seq<RawCommit>, untilSha: string, k: nat)
    requires k < |feed| && StartsWith(feed[k].sha, untilSha)
    requires forall j :: 0 <= j < k ==> !StartsWith(feed[j].sha, untilSha)
    ensures Processed(owner, repo, feed, untilSha) == ConvertAll(owner, repo, feed[..k + 1])
  {
    var out := Processed(owner, repo, feed, untilSha);
    ProcessedLength(owner, repo, feed, untilSha);
    assert FirstMatch(feed, untilSha) == Some(k);
    forall i | 0 <= i < |out|
      ensures out[i] == ConvertAll(owner, repo, feed[..k + 1])[i]
    {
      ProcessedAt(owner, repo, feed, untilSha, i);
    }
  }

  /** No emitted record other than the last has a sha starting with `untilSha`. */
  lemma {:induction false} OnlyLastMatches(owner: string, repo: string, feed: seq<RawCommit>, untilSha: string)
    ensures forall i :: 0 <= i < |Processed(owner, repo, feed, untilSha)| - 1 ==>
              !StartsWith(Processed(owner, repo, feed, untilSha)[i].sha, untilSha)
  {
    var out := Processed(owner, repo, feed, untilSha);
    ProcessedLength(owner, repo, feed, untilSha);
    forall i | 0 <= i < |out| - 1
      ensures !StartsWith(out[i].sha, untilSha)
    {
      ProcessedAt(owner, repo, feed, untilSha, i);
    }
  }

  /** With no matching sha nothing is truncated: every item is emitted. */
  lemma {:induction false} NoMatchKeepsAll(owner: string, repo: string, feed: seq<RawCommit>, untilSha: string)
    requires forall j :: 0 <= j < |feed| ==> !StartsWith(feed[j].sha, untilSha)
    ensures Processed(owner, repo, feed, untilSha) == ConvertAll(owner, repo, feed)
  {
    ProcessedIsPrefix(owner, repo, feed, untilSha);
    ProcessedLength(owner, repo, feed, untilSha);
  }

  /** Truncation happens only at a match: a shorter output ends with a
      record whose sha starts with `untilSha`. */
  lemma {:induction false} TruncatedOnlyAtMatch(owner: string, repo: string, feed: seq<RawCommit>, untilSha: string)
    ensures var out := Processed(owner, repo, feed, untilSha);
      |out| < |feed| ==> |out| > 0 && StartsWith(out[|out| - 1].sha, untilSha)
  {
    var out := Processed(owner, repo, feed, untilSha);
    ProcessedLength(owner, repo, feed, untilSha);
    if |out| < |feed| {
      ProcessedAt(owner, repo, feed, untilSha, |out| - 1);
    }
  }

  /** Every sha starts with the empty string, so an empty `untilSha` emits
      at most one record: the newest commit. */
  lemma {:induction false} EmptyUntilShaEmitsOne(owner: string, repo: string, feed: seq<RawCommit>)
    ensures Processed(owner, repo, feed, "") == ConvertAll(owner, repo, feed[..if feed == [] then 0 else 1])
  {
    if feed != [] {
      BoundaryInclusive(owner, repo, feed, "", 0);
    }
  }

  /** Distinct shas get distinct fallback links in the same repository, so
      the fallback link identifies the commit. */
  lemma FallbackLinkInjective(owner: string, repo: string, sha1: string, sha2: string)
    requires FallbackLink(owner, repo, sha1) == FallbackLink(owner, repo, sha2)
    ensures sha1 == sha2
  {
  }
}
