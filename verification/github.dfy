/**
 * GitHub context of a paper: the repository URL found in the abstract by
 * `GITHUB_PATTERN`, and `fetch_github_context`, which rewrites that URL to the
 * raw-content host and fetches `README.md` and `requirements.txt`, trying the
 * `main` branch before `master`. The network is a parameter: `http` maps a URL
 * to the outcome of one GET request.
 */
module Github {
  import opened Wrappers
  import opened Text

  const GithubPrefix := "https://github.com/"
  const RawPrefix := "https://raw.githubusercontent.com/"
  /** The branches tried, in order. */
  const Branches: seq<string> := ["main", "master"]

  // ---------------------------------------------------------------------------
  // GITHUB_PATTERN = https://github\.com/[\w\-]+/[\w\-]+
  // ---------------------------------------------------------------------------

  /** A character of `[\w\-]`, with `\w` read as ASCII letters, digits and `_`. */
  predicate IsNameChar(c: char) {
    ('a' <= c <= 'z') || ('A' <= c <= 'Z') || ('0' <= c <= '9') || c == '_' || c == '-'
  }

  /** A string matched by `[\w\-]+`. */
  predicate IsName(s: string) {
    |s| > 0 && forall i :: 0 <= i < |s| ==> IsNameChar(s[i])
  }

  /** The repository URL of `user` and `repo` as it appears on github.com. */
  function RepoUrl(user: string, repo: string): string {
    GithubPrefix + user + "/" + repo
  }

  /** Length of the longest run of `[\w\-]` characters starting at `i`. */
  function NameLength(s: string, i: nat): (n: nat)
    requires i <= |s|
    ensures i + n <= |s|
    ensures forall k :: i <= k < i + n ==> IsNameChar(s[k])
    ensures i + n == |s| || !IsNameChar(s[i + n])
    decreases |s| - i
  {
    if i < |s| && IsNameChar(s[i]) then 1 + NameLength(s, i + 1) else 0
  }

  /**
   * The match of the pattern that starts at position `i`, if any. Both name
   * runs are greedy; a shorter first run cannot help, since the character
   * after it would be a name character rather than `/`.
   */
  function MatchAt(s: string, i: nat): (m: Option<string>)
    requires i <= |s|
    ensures m.Some? ==> i + |m.value| <= |s| && m.value == s[i..i + |m.value|]
    ensures m.Some? ==> exists user, repo :: IsName(user) && IsName(repo) && m.value == RepoUrl(user, repo)
  {
    var j := i + |GithubPrefix|;
    if j <= |s| && s[i..j] == GithubPrefix then
      var a := NameLength(s, j);
      if a > 0 && j + a < |s| && s[j + a] == '/' then
        var b := NameLength(s, j + a + 1);
        if b > 0 then
          MatchParts(s, i, a, b);
          Some(s[i..j + a + 1 + b])
        else None
      else None
    else None
  }

  /** The text the pattern matched at `i` is the repository URL of the two name runs it consists of. */
  lemma {:induction false} MatchParts(s: string, i: nat, a: nat, b: nat)
    requires i + |GithubPrefix| + a + 1 + b <= |s|
    requires s[i..i + |GithubPrefix|] == GithubPrefix
    requires s[i + |GithubPrefix| + a] == '/'
    requires a > 0 && forall k :: i + |GithubPrefix| <= k < i + |GithubPrefix| + a ==> IsNameChar(s[k])
    requires b > 0 && forall k :: i + |GithubPrefix| + a + 1 <= k < i + |GithubPrefix| + a + 1 + b ==> IsNameChar(s[k])
    ensures IsName(s[i + |GithubPrefix|..i + |GithubPrefix| + a])
    ensures IsName(s[i + |GithubPrefix| + a + 1..i + |GithubPrefix| + a + 1 + b])
    ensures s[i..i + |GithubPrefix| + a + 1 + b] ==
      RepoUrl(s[i + |GithubPrefix|..i + |GithubPrefix| + a], s[i + |GithubPrefix| + a + 1..i + |GithubPrefix| + a + 1 + b])
  {
    var j := i + |GithubPrefix|;
    assert s[i..j + a + 1 + b] == s[i..j] + s[j..j + a] + [s[j + a]] + s[j + a + 1..j + a + 1 + b];
  }

  /** `GITHUB_PATTERN.search(s[i:])`: the leftmost match at or after `i`. */
  function SearchFrom(s: string, i: nat): (m: Option<string>)
    requires i <= |s|
    ensures m.Some? ==> exists k :: i <= k <= |s| && MatchAt(s, k) == m && forall l :: i <= l < k ==> MatchAt(s, l).None?
    ensures m.None? ==> forall l :: i <= l <= |s| ==> MatchAt(s, l).None?
    decreases |s| - i
  {
    var here := MatchAt(s, i);
    if here.Some? then here
    else if i == |s| then None
    else
      var later := SearchFrom(s, i + 1);
      assert forall l :: i <= l <= i ==> MatchAt(s, l).None?;
      later
  }

  /**
   * The `repo_url` that `search_arxiv` extracts from an abstract: the leftmost
   * match of the pattern, or None. A found URL is a piece of the abstract of
   * the form `https://github.com/{user}/{repo}` with two non-empty names.
   */
  function FindRepoUrl(summary: string): (m: Option<string>)
    ensures m.Some? ==> exists user, repo :: IsName(user) && IsName(repo) && m.value == RepoUrl(user, repo)
    ensures m.Some? ==> exists k :: 0 <= k <= |summary| && MatchAt(summary, k) == m &&
                                    forall l :: 0 <= l < k ==> MatchAt(summary, l).None?
    ensures m.None? ==> forall l :: 0 <= l <= |summary| ==> MatchAt(summary, l).None?
  {
    SearchFrom(summary, 0)
  }

  // ---------------------------------------------------------------------------
  // fetch_github_context
  // ---------------------------------------------------------------------------

  /** The outcome of one GET request: an exception, or a response with a status code and a body. */
  datatype HttpOutcome = RequestFailed | Response(status: int, body: string)

  /** The fetched texts; a text that could not be fetched is empty. */
  datatype GithubContext = GithubContext(readme: string, requirements: string)

  const NoContext := GithubContext("", "")

  /** The context fetched and the URLs requested, in request order. */
  datatype Fetched = Fetched(context: GithubContext, requested: seq<string>)

  predicate Serves(http: string -> HttpOutcome, url: string) {
    http(url).Response? && http(url).status == 200
  }

  /** The body of a 200 response, or "" for any other outcome. */
  function BodyIfServed(http: string -> HttpOutcome, url: string): (body: string)
    ensures body != "" ==> Serves(http, url) && http(url).body == body
  {
    if Serves(http, url) then http(url).body else ""
  }

  function RawBase(user: string, repo: string): string {
    RawPrefix + user + "/" + repo
  }

  function ReadmeUrl(base: string, branch: string): string {
    base + "/" + branch + "/README.md"
  }

  function RequirementsUrl(base: string, branch: string): string {
    base + "/" + branch + "/requirements.txt"
  }

  function ReadmeUrls(base: string, branches: seq<string>): (urls: seq<string>)
    ensures |urls| == |branches|
    ensures forall i :: 0 <= i < |branches| ==> urls[i] == ReadmeUrl(base, branches[i])
  {
    seq(|branches|, i requires 0 <= i < |branches| => ReadmeUrl(base, branches[i]))
  }

  /**
   * The user and repository names the rewrite takes from `repo_url`: every
   * `https://github.com/` is removed, the rest split on `/`, and the first two
   * parts kept; None when fewer than two parts remain.
   */
  function UserAndRepo(repoUrl: string): (r: Option<(string, string)>)
    ensures r.None? <==> '/' !in RemoveAll(repoUrl, GithubPrefix)
  {
    var parts := SplitOn(RemoveAll(repoUrl, GithubPrefix), '/');
    if |parts| < 2 then None else Some((parts[0], parts[1]))
  }

  /** What a branch serving its README yields: that README and, when served too, its requirements. */
  function FromBranch(http: string -> HttpOutcome, base: string, branch: string): GithubContext {
    GithubContext(BodyIfServed(http, ReadmeUrl(base, branch)), BodyIfServed(http, RequirementsUrl(base, branch)))
  }

  /** The branch loop: stops at the first branch that serves a README. */
  function TryBranches(base: string, branches: seq<string>, http: string -> HttpOutcome): Fetched
    decreases |branches|
  {
    if |branches| == 0 then Fetched(NoContext, [])
    else
      var readmeUrl := ReadmeUrl(base, branches[0]);
      if Serves(http, readmeUrl) then
        Fetched(FromBranch(http, base, branches[0]), [readmeUrl, RequirementsUrl(base, branches[0])])
      else
        var rest := TryBranches(base, branches[1..], http);
        Fetched(rest.context, [readmeUrl] + rest.requested)
  }

  /** `branches[i]` is the first branch whose README is served. */
  ghost predicate FirstServing(http: string -> HttpOutcome, base: string, branches: seq<string>, i: int) {
    && 0 <= i < |branches|
    && Serves(http, ReadmeUrl(base, branches[i]))
    && forall j :: 0 <= j < i ==> !Serves(http, ReadmeUrl(base, branches[j]))
  }

  /**
   * The first branch serving its README supplies README and requirements; the
   * README URLs of the branches before it and of it, then its requirements URL,
   * are requested in that order, and no later branch is consulted.
   */
  lemma {:induction false} TryBranchesFirst(base: string, branches: seq<string>, http: string -> HttpOutcome, i: int)
    requires FirstServing(http, base, branches, i)
    ensures TryBranches(base, branches, http) ==
      Fetched(FromBranch(http, base, branches[i]),
              ReadmeUrls(base, branches[..i + 1]) + [RequirementsUrl(base, branches[i])])
    decreases |branches|
  {
    var readmeUrl := ReadmeUrl(base, branches[0]);
    if i == 0 {
      assert ReadmeUrls(base, branches[..1]) == [readmeUrl];
    } else {
      var tail := branches[1..];
      assert forall j :: 0 <= j < |tail| ==> tail[j] == branches[j + 1];
      assert FirstServing(http, base, tail, i - 1);
      TryBranchesFirst(base, tail, http, i - 1);
      assert tail[..i] == branches[1..i + 1];
      assert ReadmeUrls(base, branches[..i + 1]) == [readmeUrl] + ReadmeUrls(base, tail[..i]);
    }
  }

  /** When no branch serves a README, every README URL is requested and both texts stay empty. */
  lemma {:induction false} TryBranchesNone(base: string, branches: seq<string>, http: string -> HttpOutcome)
    requires forall j :: 0 <= j < |branches| ==> !Serves(http, ReadmeUrl(base, branches[j]))
    ensures TryBranches(base, branches, http) == Fetched(NoContext, ReadmeUrls(base, branches))
    decreases |branches|
  {
    if |branches| > 0 {
      var tail := branches[1..];
      assert forall j :: 0 <= j < |tail| ==> tail[j] == branches[j + 1];
      TryBranchesNone(base, tail, http);
      assert ReadmeUrls(base, branches) == [ReadmeUrl(base, branches[0])] + ReadmeUrls(base, tail);
    }
  }

  /**
   * `fetch_github_context`: an empty URL, or one that leaves fewer than two
   * path parts after the rewrite, gives empty texts without any request;
   * requirements are only ever taken from the branch whose README was served.
   */
  function FetchGithubContext(repoUrl: string, http: string -> HttpOutcome): (r: Fetched)
    ensures repoUrl == "" || '/' !in RemoveAll(repoUrl, GithubPrefix) ==> r == Fetched(NoContext, [])
    ensures r.context.requirements != "" ==>
      exists branch :: branch in Branches && Serves(http, ReadmeUrl(RawBase(UserAndRepo(repoUrl).value.0, UserAndRepo(repoUrl).value.1), branch))
        && http(RequirementsUrl(RawBase(UserAndRepo(repoUrl).value.0, UserAndRepo(repoUrl).value.1), branch)) == Response(200, r.context.requirements)
  {
    if repoUrl == "" then Fetched(NoContext, [])
    else
      match UserAndRepo(repoUrl)
      case None => Fetched(NoContext, [])
      case Some((user, repo)) =>
        var base := RawBase(user, repo);
        var r := TryBranches(base, Branches, http);
        assert Branches[..1] == ["main"] && Branches[..2] == Branches;
        r
  }

  /**
   * `main` is tried before `master`: when `main` serves its README both texts
   * come from `main` and `master` is never requested; otherwise `master` is
   * tried in the same way; when neither serves a README both texts are empty.
   */
  lemma {:induction false} FetchBranchOrder(repoUrl: string, http: string -> HttpOutcome)
    requires repoUrl != "" && UserAndRepo(repoUrl).Some?
    ensures var (user, repo) := UserAndRepo(repoUrl).value;
      var base := RawBase(user, repo);
      var main, master := ReadmeUrl(base, "main"), ReadmeUrl(base, "master");
      var r := FetchGithubContext(repoUrl, http);
      && (Serves(http, main) ==>
            r == Fetched(FromBranch(http, base, "main"), [main, RequirementsUrl(base, "main")]))
      && (!Serves(http, main) && Serves(http, master) ==>
            r == Fetched(FromBranch(http, base, "master"), [main, master, RequirementsUrl(base, "master")]))
      && (!Serves(http, main) && !Serves(http, master) ==>
            r == Fetched(NoContext, [main, master]))
  {
    var (user, repo) := UserAndRepo(repoUrl).value;
    var base := RawBase(user, repo);
    assert Branches[1..] == ["master"];
    assert ReadmeUrls(base, Branches) == [ReadmeUrl(base, "main"), ReadmeUrl(base, "master")];
  }

  /**
   * The URL rewrite recovers the names from a URL of the pattern's shape: the
   * prefix is removed and the two names are the two path parts, so the raw
   * base is `https://raw.githubusercontent.com/{user}/{repo}`.
   */
  lemma {:induction false} RepoUrlRewrite(user: string, repo: string)
    requires IsName(user) && IsName(repo)
    ensures UserAndRepo(RepoUrl(user, repo)) == Some((user, repo))
  {
    PrefixRemoved(user, repo);
    assert '/' !in user && '/' !in repo;
    SplitOnTwoFields(user, repo, '/');
  }

  /** Removing every `https://github.com/` from a URL of the pattern's shape leaves `{user}/{repo}`. */
  lemma {:induction false} PrefixRemoved(user: string, repo: string)
    requires IsName(user) && IsName(repo)
    ensures RemoveAll(RepoUrl(user, repo), GithubPrefix) == user + "/" + repo
  {
    var rest := user + "/" + repo;
    assert RepoUrl(user, repo) == GithubPrefix + rest;
    RemoveAllLeading(GithubPrefix, rest);
    assert GithubPrefix[5] == ':';
    assert ':' !in user && ':' !in repo;
    assert ':' !in rest;
    RemoveAllAbsent(rest, GithubPrefix, 5);
  }

  /**
   * Every URL the abstract search yields is well formed: the first request of
   * the fetch is the `main` README under the raw base of the URL's two names.
   */
  lemma {:induction false} FoundUrlFetchesMainFirst(summary: string, http: string -> HttpOutcome)
    requires FindRepoUrl(summary).Some?
    ensures var url := FindRepoUrl(summary).value;
      && url != ""
      && UserAndRepo(url).Some?
      && var (user, repo) := UserAndRepo(url).value;
         && RepoUrl(user, repo) == url
         && |FetchGithubContext(url, http).requested| > 0
         && FetchGithubContext(url, http).requested[0] == ReadmeUrl(RawBase(user, repo), "main")
  {
    var url := FindRepoUrl(summary).value;
    var user, repo :| IsName(user) && IsName(repo) && url == RepoUrl(user, repo);
    RepoUrlRewrite(user, repo);
    FetchBranchOrder(url, http);
  }
}
