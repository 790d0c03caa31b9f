/**
 * What the verification script asks of its environment and of the repository
 * host: the two settings, the request headers, the requests it issues, and the
 * search over the commit messages that come back. The host itself, the HTTP
 * client and the settings file are oracles: function parameters whose answers
 * are taken as given.
 */
module GitHub {
  import opened Wrappers
  import opened Text

  const ACCEPT_FORMAT := "application/vnd.github.v3+json"
  const BEARER_PREFIX := "Bearer "
  /** How many recent commits are requested when the configuration names no count. */
  const DEFAULT_MAX_COMMITS := 10

  /** The two values `load_environment` reads, `MCP_GITHUB_TOKEN` and `GITHUB_EVAL_ORG`; `None` when a setting is unset. */
  datatype Settings = Settings(token: Option<string>, org: Option<string>)

  datatype Credentials = Credentials(token: string, org: string)

  /** Which setting `verify_environment_setup` reports as not configured. */
  datatype SettingMissing = TokenMissing | OrgMissing

  /** Python truthiness of an optional string: present and not empty. */
  predicate Truthy(v: Option<string>) {
    v.Some? && v.value != ""
  }

  /** `verify_environment_setup`: the token is checked first, then the organisation. */
  function VerifyEnvironmentSetup(settings: Settings): (r: Result<Credentials, SettingMissing>)
    ensures r.Success? <==> Truthy(settings.token) && Truthy(settings.org)
    ensures r.Success? ==> r.value == Credentials(settings.token.value, settings.org.value)
    ensures r == Failure(TokenMissing) <==> !Truthy(settings.token)
    ensures r == Failure(OrgMissing) <==> Truthy(settings.token) && !Truthy(settings.org)
  {
    if !Truthy(settings.token) then Failure(TokenMissing)
    else if !Truthy(settings.org) then Failure(OrgMissing)
    else Success(Credentials(settings.token.value, settings.org.value))
  }

  /** The `Authorization` and `Accept` headers of every request. */
  datatype Headers = Headers(authorization: string, accept: string)

  /** `build_request_headers`: a bearer token and the fixed response format. */
  function BuildRequestHeaders(token: string): (h: Headers)
    ensures BearerToken(h) == Some(token)
    ensures h.accept == ACCEPT_FORMAT
  {
    Headers(BEARER_PREFIX + token, ACCEPT_FORMAT)
  }

  /** The token a request authenticates with, read back from its `Authorization` header. */
  function BearerToken(h: Headers): Option<string> {
    if IsPrefix(BEARER_PREFIX, h.authorization) then Some(h.authorization[|BEARER_PREFIX|..]) else None
  }

  /** A request for `contents/{path}?ref={branch}` of `{org}/{repo}`. */
  datatype FileRequest = FileRequest(headers: Headers, org: string, repo: string, path: string, branch: string)

  /** A request for `commits?per_page={perPage}` of `{org}/{repo}`. */
  datatype CommitsRequest = CommitsRequest(headers: Headers, org: string, repo: string, perPage: int)

  /** One API call, as recorded in the trace of a run. */
  datatype ApiCall = GetContents(file: FileRequest) | ListCommits(commits: CommitsRequest)

  /**
   * `get_repository_file_content`: the decoded text of the file, or `None` when
   * the call fails, the body is empty or the payload does not decode.
   */
  type FileFetcher = FileRequest -> Option<string>

  /** The commit listing: the `commit.message` of each entry in the order returned, or `None` when the call fails. */
  type CommitsFetcher = CommitsRequest -> Option<seq<string>>

  /** `re.search(pattern, message, re.IGNORECASE)`, standing for Python's engine. */
  type MessageSearch = (string, string) -> bool

  /** Some message matches the pattern. */
  predicate AnyMessageMatches(messages: seq<string>, pattern: string, search: MessageSearch) {
    exists i | 0 <= i < |messages| :: search(pattern, messages[i])
  }

  /** `search_commits`: ask for the recent commits and return at the first message that matches. */
  method SearchCommits(fetchCommits: CommitsFetcher, request: CommitsRequest, pattern: string, search: MessageSearch)
    returns (found: bool)
    ensures found <==> fetchCommits(request).Some? && AnyMessageMatches(fetchCommits(request).value, pattern, search)
  {
    var commits := fetchCommits(request);
    if commits.None? {
      return false;
    }
    var messages := commits.value;
    var i := 0;
    while i < |messages|
      invariant 0 <= i <= |messages|
      invariant forall j :: 0 <= j < i ==> !search(pattern, messages[j])
    {
      if search(pattern, messages[i]) {
        return true;
      }
      i := i + 1;
    }
    return false;
  }
}
