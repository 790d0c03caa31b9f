/**
 * `run_verification_process`: environment check, file existence, structure,
 * content rules and the optional commit check, in that order, stopping at the
 * first step that fails. A run yields its outcome and the API calls it issued.
 */
module Verification {
  import opened Wrappers
  import opened Text
  import opened Rules
  import opened GitHub

  /** The `target_file` entry of the configuration. */
  datatype TargetFile = TargetFile(path: string, branch: string)

  /**
   * The `commit_verification` dict: either of the two keys it reads may be absent,
   * and `otherKeys` says whether it holds any key besides those two.
   */
  datatype CommitBlock = CommitBlock(msgPattern: Option<string>, maxCommits: Option<int>, otherKeys: bool)

  /** The verification configuration; `commitVerification` is `None` when the key is absent or `None`. */
  datatype Config = Config(
    targetRepo: string,
    targetFile: TargetFile,
    requiredStructures: seq<string>,
    contentRules: seq<Rule>,
    commitVerification: Option<CommitBlock>)

  /** The key whose absence from a non-empty commit block raises `KeyError`. */
  const MSG_PATTERN_KEY := "msg_pattern"

  /** The step at which a run stopped, with what the failure message reports. */
  datatype Step =
    | EnvironmentCheck(setting: SettingMissing)
    | FileExistence
    | FileStructure(missing: seq<string>)
    | ContentAccuracy(rule: Rule)
    | CommitRecord

  /** `Aborted` is an exception nothing catches: a non-empty commit block without `msg_pattern`. */
  datatype Outcome = Passed | Failed(step: Step) | Aborted(missingKey: string)

  datatype Run = Run(outcome: Outcome, calls: seq<ApiCall>)

  /** Python truthiness of the commit block: present and not the empty dict. */
  predicate CommitStepConfigured(block: Option<CommitBlock>) {
    block.Some? && (block.value.msgPattern.Some? || block.value.maxCommits.Some? || block.value.otherKeys)
  }

  /** The request for the target file, authenticated with the run's token. */
  function FileRequestFor(config: Config, creds: Credentials): FileRequest {
    FileRequest(BuildRequestHeaders(creds.token), creds.org, config.targetRepo,
                config.targetFile.path, config.targetFile.branch)
  }

  /** The request for the recent commits; `max_commits` defaults to ten. */
  function CommitsRequestFor(config: Config, creds: Credentials, block: CommitBlock): (r: CommitsRequest)
    ensures block.maxCommits.None? ==> r.perPage == DEFAULT_MAX_COMMITS
    ensures block.maxCommits.Some? ==> r.perPage == block.maxCommits.value
    ensures BearerToken(r.headers) == Some(creds.token) && r.org == creds.org && r.repo == config.targetRepo
  {
    CommitsRequest(BuildRequestHeaders(creds.token), creds.org, config.targetRepo,
                   block.maxCommits.GetOr(DEFAULT_MAX_COMMITS))
  }

  /** The commit step after the text checks have passed, with the calls made so far. */
  function CommitStep(config: Config, creds: Credentials, calls: seq<ApiCall>,
                      fetchCommits: CommitsFetcher, search: MessageSearch): Run
  {
    var block := config.commitVerification;
    if !CommitStepConfigured(block) then Run(Passed, calls)
    else if block.value.msgPattern.None? then Run(Aborted(MSG_PATTERN_KEY), calls)
    else
      var request := CommitsRequestFor(config, creds, block.value);
      var commits := fetchCommits(request);
      var found := commits.Some? && AnyMessageMatches(commits.value, block.value.msgPattern.value, search);
      Run(if found then Passed else Failed(CommitRecord), calls + [ListCommits(request)])
  }

  /** The run the script performs, as a value: the reference the method below is proved against. */
  function Verify(config: Config, settings: Settings, fetchFile: FileFetcher, fetchCommits: CommitsFetcher,
                  regexSearch: RegexSearch, search: MessageSearch): Run
  {
    match VerifyEnvironmentSetup(settings)
    case Failure(setting) => Run(Failed(EnvironmentCheck(setting)), [])
    case Success(creds) =>
      var request := FileRequestFor(config, creds);
      var fetched := fetchFile(request);
      var calls := [GetContents(request)];
      if !Truthy(fetched) then Run(Failed(FileExistence), calls)
      else
        var content := fetched.value;
        var missing := Missing(content, config.requiredStructures);
        if missing != [] then Run(Failed(FileStructure(missing)), calls)
        else
          match FirstFailure(content, config.contentRules, regexSearch)
          case Some(i) => Run(Failed(ContentAccuracy(config.contentRules[i])), calls)
          case None => CommitStep(config, creds, calls, fetchCommits, search)
  }

  /** `run_verification_process`, step by step with early returns. */
  method RunVerificationProcess(config: Config, settings: Settings, fetchFile: FileFetcher,
                                fetchCommits: CommitsFetcher, regexSearch: RegexSearch, search: MessageSearch)
    returns (outcome: Outcome, calls: seq<ApiCall>)
    ensures Run(outcome, calls) == Verify(config, settings, fetchFile, fetchCommits, regexSearch, search)
  {
    calls := [];
    var env := VerifyEnvironmentSetup(settings);
    if env.Failure? {
      return Failed(EnvironmentCheck(env.error)), calls;
    }
    var creds := env.value;

    var request := FileRequestFor(config, creds);
    var fetched := fetchFile(request);
    calls := calls + [GetContents(request)];
    if !Truthy(fetched) {
      return Failed(FileExistence), calls;
    }
    var content := fetched.value;

    var structureValid, missing := VerifyFileStructure(content, config.requiredStructures);
    MissingEmptyIff(content, config.requiredStructures);
    if !structureValid {
      return Failed(FileStructure(missing)), calls;
    }

    var contentValid, failed := VerifyContentAccuracy(content, config.contentRules, regexSearch);
    if !contentValid {
      return Failed(ContentAccuracy(config.contentRules[failed.value])), calls;
    }

    var block := config.commitVerification;
    if CommitStepConfigured(block) {
      if block.value.msgPattern.None? {
        return Aborted(MSG_PATTERN_KEY), calls;
      }
      var commitsRequest := CommitsRequestFor(config, creds, block.value);
      calls := calls + [ListCommits(commitsRequest)];
      var found := SearchCommits(fetchCommits, commitsRequest, block.value.msgPattern.value, search);
      if !found {
        return Failed(CommitRecord), calls;
      }
    }
    return Passed, calls;
  }

  // ---------------------------------------------------------------------------
  // Properties of a run

  /** The commit step passes: skipped when not configured, otherwise some listed message matches. */
  predicate CommitCheckPasses(config: Config, creds: Credentials, fetchCommits: CommitsFetcher, search: MessageSearch) {
    var block := config.commitVerification;
    !CommitStepConfigured(block) ||
    (block.value.msgPattern.Some? &&
     var commits := fetchCommits(CommitsRequestFor(config, creds, block.value));
     commits.Some? && AnyMessageMatches(commits.value, block.value.msgPattern.value, search))
  }

  /** Every check holds, each stated on its own rather than as a sequence of steps. */
  predicate AllChecksPass(config: Config, settings: Settings, fetchFile: FileFetcher, fetchCommits: CommitsFetcher,
                          regexSearch: RegexSearch, search: MessageSearch) {
    && Truthy(settings.token)
    && Truthy(settings.org)
    && var creds := Credentials(settings.token.value, settings.org.value);
       var fetched := fetchFile(FileRequestFor(config, creds));
       && Truthy(fetched)
       && (forall s :: s in config.requiredStructures ==> Contains(fetched.value, s))
       && (forall i :: 0 <= i < |config.contentRules| ==> RuleMatches(fetched.value, config.contentRules[i], regexSearch))
       && CommitCheckPasses(config, creds, fetchCommits, search)
  }

  /** A run passes exactly when every check holds. */
  lemma PassesIffAllChecks(config: Config, settings: Settings, fetchFile: FileFetcher, fetchCommits: CommitsFetcher,
                           regexSearch: RegexSearch, search: MessageSearch)
    ensures Verify(config, settings, fetchFile, fetchCommits, regexSearch, search).outcome == Passed <==>
            AllChecksPass(config, settings, fetchFile, fetchCommits, regexSearch, search)
  {
    if Truthy(settings.token) && Truthy(settings.org) {
      var creds := Credentials(settings.token.value, settings.org.value);
      var fetched := fetchFile(FileRequestFor(config, creds));
      if Truthy(fetched) {
        MissingEmptyIff(fetched.value, config.requiredStructures);
        FirstRejectedNone(config.contentRules, Matcher(fetched.value, regexSearch));
      }
    }
  }

  /** A missing or empty setting stops the run before any API call, the token being checked first. */
  lemma EnvironmentFailureIssuesNoCall(config: Config, settings: Settings, fetchFile: FileFetcher,
                                       fetchCommits: CommitsFetcher, regexSearch: RegexSearch, search: MessageSearch)
    requires !Truthy(settings.token) || !Truthy(settings.org)
    ensures var run := Verify(config, settings, fetchFile, fetchCommits, regexSearch, search);
            run.calls == [] &&
            run.outcome == Failed(EnvironmentCheck(if !Truthy(settings.token) then TokenMissing else OrgMissing))
  {
  }

  /** A file that cannot be fetched, or is empty, stops the run after its one call. */
  lemma FileMissingHalts(config: Config, settings: Settings, fetchFile: FileFetcher,
                         fetchCommits: CommitsFetcher, regexSearch: RegexSearch, search: MessageSearch)
    requires Truthy(settings.token) && Truthy(settings.org)
    requires !Truthy(fetchFile(FileRequestFor(config, Credentials(settings.token.value, settings.org.value))))
    ensures Verify(config, settings, fetchFile, fetchCommits, regexSearch, search) ==
            Run(Failed(FileExistence), [GetContents(FileRequestFor(config, Credentials(settings.token.value, settings.org.value)))])
  {
  }

  /**
   * The calls a run issues: none when the settings are missing, otherwise the file
   * request, followed by the commit listing only when every text check passed and
   * a commit pattern is configured.
   */
  lemma CallTrace(config: Config, settings: Settings, fetchFile: FileFetcher,
                  fetchCommits: CommitsFetcher, regexSearch: RegexSearch, search: MessageSearch)
    ensures var run := Verify(config, settings, fetchFile, fetchCommits, regexSearch, search);
            (|run.calls| == 0 <==> !(Truthy(settings.token) && Truthy(settings.org))) &&
            (|run.calls| > 0 ==>
               var creds := Credentials(settings.token.value, settings.org.value);
               var fetched := fetchFile(FileRequestFor(config, creds));
               run.calls[0] == GetContents(FileRequestFor(config, creds)) &&
               (|run.calls| == 2 <==>
                  && Truthy(fetched)
                  && (forall s :: s in config.requiredStructures ==> Contains(fetched.value, s))
                  && (forall i :: 0 <= i < |config.contentRules| ==>
                        RuleMatches(fetched.value, config.contentRules[i], regexSearch))
                  && CommitStepConfigured(config.commitVerification)
                  && config.commitVerification.value.msgPattern.Some?) &&
               (|run.calls| == 2 ==>
                  run.calls[1] == ListCommits(CommitsRequestFor(config, creds, config.commitVerification.value)))) &&
            |run.calls| <= 2
  {
    if Truthy(settings.token) && Truthy(settings.org) {
      var creds := Credentials(settings.token.value, settings.org.value);
      var fetched := fetchFile(FileRequestFor(config, creds));
      if Truthy(fetched) {
        MissingEmptyIff(fetched.value, config.requiredStructures);
        FirstRejectedNone(config.contentRules, Matcher(fetched.value, regexSearch));
      }
    }
  }

  /** A failing content rule is the one reported, and rules after it do not affect the run. */
  lemma LaterRulesIgnored(config: Config, extra: seq<Rule>, settings: Settings, fetchFile: FileFetcher,
                          fetchCommits: CommitsFetcher, regexSearch: RegexSearch, search: MessageSearch)
    requires Truthy(settings.token) && Truthy(settings.org)
    requires var fetched := fetchFile(FileRequestFor(config, Credentials(settings.token.value, settings.org.value)));
             Truthy(fetched) && FirstFailure(fetched.value, config.contentRules, regexSearch).Some?
    ensures Verify(config.(contentRules := config.contentRules + extra), settings, fetchFile, fetchCommits, regexSearch, search) ==
            Verify(config, settings, fetchFile, fetchCommits, regexSearch, search)
  {
    var creds := Credentials(settings.token.value, settings.org.value);
    var content := fetchFile(FileRequestFor(config, creds)).value;
    FirstRejectedStops(config.contentRules, extra, Matcher(content, regexSearch));
    var i := FirstFailure(content, config.contentRules, regexSearch).value;
    assert (config.contentRules + extra)[i] == config.contentRules[i];
  }
}
