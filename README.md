# GitHub asset compliance verification, modelled in Dafny

`execute_verify.py` checks one markdown report kept in a GitHub repository. It
reads an access token and an organisation from the settings, fetches the file
from a branch, checks that the required structural strings occur in it,
evaluates the content rules in order (`stat_match`, `regex_match`,
`text_match`), and, when a commit block is configured, looks for a recent
commit whose message matches a pattern. The first failing step ends the run.

This project models that validation logic:

- `text.dfy` (module `Text`): Python's substring test `t in s` and
  `s.split(sep)` with a one-character separator, with the inverse `Join` and the round trips between them.
- `numeral.dfy` (module `Numeral`): the fixed scanner `re.search(r"(\d+(?:\.\d+)?)", line)`
  written out. The regex takes the leftmost numeral of a line, greedily.
  `FirstNumber` is proved equal to an independent description: the greedy
  match at the first digit.
- `rules.dfy` (module `Rules`): the structure check `VerifyFileStructure` and
  the content rule evaluator `VerifyContentAccuracy`. Both are loops, proved
  against the specification functions `Missing` and `FirstFailure`.
  `FirstFailure` is the in-order scan `FirstRejected`, which stops at the first
  rejected item, applied to the rule semantics `RuleMatches`. The properties of
  the scan are proved once, for any predicate.
- `github.dfy` (module `GitHub`): the settings check, the request headers, the
  requests issued, and the commit search loop `SearchCommits`.
- `pipeline.dfy` (module `Verification`): the configuration and the
  early-return pipeline `RunVerificationProcess`. It is proved against the
  value-level run `Verify`. A run yields its outcome and the trace of API
  calls it issued.
- `scenarios.dfy` (module `Scenarios`): concrete documents and configurations
  of the kind the script is written for.

The environment is passed in as values and oracles:

- The two settings are a `Settings` value of two optional strings.
- The file fetch (HTTP call, base64 and UTF-8 decoding) is a function from the
  request to an optional text.
- The commit listing is a function from the request to an optional list of
  messages.
- Python's regex engine is a function `(pattern, text) -> bool`. There is one
  for `regex_match` rules (`re.search`) and one for commit messages
  (`re.search` with `re.IGNORECASE`).

A `stat_match` rule compares only the *first* numeral of a line with the
expected text (execute_verify.py:267). A line whose first numeral differs never
matches, whatever follows it (`Rules.OnlyFirstNumeralCounts`,
`Scenarios.StatFirstNumeralOnly`).

## Model

| member | source | states |
|---|---|---|
| `Text.Contains` | execute_verify.py:237 | no contract of its own; defines Python's `t in s` on strings (also at execute_verify.py:265 and 281), the empty string occurring everywhere; characterised by `ContainsIff` and `ContainsCharacters` |
| `Text.ContainsIff` | execute_verify.py:237 | `Contains` (Python's `in` on strings) holds exactly when the string occurs at some index |
| `Text.ContainsCharacters` | execute_verify.py:265 | every character of a contained string occurs in the containing string |
| `Text.Split` | execute_verify.py:254 | `split("\n")` yields at least one piece, even for an empty document |
| `Text.SplitPiecesWithoutSeparator` | execute_verify.py:254 | no piece of a split contains the separator |
| `Text.JoinSplit` | execute_verify.py:254 | joining the pieces of a split with the separator gives back the original document |
| `Text.SplitJoin` | execute_verify.py:254 | the converse: splitting the join of separator-free pieces gives back those pieces |
| `Text.SplitWithoutSeparator` | execute_verify.py:254 | a text without a line break is a single line |
| `Text.SplitLine` | execute_verify.py:254 | a first line without the separator comes off as the first piece, and the rest is split on its own |
| `Numeral.DigitRun` | execute_verify.py:267 | the `\d+` part: a prefix made of digits that cannot be extended by another digit |
| `Numeral.DigitRunUnique` | execute_verify.py:267 | any digit prefix that cannot be extended is that run |
| `Numeral.TokenAt` | execute_verify.py:267 | the match at a digit is a numeral `\d+(\.\d+)?` taken greedily: no digit follows it, and an integer is not followed by a dot and a digit |
| `Numeral.GreedyMatchUnique` | execute_verify.py:267 | the greedy match at a position is unique |
| `Numeral.GreedyDecimalUnique` | execute_verify.py:267 | a greedy match with a fraction is the match computed at that position |
| `Numeral.FirstNumber` | execute_verify.py:267 | no contract of its own; defines `re.search(r"(\d+(?:\.\d+)?)", line)` as the match at the first digit, or none; characterised by `FirstNumberNone`, `FirstNumberFound` and `FirstNumberLeftmost` |
| `Numeral.FirstNumberNone` | execute_verify.py:267 | the search finds nothing exactly when the line has no digit |
| `Numeral.FirstNumberFound` | execute_verify.py:267 | a numeral found is the greedy match at the line's first digit |
| `Numeral.FirstNumberLeftmost` | execute_verify.py:267 | the greedy match at the first digit is always the numeral found, so later numerals are never taken |
| `Rules.Missing` | execute_verify.py:235-238 | no contract of its own; defines the list of required entries that are not substrings of the content, in configured order; characterised by `MissingAppend`, `MissingEmptyIff`, `MissingCounts` and `MissingMembers` |
| `Rules.MissingAppend` | execute_verify.py:235-238 | the missing list of a concatenation is the concatenation of the missing lists, so configured order is kept |
| `Rules.MissingEmptyIff` | execute_verify.py:240-245 | nothing is missing exactly when every required entry occurs in the content; an empty list passes |
| `Rules.MissingCounts` | execute_verify.py:235-241 | an absent entry is reported once per configured copy, and a present one never |
| `Rules.MissingMembers` | execute_verify.py:235-241 | an entry is reported exactly when it is required and absent, so all absences are reported |
| `Rules.VerifyFileStructure` | execute_verify.py:231-245 | returns the list of absent entries, in order; passes exactly when every required entry occurs in the content |
| `Rules.LineSatisfies` | execute_verify.py:265-268 | no contract of its own; defines the per-line test: the line contains the target and its first numeral is the expected text; characterised by `OnlyFirstNumeralCounts`, `Scenarios.SingleLineStat` and `StatTargetWithNewline` |
| `Rules.AnyLineSatisfies` | execute_verify.py:264-272 | no contract of its own; defines the scan over the lines: some line satisfies the rule; characterised by `AnyLineAppend`, `StatMatchesLine` and `VerifyContentAccuracy` |
| `Rules.StatMatches` | execute_verify.py:254-272 | no contract of its own; defines a `stat_match` rule as holding when some line of `content.split("\n")` contains the target and has the expected text as its first numeral; characterised by `StatMatchesLine`, `StatMatchesOfLines`, `OnlyFirstNumeralCounts` and `StatTargetWithNewline` |
| `Rules.RuleMatches` | execute_verify.py:262-284 | no contract of its own; defines the three-way dispatch on the exact type string, with every other type never matching; characterised by `VerifyContentAccuracy` and `Scenarios.UnknownRuleTypeFails` |
| `Rules.FirstFailure` | execute_verify.py:256-286 | no contract of its own; defines the reported rule as the first rule, in order, that `RuleMatches` rejects; characterised by the `FirstRejected` lemmas and by `VerifyContentAccuracy` |
| `Rules.FirstRejected` | execute_verify.py:256-286 | the scan in order that stops at the first rule that does not match gives an index within the list |
| `Rules.FirstRejectedNone` | execute_verify.py:256-289 | the scan reports nothing exactly when every rule matches; an empty rule list passes |
| `Rules.FirstRejectedFound` | execute_verify.py:256-286 | the rule reported does not match, and every rule before it does |
| `Rules.VerifyContentAccuracy` | execute_verify.py:247-289 | the nested loop's result is the first failing rule, if any; passes exactly when there is none; an empty rule list passes |
| `Rules.FirstRejectedAt` | execute_verify.py:284-286 | a failing rule that every earlier rule passes is the failure reported |
| `Rules.FirstRejectedStops` | execute_verify.py:284-286 | once a prefix of the rules fails, appending rules changes nothing, so later rules are never consulted |
| `Rules.FirstRejectedContinues` | execute_verify.py:256-286 | when a prefix passes, the result is that of the remaining rules, with the index shifted |
| `Rules.AnyLineAppend` | execute_verify.py:264-272 | some line of a concatenation satisfies a rule exactly when some line of one side does |
| `Rules.StatMatchesLine` | execute_verify.py:264-272 | a `stat_match` rule holds on `line + "\n" + rest` exactly when the line satisfies it or the rule holds on `rest`, so a non-matching line does not stop the scan |
| `Rules.StatMatchesOfLines` | execute_verify.py:254-272 | a document given as separator-free lines satisfies the rule exactly when one of those lines does |
| `Rules.OnlyFirstNumeralCounts` | execute_verify.py:265-268 | a line whose first numeral differs from the expected text never satisfies the rule, whatever numerals follow |
| `Rules.StatTargetWithNewline` | execute_verify.py:254-265 | a `stat_match` target containing a line break matches no line |
| `GitHub.Truthy` | execute_verify.py:202-224 | no contract of its own; defines Python truthiness of an optional string, present and non-empty, as `if not github_token`, `if not github_org` (lines 202, 206) and `if not content` (line 224) test it; characterised by `VerifyEnvironmentSetup`, `FileMissingHalts` and `Scenarios.EmptyFileFails` |
| `GitHub.VerifyEnvironmentSetup` | execute_verify.py:196-211 | passes exactly when the token and the organisation are both present and non-empty, and returns them; the token is checked first |
| `GitHub.BuildRequestHeaders` | execute_verify.py:126-131 | the headers carry a bearer token that can be read back, and the fixed accept format |
| `GitHub.SearchCommits` | execute_verify.py:174-190 | true exactly when the listing call succeeds and some returned message matches the pattern; an API failure gives false |
| `GitHub.AnyMessageMatches` | execute_verify.py:187-190 | no contract of its own; defines the commit search's success: some returned message matches the pattern; characterised by `SearchCommits`, which the early-return loop is proved against |
| `Verification.FileRequestFor` | execute_verify.py:327-333 | no contract of its own; defines the file request from the run's token, organisation, repository, path and branch, as `get_repository_file_content` issues it (execute_verify.py:163-165); its use is characterised by `FileMissingHalts` and `CallTrace` |
| `Verification.CommitStepConfigured` | execute_verify.py:349 | no contract of its own; defines the truthiness of `commit_verification`: present and a non-empty dict; characterised by `PassesIffAllChecks`, `CallTrace`, `Scenarios.EmptyCommitBlockSkipped` and `Scenarios.OtherKeysOnlyBlockAborts` |
| `Verification.CommitStep` | execute_verify.py:348-360 | no contract of its own; defines the commit step: skipped when not configured, aborted without `msg_pattern`, otherwise passed exactly when the listing succeeds and some message matches; characterised by `PassesIffAllChecks` and `CallTrace` |
| `Verification.Verify` | execute_verify.py:313-373 | no contract of its own; defines the run as a value: the steps in order, stopping at the first failure, with the calls issued; characterised by `RunVerificationProcess`, `PassesIffAllChecks`, `CallTrace`, `EnvironmentFailureIssuesNoCall`, `FileMissingHalts` and `LaterRulesIgnored` |
| `Verification.CommitsRequestFor` | execute_verify.py:348-356 | the commit request asks for `max_commits` commits, or ten when the key is absent, with the run's token, organisation and repository |
| `Verification.RunVerificationProcess` | execute_verify.py:313-373 | the early-return pipeline yields exactly the outcome and call trace of the reference run `Verify` |
| `Verification.PassesIffAllChecks` | execute_verify.py:322-358 | a run passes exactly when both settings are non-empty, the file is non-empty, every structure occurs, every rule matches, and the commit check passes or is skipped |
| `Verification.EnvironmentFailureIssuesNoCall` | execute_verify.py:322-324 | a missing or empty setting fails the run before any API call, reporting the token first |
| `Verification.FileMissingHalts` | execute_verify.py:223-226 | a file the host does not return, or an empty one, fails the run after exactly one call, before the structure check |
| `Verification.CallTrace` | execute_verify.py:322-358 | a run issues no call without settings; otherwise the file request; the commit listing comes second, and only when every text check passed and a pattern is configured |
| `Verification.LaterRulesIgnored` | execute_verify.py:343-345 | when a content rule fails, rules appended after it leave the whole run unchanged |
| `Scenarios.SingleLineStat` | execute_verify.py:263-270 | on a one-line document, the rule holds exactly when the line contains the target and its first numeral equals the expected text |
| `Scenarios.StatExactValuePasses` | execute_verify.py:77-81 | the line `代码行数：15800` satisfies the rule for `代码行数` expecting `15800` |
| `Scenarios.StatOtherValueFails` | execute_verify.py:268 | the line `代码行数：15801` does not |
| `Scenarios.StatDecimalIsNotInteger` | execute_verify.py:267-268 | nor does `代码行数：15800.0`: the fraction is part of the match, and the values are compared as text |
| `Scenarios.StatFirstNumeralOnly` | execute_verify.py:267 | `更新于2024年，代码行数：15800`, a single line, fails, because its first numeral is `2024` |
| `Scenarios.StatLaterLineMatches` | execute_verify.py:264-272 | the same line followed by `代码行数：15800` passes: the scan goes on to later lines |
| `Scenarios.FailingRuleFirstIsReported` | execute_verify.py:284-286 | with a failing `text_match` rule first, that rule is the failure |
| `Scenarios.TextMatchSpansLines` | execute_verify.py:280-282 | `text_match` searches the whole document, across line breaks |
| `Scenarios.UnknownRuleTypeFails` | execute_verify.py:260-284 | a rule whose type is none of the three known strings, compared exactly, never matches |
| `Scenarios.TitleOnlyDocumentPasses` | execute_verify.py:322-373 | one required heading, no rules and no commit block, against `# Title\nbody`: the run passes after one call |
| `Scenarios.AbsentFileFails` | execute_verify.py:333-335 | a file the host does not return fails the file-existence step |
| `Scenarios.EmptyFileFails` | execute_verify.py:224-226 | an empty file counts as missing |
| `Scenarios.EmptyCommitBlockSkipped` | execute_verify.py:348-360 | an empty commit block is falsy, so the commit step is skipped and no listing is requested |
| `Scenarios.OtherKeysOnlyBlockAborts` | execute_verify.py:348-354 | a commit block holding only keys other than `msg_pattern` and `max_commits` is non-empty, so reading `msg_pattern` aborts the run, after the file request only |

## Left out

- HTTP: the URL, the `requests.get` call and the status-code mapping (execute_verify.py:133-153) are not modelled. The two fetches are oracles. The file fetch's `None` stands for every failure of `get_repository_file_content`: not found, another status, an exception, an empty body, a payload that does not decode (execute_verify.py:166-172). The commit listing's `None` stands only for an unsuccessful call (execute_verify.py:185); a successful empty list is `Some([])`. A listing entry without `commit.message`, or a non-empty body that is not a list of commit objects, raises in Python (execute_verify.py:187-188); the oracle cannot express it, so that crash is not modelled.
- Settings loading: the `.mcp_env` file read through `dotenv` and `os.environ` (execute_verify.py:119-124) is a `Settings` value given to the run.
- Decoding: the base64 decoding (RFC 4648, section 4) and the UTF-8 decoding of the file payload (execute_verify.py:169) are folded into the file oracle.
- Python's regex engine: user-supplied `regex_match` patterns (execute_verify.py:276) and the case-insensitive commit pattern (execute_verify.py:188) are uninterpreted predicates. An invalid pattern, which raises `re.error` in Python, is not modelled. Case-insensitivity of commit matching is a property of that oracle, not proved here.
- Numeral.IsDigit: accepts only ASCII `0`-`9`. Python's `\d` in a `str` pattern also matches other Unicode decimal digits, such as full-width `１`.
- Configuration shape: the dicts are datatypes with their keys present. A rule without `type`, `target` or `expected` raises `KeyError` in Python, and so does a configuration without one of the keys read with `[...]`: `target_repo`, `target_file` with its `path` and `branch`, `required_structures` and `content_rules` (execute_verify.py:326, 331-332, 338, 343). That is not modelled. `commit_verification` is read with `.get` (execute_verify.py:348), so a configuration without it does not raise: it is modelled as `None`, and the commit step is skipped. The one such case modelled is a non-empty commit block without `msg_pattern`, which gives `Aborted`; `CommitBlock.otherKeys` records whether the block holds keys besides the two read, so a block holding only such keys is non-empty and aborts too.
- Values: `expected` and `max_commits` are taken as a string and an integer. Only the `stat_match` comparison converts `expected` with `str(...)` (execute_verify.py:268). The `regex_match` and `text_match` branches use it as it is, so a non-string value raises `TypeError` there (execute_verify.py:276, 281); that is not modelled. `max_commits` is passed through unchecked.
- Output and exit: all printing to stdout and stderr, the separator, the success summary with its count of rules, and the process exit code (execute_verify.py:316-382) are not modelled. The outcome `Passed` stands for exit status 0. Every other outcome stands for status 1.
- `verify_commit_record` (execute_verify.py:291-307) only prints around `search_commits`. It is modelled as the pipeline's commit step.
