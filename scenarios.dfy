/**
 * Concrete configurations and documents of the kind the verification script is
 * written for, with the outcome of `Verify` on them proved.
 */
module Scenarios {
  import opened Wrappers
  import opened Text
  import opened Numeral
  import opened Rules
  import opened GitHub
  import opened Verification

  const LINES_OF_CODE := "代码行数"

  /** A one-line document whose first numeral is `t`, found after a prefix of `p` characters without digits. */
  lemma SingleLineStat(line: string, p: nat, t: string, target: string, expected: string)
    requires NEWLINE !in line
    requires FirstDigitAt(line, p) && IsGreedyMatch(t, line[p..])
    ensures StatMatches(line, target, expected) <==> Contains(line, target) && t == expected
  {
    SplitWithoutSeparator(line, NEWLINE);
    FirstNumberLeftmost(line, p, t);
    assert Split(line, NEWLINE)[0] == line;
  }

  /** `代码行数：15800` satisfies the rule expecting `15800`. */
  lemma StatExactValuePasses()
    ensures StatMatches(COUNT_ONLY, LINES_OF_CODE, "15800")
  {
    var line := COUNT_ONLY;
    assert line[5..] == "15800" && FirstDigitAt(line, 5);
    assert IsGreedyMatch("15800", line[5..]);
    assert IsPrefix(LINES_OF_CODE, line);
    SingleLineStat(line, 5, "15800", LINES_OF_CODE, "15800");
  }

  /** `代码行数：15801` does not. */
  lemma StatOtherValueFails()
    ensures !StatMatches("代码行数：15801", LINES_OF_CODE, "15800")
  {
    var line := "代码行数：15801";
    assert line[5..] == "15801" && FirstDigitAt(line, 5);
    assert IsGreedyMatch("15801", line[5..]);
    SingleLineStat(line, 5, "15801", LINES_OF_CODE, "15800");
  }

  /** Nor does `代码行数：15800.0`: numerals are compared as text, and the fraction is part of the match. */
  lemma StatDecimalIsNotInteger()
    ensures !StatMatches("代码行数：15800.0", LINES_OF_CODE, "15800")
  {
    var line := "代码行数：15800.0";
    var t := "15800.0";
    assert line[5..] == t && FirstDigitAt(line, 5);
    assert AllDigits(t[..5]) && AllDigits(t[6..]) && DecimalAt(t, 5) && t[5] == '.';
    assert IsGreedyMatch(t, line[5..]);
    SingleLineStat(line, 5, t, LINES_OF_CODE, "15800");
  }

  /** A line that mentions a year before the count. */
  const YEAR_FIRST := "更新于2024年，代码行数：15800"

  /** A line holding only the count. */
  const COUNT_ONLY := "代码行数：15800"

  /** Only the first numeral of a line counts: a line that mentions a year first fails although `15800` follows. */
  lemma StatFirstNumeralOnly()
    ensures NEWLINE !in YEAR_FIRST
    ensures !StatMatches(YEAR_FIRST, LINES_OF_CODE, "15800")
  {
    var line := YEAR_FIRST;
    var rest := line[3..];
    assert rest == "2024年，代码行数：15800";
    assert FirstDigitAt(line, 3);
    assert AllDigits("2024") && IsPrefix("2024", rest) && !IsDigit(rest[4]);
    assert IsGreedyMatch("2024", rest);
    SingleLineStat(line, 3, "2024", LINES_OF_CODE, "15800");
  }

  /** Such a line does not end the scan: a later line can still satisfy the rule. */
  lemma StatLaterLineMatches()
    ensures StatMatches(YEAR_FIRST + "\n" + COUNT_ONLY, LINES_OF_CODE, "15800")
  {
    StatFirstNumeralOnly();
    StatExactValuePasses();
    StatMatchesLine(YEAR_FIRST, COUNT_ONLY, LINES_OF_CODE, "15800");
  }

  /** Rules are evaluated in order: with a failing rule first, that rule is the failure reported. */
  lemma FailingRuleFirstIsReported(content: string, regexSearch: RegexSearch)
    requires !Contains(content, "项目状态：已完成")
    ensures FirstFailure(content, [Rule(TEXT_MATCH, "项目状态", "项目状态：已完成"), Rule(TEXT_MATCH, "all", "")],
                         regexSearch) == Some(0)
  {
  }

  /** A `text_match` rule looks at the whole document, so its expected text may span a line break. */
  lemma TextMatchSpansLines(regexSearch: RegexSearch)
    ensures RuleMatches("## 汇总统计\n| 指标 | 数值 |", Rule(TEXT_MATCH, "表头", "汇总统计\n| 指标"), regexSearch)
  {
    var content := "## 汇总统计\n| 指标 | 数值 |";
    assert OccursAt(content, "汇总统计\n| 指标", 3);
    ContainsIff(content, "汇总统计\n| 指标");
  }

  /** A rule of a type the evaluator does not know never matches; types are compared exactly, so `"Stat_match"` is unknown too. */
  lemma UnknownRuleTypeFails(content: string, rule: Rule, regexSearch: RegexSearch)
    requires rule.ruleType !in {STAT_MATCH, REGEX_MATCH, TEXT_MATCH}
    ensures !RuleMatches(content, rule, regexSearch)
  {
  }

  /** The settings used by the runs below. */
  const SETTINGS := Settings(Some("token"), Some("org"))

  /** One required heading, no content rules, no commit check. */
  const TITLE_ONLY := Config("project-analysis", TargetFile("document/analysis-report.md", "main"),
                             ["# Title"], [], None)

  /** A run against a file `# Title\nbody` passes after fetching the file once. */
  lemma TitleOnlyDocumentPasses(fetchCommits: CommitsFetcher, regexSearch: RegexSearch, search: MessageSearch)
    ensures var run := Verify(TITLE_ONLY, SETTINGS, _ => Some("# Title\nbody"), fetchCommits, regexSearch, search);
            run.outcome == Passed && |run.calls| == 1
  {
    assert IsPrefix("# Title", "# Title\nbody");
  }

  /** A file the host does not return stops the run before the structure check. */
  lemma AbsentFileFails(regexSearch: RegexSearch, fetchCommits: CommitsFetcher, search: MessageSearch)
    ensures Verify(TITLE_ONLY, SETTINGS, _ => None, fetchCommits, regexSearch, search).outcome == Failed(FileExistence)
  {
  }

  /** An empty file counts as missing. */
  lemma EmptyFileFails(regexSearch: RegexSearch, fetchCommits: CommitsFetcher, search: MessageSearch)
    ensures Verify(TITLE_ONLY, SETTINGS, _ => Some(""), fetchCommits, regexSearch, search).outcome == Failed(FileExistence)
  {
  }

  /** An empty commit block is skipped: the run passes without listing commits. */
  lemma EmptyCommitBlockSkipped(fetchCommits: CommitsFetcher, regexSearch: RegexSearch, search: MessageSearch)
    ensures var config := TITLE_ONLY.(commitVerification := Some(CommitBlock(None, None, false)));
            var run := Verify(config, SETTINGS, _ => Some("# Title\nbody"), fetchCommits, regexSearch, search);
            run.outcome == Passed && |run.calls| == 1
  {
    assert IsPrefix("# Title", "# Title\nbody");
  }

  /** A non-empty commit block without `msg_pattern`, here one holding only a misspelt key, aborts before listing commits. */
  lemma OtherKeysOnlyBlockAborts(fetchCommits: CommitsFetcher, regexSearch: RegexSearch, search: MessageSearch)
    ensures var config := TITLE_ONLY.(commitVerification := Some(CommitBlock(None, None, true)));
            var run := Verify(config, SETTINGS, _ => Some("# Title\nbody"), fetchCommits, regexSearch, search);
            run.outcome == Aborted(MSG_PATTERN_KEY) && |run.calls| == 1
  {
    assert IsPrefix("# Title", "# Title\nbody");
  }
}
