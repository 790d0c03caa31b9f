/**
 * The text checks run on the fetched document: the required-structure check
 * (`verify_file_structure`) and the content-rule evaluator (`verify_content_accuracy`).
 */
module Rules {
  import opened Wrappers
  import opened Text
  import opened Numeral

  /** The line separator `verify_content_accuracy` splits the document on. */
  const NEWLINE: char := '\n'

  const STAT_MATCH := "stat_match"
  const REGEX_MATCH := "regex_match"
  const TEXT_MATCH := "text_match"

  /** One entry of `content_rules`: its `type`, `target` and `expected` values. */
  datatype Rule = Rule(ruleType: string, target: string, expected: string)

  /** A regular-expression search `re.search(pattern, text)`, standing for Python's engine. */
  type RegexSearch = (string, string) -> bool

  // ---------------------------------------------------------------------------
  // Structure check

  /** The required entries that do not occur in `content`, in configured order, duplicates kept. */
  function Missing(content: string, required: seq<string>): seq<string>
    decreases |required|
  {
    if required == [] then []
    else (if Contains(content, required[0]) then [] else [required[0]]) + Missing(content, required[1..])
  }

  /** The missing list of a concatenation is the concatenation of the missing lists. */
  lemma {:induction false} MissingAppend(content: string, a: seq<string>, b: seq<string>)
    ensures Missing(content, a + b) == Missing(content, a) + Missing(content, b)
    decreases |a|
  {
    if a == [] {
      assert a + b == b;
    } else {
      assert (a + b)[0] == a[0];
      assert (a + b)[1..] == a[1..] + b;
      MissingAppend(content, a[1..], b);
      var head := if Contains(content, a[0]) then [] else [a[0]];
      assert Missing(content, a + b) == head + Missing(content, a[1..] + b);
      assert Missing(content, a) == head + Missing(content, a[1..]);
    }
  }

  /** Nothing is missing exactly when every required entry occurs; an empty list always passes. */
  lemma {:induction false} MissingEmptyIff(content: string, required: seq<string>)
    ensures Missing(content, required) == [] <==> forall s :: s in required ==> Contains(content, s)
    decreases |required|
  {
    if required != [] {
      MissingEmptyIff(content, required[1..]);
      var head := if Contains(content, required[0]) then [] else [required[0]];
      assert Missing(content, required) == head + Missing(content, required[1..]);
      assert Missing(content, required) == [] <==> head == [] && Missing(content, required[1..]) == [];
      if forall s :: s in required ==> Contains(content, s) {
        assert required[0] in required;
        assert forall s :: s in required[1..] ==> s in required;
      }
      if Missing(content, required) == [] {
        forall s | s in required ensures Contains(content, s) {
          if s != required[0] {
            assert s in required[1..];
          }
        }
      }
    }
  }

  /** Each required entry is reported once per configured copy when absent, and never when present. */
  lemma {:induction false} MissingCounts(content: string, required: seq<string>, s: string)
    ensures multiset(Missing(content, required))[s] ==
            if Contains(content, s) then 0 else multiset(required)[s]
    decreases |required|
  {
    if required != [] {
      MissingCounts(content, required[1..], s);
      assert required == [required[0]] + required[1..];
      assert multiset(required) == multiset([required[0]]) + multiset(required[1..]);
    }
  }

  /** All absent entries are reported, and only those. */
  lemma MissingMembers(content: string, required: seq<string>, s: string)
    ensures s in Missing(content, required) <==> s in required && !Contains(content, s)
  {
    MissingCounts(content, required, s);
    assert s in Missing(content, required) <==> multiset(Missing(content, required))[s] > 0;
    assert s in required <==> multiset(required)[s] > 0;
  }

  /** `verify_file_structure`: collect the absent entries; pass when there are none. */
  method VerifyFileStructure(content: string, required: seq<string>) returns (ok: bool, missing: seq<string>)
    ensures missing == Missing(content, required)
    ensures ok <==> forall s :: s in required ==> Contains(content, s)
  {
    missing := [];
    for i := 0 to |required|
      invariant missing == Missing(content, required[..i])
    {
      assert required[..i + 1] == required[..i] + [required[i]];
      MissingAppend(content, required[..i], [required[i]]);
      assert Missing(content, [required[i]]) == if Contains(content, required[i]) then [] else [required[i]];
      if !Contains(content, required[i]) {
        missing := missing + [required[i]];
      }
    }
    assert required[..|required|] == required;
    MissingEmptyIff(content, required);
    ok := missing == [];
  }

  // ---------------------------------------------------------------------------
  // Content rules

  /** A line satisfies a `stat_match` rule: it contains the target and its first numeral is the expected text. */
  predicate LineSatisfies(line: string, target: string, expected: string) {
    Contains(line, target) && FirstNumber(line) == Some(expected)
  }

  /** Some line of `lines` satisfies the rule. */
  predicate AnyLineSatisfies(lines: seq<string>, target: string, expected: string) {
    exists k | 0 <= k < |lines| :: LineSatisfies(lines[k], target, expected)
  }

  /** A `stat_match` rule holds when some line of `content.split("\n")` satisfies it. */
  predicate StatMatches(content: string, target: string, expected: string) {
    AnyLineSatisfies(Split(content, NEWLINE), target, expected)
  }

  /** Whether one rule sets `matched`; a rule of any other type never does. */
  predicate RuleMatches(content: string, rule: Rule, regexSearch: RegexSearch) {
    if rule.ruleType == STAT_MATCH then StatMatches(content, rule.target, rule.expected)
    else if rule.ruleType == REGEX_MATCH then regexSearch(rule.expected, content)
    else if rule.ruleType == TEXT_MATCH then Contains(content, rule.expected)
    else false
  }

  /** The index of the first item that `passes` rejects, if any: a scan in order that stops at the first rejection. */
  function FirstRejected<T>(items: seq<T>, passes: T -> bool): (r: Option<nat>)
    ensures r.Some? ==> r.value < |items|
    decreases |items|
  {
    if items == [] then None
    else if !passes(items[0]) then Some(0)
    else
      match FirstRejected(items[1..], passes)
      case None => None
      case Some(i) => Some(i + 1)
  }

  /** Nothing is rejected exactly when every item passes; an empty list passes. */
  lemma {:induction false} FirstRejectedNone<T>(items: seq<T>, passes: T -> bool)
    ensures FirstRejected(items, passes).None? <==> forall j :: 0 <= j < |items| ==> passes(items[j])
    decreases |items|
  {
    if items != [] {
      var tail := items[1..];
      FirstRejectedNone(tail, passes);
      if forall j :: 0 <= j < |items| ==> passes(items[j]) {
        forall j | 0 <= j < |tail| ensures passes(tail[j]) {
          assert tail[j] == items[j + 1];
        }
      }
      if FirstRejected(items, passes).None? {
        forall j | 0 <= j < |items| ensures passes(items[j]) {
          if j > 0 {
            assert items[j] == tail[j - 1];
          }
        }
      }
    }
  }

  /** The item reported is rejected, and every item before it passes. */
  lemma {:induction false} FirstRejectedFound<T>(items: seq<T>, passes: T -> bool)
    requires FirstRejected(items, passes).Some?
    ensures var i := FirstRejected(items, passes).value;
            !passes(items[i]) && forall j :: 0 <= j < i ==> passes(items[j])
    decreases |items|
  {
    var i := FirstRejected(items, passes).value;
    if i > 0 {
      var tail := items[1..];
      FirstRejectedFound(tail, passes);
      assert FirstRejected(tail, passes) == Some(i - 1);
      assert items[i] == tail[i - 1];
      forall j | 0 <= j < i ensures passes(items[j]) {
        if j > 0 {
          assert items[j] == tail[j - 1];
        }
      }
    }
  }

  /** Conversely, a rejected item after items that all pass is the one reported. */
  lemma {:induction false} FirstRejectedAt<T>(items: seq<T>, passes: T -> bool, i: nat)
    requires i < |items| && !passes(items[i])
    requires forall j :: 0 <= j < i ==> passes(items[j])
    ensures FirstRejected(items, passes) == Some(i)
    decreases i
  {
    if i > 0 {
      var tail := items[1..];
      assert passes(items[0]);
      assert tail[i - 1] == items[i];
      forall j | 0 <= j < i - 1 ensures passes(tail[j]) {
        assert tail[j] == items[j + 1];
      }
      FirstRejectedAt(tail, passes, i - 1);
    }
  }

  /** Once a prefix has a rejected item, the items after the prefix are never consulted. */
  lemma FirstRejectedStops<T>(a: seq<T>, b: seq<T>, passes: T -> bool)
    requires FirstRejected(a, passes).Some?
    ensures FirstRejected(a + b, passes) == FirstRejected(a, passes)
  {
    var i := FirstRejected(a, passes).value;
    FirstRejectedFound(a, passes);
    forall j | 0 <= j < i ensures passes((a + b)[j]) {
      assert (a + b)[j] == a[j];
    }
    assert (a + b)[i] == a[i];
    FirstRejectedAt(a + b, passes, i);
  }

  /** When a prefix passes, the result is that of the remaining items, its index shifted past the prefix. */
  lemma FirstRejectedContinues<T>(a: seq<T>, b: seq<T>, passes: T -> bool)
    requires FirstRejected(a, passes).None?
    ensures FirstRejected(a + b, passes) ==
            if FirstRejected(b, passes).Some? then Some(|a| + FirstRejected(b, passes).value) else None
  {
    var ab := a + b;
    FirstRejectedNone(a, passes);
    FirstRejectedNone(b, passes);
    forall j | 0 <= j < |a| ensures ab[j] == a[j] { }
    forall j | 0 <= j < |b| ensures ab[|a| + j] == b[j] { }
    if FirstRejected(b, passes).Some? {
      var i := FirstRejected(b, passes).value;
      FirstRejectedFound(b, passes);
      forall j | 0 <= j < |a| + i ensures passes(ab[j]) {
        if j >= |a| {
          assert ab[j] == b[j - |a|];
        }
      }
      assert ab[|a| + i] == b[i];
      FirstRejectedAt(ab, passes, |a| + i);
    } else {
      forall j | 0 <= j < |ab| ensures passes(ab[j]) {
        if j >= |a| {
          assert ab[j] == b[j - |a|];
        }
      }
      FirstRejectedNone(ab, passes);
    }
  }

  /** `RuleMatches` on one document, as a predicate on rules. */
  function Matcher(content: string, regexSearch: RegexSearch): Rule -> bool {
    rule => RuleMatches(content, rule, regexSearch)
  }

  /** The index of the first rule that does not match the document, if any. */
  function FirstFailure(content: string, rules: seq<Rule>, regexSearch: RegexSearch): Option<nat> {
    FirstRejected(rules, Matcher(content, regexSearch))
  }

  /** `verify_content_accuracy`: rules in order, stopping at the first one that does not match. */
  method VerifyContentAccuracy(content: string, rules: seq<Rule>, regexSearch: RegexSearch)
    returns (ok: bool, failed: Option<nat>)
    ensures failed == FirstFailure(content, rules, regexSearch)
    ensures ok <==> failed.None?
  {
    if |rules| == 0 {
      FirstRejectedNone(rules, Matcher(content, regexSearch));
      return true, None;
    }
    var lines := Split(content, NEWLINE);
    for i := 0 to |rules|
      invariant forall j :: 0 <= j < i ==> RuleMatches(content, rules[j], regexSearch)
    {
      var rule := rules[i];
      var matched := false;
      if rule.ruleType == STAT_MATCH {
        var k := 0;
        while k < |lines|
          invariant 0 <= k <= |lines|
          invariant forall m :: 0 <= m < k ==> !LineSatisfies(lines[m], rule.target, rule.expected)
        {
          var line := lines[k];
          if Contains(line, rule.target) {
            var number := FirstNumber(line);
            if number.Some? && number.value == rule.expected {
              matched := true;
              break;
            }
          }
          k := k + 1;
        }
      } else if rule.ruleType == REGEX_MATCH {
        if regexSearch(rule.expected, content) {
          matched := true;
        }
      } else if rule.ruleType == TEXT_MATCH {
        if Contains(content, rule.expected) {
          matched := true;
        }
      }
      assert matched <==> RuleMatches(content, rule, regexSearch);
      if !matched {
        FirstRejectedAt(rules, Matcher(content, regexSearch), i);
        return false, Some(i);
      }
    }
    FirstRejectedNone(rules, Matcher(content, regexSearch));
    ok, failed := true, None;
  }

  // ---------------------------------------------------------------------------
  // Properties of the rule semantics

  /** The scan goes on past a line that does not satisfy the rule: the rest of the document decides. */
  lemma StatMatchesLine(line: string, rest: string, target: string, expected: string)
    requires NEWLINE !in line
    ensures StatMatches(line + [NEWLINE] + rest, target, expected) <==>
            LineSatisfies(line, target, expected) || StatMatches(rest, target, expected)
  {
    SplitLine(line, rest, NEWLINE);
    AnyLineAppend([line], Split(rest, NEWLINE), target, expected);
    assert AnyLineSatisfies([line], target, expected) <==> LineSatisfies([line][0], target, expected);
  }

  /** A document given as its lines satisfies the rule exactly when one of those lines does. */
  lemma StatMatchesOfLines(lines: seq<string>, target: string, expected: string)
    requires |lines| >= 1
    requires forall k :: 0 <= k < |lines| ==> NEWLINE !in lines[k]
    ensures StatMatches(Join(lines, NEWLINE), target, expected) <==> AnyLineSatisfies(lines, target, expected)
  {
    SplitJoin(lines, NEWLINE);
  }

  lemma AnyLineAppend(la: seq<string>, lb: seq<string>, target: string, expected: string)
    ensures AnyLineSatisfies(la + lb, target, expected) <==>
            AnyLineSatisfies(la, target, expected) || AnyLineSatisfies(lb, target, expected)
  {
    var lines := la + lb;
    if AnyLineSatisfies(lines, target, expected) {
      var k :| 0 <= k < |lines| && LineSatisfies(lines[k], target, expected);
      if k < |la| {
        assert lines[k] == la[k];
      } else {
        assert lines[k] == lb[k - |la|];
      }
    }
    if AnyLineSatisfies(la, target, expected) {
      var k :| 0 <= k < |la| && LineSatisfies(la[k], target, expected);
      assert lines[k] == la[k];
    }
    if AnyLineSatisfies(lb, target, expected) {
      var k :| 0 <= k < |lb| && LineSatisfies(lb[k], target, expected);
      assert lines[|la| + k] == lb[k];
    }
  }

  /** A line whose first numeral differs from `expected` satisfies nothing, whatever numerals follow it. */
  lemma OnlyFirstNumeralCounts(line: string, p: int, t: string, target: string, expected: string)
    requires FirstDigitAt(line, p) && IsGreedyMatch(t, line[p..])
    requires t != expected
    ensures !LineSatisfies(line, target, expected)
  {
    FirstNumberLeftmost(line, p, t);
  }

  /** Lines never hold the separator, so a `stat_match` target with a line break matches nothing. */
  lemma StatTargetWithNewline(content: string, target: string, expected: string)
    requires NEWLINE in target
    ensures !StatMatches(content, target, expected)
  {
    var lines := Split(content, NEWLINE);
    SplitPiecesWithoutSeparator(content, NEWLINE);
    forall k | 0 <= k < |lines|
      ensures !LineSatisfies(lines[k], target, expected)
    {
      if Contains(lines[k], target) {
        ContainsCharacters(lines[k], target, NEWLINE);
      }
    }
  }
}
