/**
 * The fixed scanner behind a `stat_match` rule: `re.search(r"(\d+(?:\.\d+)?)", line)`,
 * which finds the leftmost numeral of a line, an integer or a decimal, taken greedily.
 */
module Numeral {
  import opened Wrappers
  import opened Text

  /** An ASCII decimal digit. */
  predicate IsDigit(c: char) {
    '0' <= c <= '9'
  }

  predicate AllDigits(s: string) {
    forall i :: 0 <= i < |s| ==> IsDigit(s[i])
  }

  /** `t` is a decimal `digits.digits` whose dot stands at index `k`. */
  predicate DecimalAt(t: string, k: int) {
    0 < k < |t| - 1 && t[k] == '.' && AllDigits(t[..k]) && AllDigits(t[k + 1..])
  }

  /** `t` is a word of the pattern `\d+(?:\.\d+)?`. */
  predicate IsNumeral(t: string) {
    (|t| > 0 && AllDigits(t)) || exists k | 0 < k < |t| - 1 :: DecimalAt(t, k)
  }

  /**
   * `t` is the match a backtracking engine gives the pattern at the start of `s`:
   * a numeral that begins `s`, after which no further digit could be taken, and
   * which, when it has no fraction, is not followed by a dot and a digit.
   */
  predicate IsGreedyMatch(t: string, s: string) {
    && IsPrefix(t, s)
    && IsNumeral(t)
    && !(|t| < |s| && IsDigit(s[|t|]))
    && (AllDigits(t) ==> !(|t| + 1 < |s| && s[|t|] == '.' && IsDigit(s[|t| + 1])))
  }

  /** `p` is the index of the first digit of `line`. */
  predicate FirstDigitAt(line: string, p: int) {
    0 <= p < |line| && IsDigit(line[p]) && forall i :: 0 <= i < p ==> !IsDigit(line[i])
  }

  /** The longest run of digits that begins `s`. */
  function DigitRun(s: string): (run: string)
    ensures IsPrefix(run, s) && AllDigits(run)
    ensures |run| < |s| ==> !IsDigit(s[|run|])
    decreases |s|
  {
    if s != [] && IsDigit(s[0]) then [s[0]] + DigitRun(s[1..]) else []
  }

  /** The longest run of digits is the only run of digits that cannot be extended. */
  lemma {:induction false} DigitRunUnique(d: string, s: string)
    requires IsPrefix(d, s) && AllDigits(d)
    requires |d| < |s| ==> !IsDigit(s[|d|])
    ensures d == DigitRun(s)
    decreases |s|
  {
    if d != [] {
      assert d[0] == s[0] && IsDigit(d[0]);
      assert IsPrefix(d[1..], s[1..]) by { assert s[1..][..|d| - 1] == s[..|d|][1..]; }
      assert AllDigits(d[1..]) by { forall i | 0 <= i < |d| - 1 ensures IsDigit(d[1..][i]) { assert d[1..][i] == d[i + 1]; } }
      assert |d[1..]| < |s[1..]| ==> s[1..][|d[1..]|] == s[|d|];
      DigitRunUnique(d[1..], s[1..]);
      assert [d[0]] + d[1..] == d;
    } else if s != [] {
      assert !IsDigit(s[0]);
    }
  }

  /** The match of the pattern at the start of `s`, which begins with a digit. */
  function TokenAt(s: string): (t: string)
    requires |s| > 0 && IsDigit(s[0])
    ensures IsGreedyMatch(t, s)
  {
    var whole := DigitRun(s);
    var rest := s[|whole|..];
    if |rest| >= 2 && rest[0] == '.' && IsDigit(rest[1]) then
      var fraction := DigitRun(rest[1..]);
      var t := whole + "." + fraction;
      assert DecimalAt(t, |whole|) by {
        assert t[..|whole|] == whole;
        assert t[|whole| + 1..] == fraction;
      }
      assert IsPrefix(t, s) by {
        assert s[..|t|] == s[..|whole|] + s[|whole|..|whole| + 1] + rest[1..][..|fraction|];
      }
      assert |t| < |s| ==> s[|t|] == rest[1..][|fraction|];
      assert !AllDigits(t) by { assert t[|whole|] == '.'; }
      t
    else
      whole
  }

  /** There is only one greedy match at a given place: the one `TokenAt` computes. */
  lemma GreedyMatchUnique(t: string, s: string)
    requires |s| > 0 && IsDigit(s[0])
    requires IsGreedyMatch(t, s)
    ensures t == TokenAt(s)
  {
    if AllDigits(t) && |t| > 0 {
      DigitRunUnique(t, s);
    } else {
      assert IsNumeral(t);
      var k :| 0 < k < |t| - 1 && DecimalAt(t, k);
      GreedyDecimalUnique(t, s, k);
    }
  }

  /** The decimal case of `GreedyMatchUnique`: both digit runs are the longest ones. */
  lemma GreedyDecimalUnique(t: string, s: string, k: int)
    requires |s| > 0 && IsDigit(s[0])
    requires IsGreedyMatch(t, s) && DecimalAt(t, k)
    ensures t == TokenAt(s)
  {
    var whole := DigitRun(s);
    var rest := s[|whole|..];
    assert t[..k] == s[..|t|][..k] == s[..k];
    DigitRunUnique(t[..k], s);
    assert k == |whole|;
    assert rest[0] == '.' && IsDigit(rest[1]) by { assert rest[1] == t[k + 1] == t[k + 1..][0]; }
    var tail := rest[1..];
    assert IsPrefix(t[k + 1..], tail) by { assert tail[..|t| - k - 1] == t[k + 1..]; }
    assert |t| - k - 1 < |tail| ==> tail[|t| - k - 1] == s[|t|];
    DigitRunUnique(t[k + 1..], tail);
    assert t == t[..k + 1] + t[k + 1..];
  }

  /** `re.search(r"(\d+(?:\.\d+)?)", line)`: the group of the leftmost match, if any. */
  function FirstNumber(line: string): Option<string>
    decreases |line|
  {
    if line == [] then None
    else if IsDigit(line[0]) then Some(TokenAt(line))
    else FirstNumber(line[1..])
  }

  /** The search finds nothing exactly when the line has no digit. */
  lemma {:induction false} FirstNumberNone(line: string)
    ensures FirstNumber(line).None? <==> forall i :: 0 <= i < |line| ==> !IsDigit(line[i])
    decreases |line|
  {
    if line != [] && !IsDigit(line[0]) {
      FirstNumberNone(line[1..]);
      assert forall i :: 0 < i < |line| ==> line[i] == line[1..][i - 1];
    }
  }

  /** A number found is the greedy match at the first digit of the line. */
  lemma {:induction false} FirstNumberFound(line: string, t: string)
    requires FirstNumber(line) == Some(t)
    ensures exists p :: FirstDigitAt(line, p) && IsGreedyMatch(t, line[p..])
    decreases |line|
  {
    if IsDigit(line[0]) {
      assert FirstDigitAt(line, 0) && line[0..] == line;
    } else {
      FirstNumberFound(line[1..], t);
      var p :| FirstDigitAt(line[1..], p) && IsGreedyMatch(t, line[1..][p..]);
      assert line[1..][p..] == line[p + 1..];
      assert FirstDigitAt(line, p + 1) by {
        forall i | 0 < i < p + 1 ensures !IsDigit(line[i]) { assert line[i] == line[1..][i - 1]; }
      }
    }
  }

  /** Conversely, the greedy match at the first digit is the number found: no later number is ever taken. */
  lemma {:induction false} FirstNumberLeftmost(line: string, p: int, t: string)
    requires FirstDigitAt(line, p) && IsGreedyMatch(t, line[p..])
    ensures FirstNumber(line) == Some(t)
    decreases |line|
  {
    if p == 0 {
      assert line[0..] == line;
      GreedyMatchUnique(t, line);
    } else {
      assert line[1..][p - 1..] == line[p..];
      assert FirstDigitAt(line[1..], p - 1) by {
        forall i | 0 <= i < p - 1 ensures !IsDigit(line[1..][i]) { assert line[1..][i] == line[i + 1]; }
      }
      FirstNumberLeftmost(line[1..], p - 1, t);
    }
  }
}
