/**
 * The two string operations the verification script relies on: Python's
 * substring test `t in s` and `s.split(sep)` with a one-character separator.
 */
module Text {

  /** `p` is a prefix of `s`. */
  predicate IsPrefix(p: string, s: string) {
    |p| <= |s| && s[..|p|] == p
  }

  /** `t` occurs in `s` starting at index `i`. */
  predicate OccursAt(s: string, t: string, i: int) {
    0 <= i && i + |t| <= |s| && s[i..i + |t|] == t
  }

  /** Python's `t in s` on strings: `t` occurs somewhere in `s`; the empty string occurs in every string. */
  predicate Contains(s: string, t: string)
    decreases |s|
  {
    IsPrefix(t, s) || (|s| > 0 && Contains(s[1..], t))
  }

  /** The scan `Contains` performs finds exactly the positions where `t` occurs. */
  lemma {:induction false} ContainsIff(s: string, t: string)
    ensures Contains(s, t) <==> exists i :: OccursAt(s, t, i)
    decreases |s|
  {
    forall i | OccursAt(s, t, i)
      ensures Contains(s, t)
    {
      if i == 0 {
        assert s[..|t|] == s[0..|t|];
      } else {
        assert s[1..][i - 1..i - 1 + |t|] == s[i..i + |t|];
        assert OccursAt(s[1..], t, i - 1);
        ContainsIff(s[1..], t);
      }
    }
    if Contains(s, t) {
      if IsPrefix(t, s) {
        assert s[0..|t|] == s[..|t|];
        assert OccursAt(s, t, 0);
      } else {
        ContainsIff(s[1..], t);
        var i :| OccursAt(s[1..], t, i);
        assert s[1..][i..i + |t|] == s[i + 1..i + 1 + |t|];
        assert OccursAt(s, t, i + 1);
      }
    }
  }

  /** Every character of a contained string is a character of the string containing it. */
  lemma ContainsCharacters(s: string, t: string, c: char)
    requires Contains(s, t) && c in t
    ensures c in s
  {
    ContainsIff(s, t);
    var i :| OccursAt(s, t, i);
    var j :| 0 <= j < |t| && t[j] == c;
    assert s[i..i + |t|][j] == s[i + j];
  }

  /** Python's `s.split(sep)`: the pieces between occurrences of `sep`, in order; there is always one at least. */
  function Split(s: string, sep: char): (pieces: seq<string>)
    ensures |pieces| >= 1
    decreases |s|
  {
    if s == [] then [[]]
    else
      var rest := Split(s[1..], sep);
      if s[0] == sep then [[]] + rest
      else [[s[0]] + rest[0]] + rest[1..]
  }

  /** No piece of a split holds the separator. */
  lemma {:induction false} SplitPiecesWithoutSeparator(s: string, sep: char)
    ensures forall k :: 0 <= k < |Split(s, sep)| ==> sep !in Split(s, sep)[k]
    decreases |s|
  {
    if s != [] {
      SplitPiecesWithoutSeparator(s[1..], sep);
      var rest := Split(s[1..], sep);
      if s[0] != sep {
        assert sep !in [s[0]] + rest[0];
        var pieces := [[s[0]] + rest[0]] + rest[1..];
        assert forall k :: 1 <= k < |pieces| ==> pieces[k] == rest[k];
      }
    }
  }

  /** Python's `sep.join(pieces)`, the inverse of `Split`. */
  function Join(pieces: seq<string>, sep: char): string
  {
    if |pieces| == 0 then []
    else if |pieces| == 1 then pieces[0]
    else pieces[0] + [sep] + Join(pieces[1..], sep)
  }

  /** Splitting loses nothing: joining the pieces gives the string back. */
  lemma {:induction false} JoinSplit(s: string, sep: char)
    ensures Join(Split(s, sep), sep) == s
    decreases |s|
  {
    if s != [] {
      var rest := Split(s[1..], sep);
      JoinSplit(s[1..], sep);
      if s[0] == sep {
        assert Split(s, sep) == [[]] + rest;
        assert ([[]] + rest)[1..] == rest;
      } else if |rest| == 1 {
        assert Split(s, sep) == [[s[0]] + rest[0]];
      } else {
        var pieces := [[s[0]] + rest[0]] + rest[1..];
        assert pieces[1..] == rest[1..];
        assert Join(rest, sep) == rest[0] + [sep] + Join(rest[1..], sep);
      }
    }
  }

  /** A string without the separator is a single piece. */
  lemma {:induction false} SplitWithoutSeparator(s: string, sep: char)
    requires sep !in s
    ensures Split(s, sep) == [s]
    decreases |s|
  {
    if s != [] {
      assert sep !in s[1..];
      SplitWithoutSeparator(s[1..], sep);
      assert [s[0]] + s[1..] == s;
    }
  }

  /** A first line without the separator comes off as the first piece; the rest is split on its own. */
  lemma {:induction false} SplitLine(line: string, rest: string, sep: char)
    requires sep !in line
    ensures Split(line + [sep] + rest, sep) == [line] + Split(rest, sep)
    decreases |line|
  {
    var s := line + [sep] + rest;
    if line == [] {
      assert s[0] == sep && s[1..] == rest;
    } else {
      assert s[0] == line[0] && s[1..] == line[1..] + [sep] + rest;
      assert sep !in line[1..];
      SplitLine(line[1..], rest, sep);
      assert [line[0]] + line[1..] == line;
    }
  }

  /** The converse round trip: pieces without the separator come back from splitting their join. */
  lemma {:induction false} SplitJoin(pieces: seq<string>, sep: char)
    requires |pieces| >= 1
    requires forall k :: 0 <= k < |pieces| ==> sep !in pieces[k]
    ensures Split(Join(pieces, sep), sep) == pieces
    decreases |pieces|
  {
    SplitWithoutSeparator(pieces[0], sep);
    if |pieces| > 1 {
      SplitJoin(pieces[1..], sep);
      SplitLine(pieces[0], Join(pieces[1..], sep), sep);
      assert [pieces[0]] + pieces[1..] == pieces;
    }
  }
}
