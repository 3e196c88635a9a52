/**
 * The Python `str` operations that the explainer pipeline relies on:
 * `isspace`/`strip`, `split(sep)`, `sep.join(parts)`, `replace(pat, repl)`
 * and `splitlines()`.  Strings are sequences of Unicode code points.
 */
module Strings {

  /** CPython's `str.isspace` character set: Unicode White_Space plus U+001C to U+001F. */
  predicate IsSpace(c: char)
  {
    || ('\t' <= c <= '\r')                     // \t \n \v \f \r
    || ('\U{001C}' <= c <= '\U{001F}')
    || c == ' ' || c == '\U{0085}' || c == '\U{00A0}' || c == '\U{1680}'
    || ('\U{2000}' <= c <= '\U{200A}')
    || c == '\U{2028}' || c == '\U{2029}' || c == '\U{202F}' || c == '\U{205F}' || c == '\U{3000}'
  }

  /** The line boundaries of Python's `str.splitlines` ("\r\n" counts as one boundary). */
  predicate IsLineBreak(c: char)
  {
    || c == '\n' || c == '\r' || c == '\U{000B}' || c == '\U{000C}'
    || c == '\U{001C}' || c == '\U{001D}' || c == '\U{001E}'
    || c == '\U{0085}' || c == '\U{2028}' || c == '\U{2029}'
  }

  predicate AllSpace(s: string)
  {
    forall k :: 0 <= k < |s| ==> IsSpace(s[k])
  }

  predicate NoLineBreak(s: string)
  {
    forall k :: 0 <= k < |s| ==> !IsLineBreak(s[k])
  }

  /** `p` occurs somewhere in `s` (Python's `p in s`). */
  predicate Contains(s: string, p: string)
    decreases |s|
  {
    p <= s || (s != [] && Contains(s[1..], p))
  }

  // ---------------------------------------------------------------- strip

  /** Number of whitespace characters at the start of `s`. */
  function LeadingSpace(s: string): (n: nat)
    ensures n <= |s| && AllSpace(s[..n])
    ensures n < |s| ==> !IsSpace(s[n])
  {
    if s == [] || !IsSpace(s[0]) then 0
    else
      var n' := LeadingSpace(s[1..]);
      assert forall k :: 1 <= k < 1 + n' ==> s[k] == s[1..][..n'][k - 1];
      1 + n'
  }

  /** Number of whitespace characters at the end of `s`. */
  function TrailingSpace(s: string): (n: nat)
    ensures n <= |s| && AllSpace(s[|s| - n..])
    ensures n < |s| ==> !IsSpace(s[|s| - 1 - n])
  {
    if s == [] || !IsSpace(s[|s| - 1]) then 0
    else
      var n' := TrailingSpace(s[..|s| - 1]);
      assert forall k :: |s| - 1 - n' <= k < |s| - 1 ==>
        s[k] == s[..|s| - 1][|s| - 1 - n'..][k - (|s| - 1 - n')];
      1 + n'
  }

  /**
   * Python's `s.strip()`: the slice of `s` left after removing leading and
   * trailing whitespace.
   */
  function Strip(s: string): (r: string)
    ensures |r| <= |s|
    ensures r != [] ==> !IsSpace(r[0]) && !IsSpace(r[|r| - 1])
    ensures r == [] <==> AllSpace(s)
    ensures LeadingSpace(s) + |r| <= |s|
    ensures r == s[LeadingSpace(s)..LeadingSpace(s) + |r|]
    ensures AllSpace(s[LeadingSpace(s) + |r|..])
    ensures s == [] || (!IsSpace(s[0]) && !IsSpace(s[|s| - 1])) ==> r == s
  {
    var lead := LeadingSpace(s);
    if lead == |s| then
      assert s[..lead] == s;
      assert s[lead..] == [];
      []
    else
      var trail := TrailingSpace(s);
      forall k | |s| - trail <= k < |s| ensures IsSpace(s[k]) {
        assert s[k] == s[|s| - trail..][k - (|s| - trail)];
      }
      s[lead..|s| - trail]
  }

  // ------------------------------------------------------- split and join

  /**
   * Python's `s.split(sep)` for a non-empty separator: the pieces between
   * the occurrences of `sep`, found left to right without overlap.
   */
  function Split(s: string, sep: string): (parts: seq<string>)
    requires |sep| > 0
    ensures |parts| >= 1
    decreases |s|
  {
    if sep <= s then [[]] + Split(s[|sep|..], sep)
    else if s == [] then [[]]
    else
      var rest := Split(s[1..], sep);
      [[s[0]] + rest[0]] + rest[1..]
  }

  /** Python's `sep.join(parts)`. */
  function Join(sep: string, parts: seq<string>): (r: string)
    decreases |parts|
  {
    if parts == [] then []
    else if |parts| == 1 then parts[0]
    else parts[0] + sep + Join(sep, parts[1..])
  }

  lemma {:induction false} JoinCons(sep: string, p: string, parts: seq<string>)
    requires parts != []
    ensures Join(sep, [p] + parts) == p + sep + Join(sep, parts)
  {
    assert ([p] + parts)[1..] == parts;
  }

  /** Joining two non-empty lists puts exactly one separator between them. */
  lemma {:induction false} JoinAppend(sep: string, a: seq<string>, b: seq<string>)
    requires a != [] && b != []
    ensures Join(sep, a + b) == Join(sep, a) + sep + Join(sep, b)
    decreases |a|
  {
    if |a| == 1 {
      assert a + b == [a[0]] + b;
      JoinCons(sep, a[0], b);
    } else {
      assert a + b == [a[0]] + (a[1..] + b);
      JoinCons(sep, a[0], a[1..] + b);
      JoinAppend(sep, a[1..], b);
      JoinCons(sep, a[0], a[1..]);
    }
  }

  lemma Reattach(s: string, i: nat)
    requires i <= |s|
    ensures s[..i] + s[i..] == s
  {
  }

  /** `sep.join(s.split(sep)) == s`: splitting loses nothing. */
  lemma {:induction false} JoinSplit(s: string, sep: string)
    requires |sep| > 0
    ensures Join(sep, Split(s, sep)) == s
    decreases |s|
  {
    if sep <= s {
      var tail := s[|sep|..];
      JoinSplit(tail, sep);
      assert Split(s, sep) == [[]] + Split(tail, sep);
      JoinCons(sep, [], Split(tail, sep));
      Reattach(s, |sep|);
    } else if s != [] {
      assert Split(s, sep) == [[s[0]] + Split(s[1..], sep)[0]] + Split(s[1..], sep)[1..];
      JoinSplit(s[1..], sep);
      JoinPrepend(s[0], sep, Split(s[1..], sep));
      Reattach(s, 1);
    }
  }

  /** The first piece of `s.split(sep)` is a prefix of `s`. */
  lemma {:induction false} FirstPieceIsPrefix(s: string, sep: string)
    requires |sep| > 0
    ensures Split(s, sep)[0] <= s
    decreases |s|
  {
    if !(sep <= s) && s != [] {
      var rest := Split(s[1..], sep);
      FirstPieceIsPrefix(s[1..], sep);
      assert Split(s, sep)[0] == [s[0]] + rest[0];
      assert rest[0] == s[1..][..|rest[0]|];
      assert s[..1 + |rest[0]|] == [s[0]] + s[1..][..|rest[0]|];
    }
  }

  /**
   * `s.split(sep)` cuts at the leftmost occurrence: no occurrence starts
   * inside the first piece.
   */
  lemma {:induction false} SplitCutsAtLeftmost(s: string, sep: string)
    requires |sep| > 0
    ensures |Split(s, sep)[0]| <= |s|
    ensures forall i :: 0 <= i < |Split(s, sep)[0]| ==> !(sep <= s[i..])
    decreases |s|
  {
    FirstPieceIsPrefix(s, sep);
    if !(sep <= s) && s != [] {
      var first := Split(s, sep)[0];
      var rest := Split(s[1..], sep);
      SplitCutsAtLeftmost(s[1..], sep);
      assert first == [s[0]] + rest[0];
      forall i | 0 <= i < |first| ensures !(sep <= s[i..]) {
        if i > 0 {
          assert s[i..] == s[1..][i - 1..];
        } else {
          assert s[i..] == s;
        }
      }
    }
  }

  /**
   * When there is a second piece, an occurrence of `sep` starts right after
   * the first piece, and the later pieces are the split of what follows it.
   */
  lemma {:induction false} SplitContinuesAfterCut(s: string, sep: string)
    requires |sep| > 0 && |Split(s, sep)| > 1
    ensures |Split(s, sep)[0]| + |sep| <= |s|
    ensures sep <= s[|Split(s, sep)[0]|..]
    ensures Split(s, sep)[1..] == Split(s[|Split(s, sep)[0]| + |sep|..], sep)
    decreases |s|
  {
    if !(sep <= s) {
      var rest := Split(s[1..], sep);
      SplitContinuesAfterCut(s[1..], sep);
      var n := |rest[0]|;
      assert |Split(s, sep)[0]| == 1 + n;
      assert s[1 + n..] == s[1..][n..];
      assert s[1 + n + |sep|..] == s[1..][n + |sep|..];
    }
  }

  /** No piece of `s.split(sep)` contains the separator. */
  lemma {:induction false} SplitPiecesAvoidSeparator(s: string, sep: string)
    requires |sep| > 0
    ensures forall k :: 0 <= k < |Split(s, sep)| ==> !Contains(Split(s, sep)[k], sep)
    decreases |s|
  {
    var parts := Split(s, sep);
    if sep <= s {
      var tail := Split(s[|sep|..], sep);
      SplitPiecesAvoidSeparator(s[|sep|..], sep);
      assert parts == [[]] + tail;
      assert forall k :: 1 <= k < |parts| ==> parts[k] == tail[k - 1];
    } else if s != [] {
      var rest := Split(s[1..], sep);
      SplitPiecesAvoidSeparator(s[1..], sep);
      assert parts == [[s[0]] + rest[0]] + rest[1..];
      assert forall k :: 1 <= k < |parts| ==> parts[k] == rest[k];
      var first := [s[0]] + rest[0];
      FirstPieceIsPrefix(s, sep);
      assert |sep| <= |first| ==> first[..|sep|] == s[..|sep|];
      assert first[1..] == rest[0];
    }
  }

  // -------------------------------------------------------------- replace

  /**
   * Python's `s.replace(pat, repl)` for a non-empty `pat`: occurrences are
   * found left to right and do not overlap.
   */
  function Replace(s: string, pat: string, repl: string): (r: string)
    requires |pat| > 0
    ensures |repl| <= |pat| ==> |r| <= |s|
    decreases |s|
  {
    if pat <= s then repl + Replace(s[|pat|..], pat, repl)
    else if s == [] then []
    else [s[0]] + Replace(s[1..], pat, repl)
  }

  /** `s.replace(pat, repl) == repl.join(s.split(pat))`, the defining identity in Python. */
  lemma {:induction false} ReplaceIsJoinOfSplit(s: string, pat: string, repl: string)
    requires |pat| > 0
    ensures Replace(s, pat, repl) == Join(repl, Split(s, pat))
    decreases |s|
  {
    if pat <= s {
      var tail := s[|pat|..];
      ReplaceIsJoinOfSplit(tail, pat, repl);
      assert Split(s, pat) == [[]] + Split(tail, pat);
      JoinCons(repl, [], Split(tail, pat));
    } else if s != [] {
      ReplaceIsJoinOfSplit(s[1..], pat, repl);
      JoinPrepend(s[0], repl, Split(s[1..], pat));
    }
  }

  /** Prepending a character to the first part prepends it to the joined text. */
  lemma JoinPrepend(c: char, sep: string, parts: seq<string>)
    requires parts != []
    ensures Join(sep, [[c] + parts[0]] + parts[1..]) == [c] + Join(sep, parts)
  {
    if |parts| > 1 {
      JoinCons(sep, [c] + parts[0], parts[1..]);
      assert [parts[0]] + parts[1..] == parts;
      JoinCons(sep, parts[0], parts[1..]);
    }
  }

  /** A string in which `pat` does not occur is returned unchanged. */
  lemma {:induction false} ReplaceAbsent(s: string, pat: string, repl: string)
    requires |pat| > 0 && !Contains(s, pat)
    ensures Replace(s, pat, repl) == s
    decreases |s|
  {
    if s != [] {
      ReplaceAbsent(s[1..], pat, repl);
    }
  }

  /** A string shorter than a non-empty `p` cannot contain it. */
  lemma {:induction false} ShortAvoids(s: string, p: string)
    requires |s| < |p|
    ensures !Contains(s, p)
    decreases |s|
  {
    if s != [] {
      ShortAvoids(s[1..], p);
    }
  }

  /** A suffix of a string without `p` has no `p` either. */
  lemma {:induction false} DropAvoids(s: string, i: nat, p: string)
    requires i <= |s| && !Contains(s, p)
    ensures !Contains(s[i..], p)
    decreases i
  {
    if i > 0 {
      DropAvoids(s[1..], i - 1, p);
      assert s[1..][i - 1..] == s[i..];
    }
  }

  /** A prefix of a string without `p` has no `p` either. */
  lemma {:induction false} TakeAvoids(s: string, j: nat, p: string)
    requires j <= |s| && !Contains(s, p)
    ensures !Contains(s[..j], p)
    decreases |s|
  {
    assert p <= s[..j] ==> p <= s;
    if j > 0 {
      TakeAvoids(s[1..], j - 1, p);
      assert s[..j][1..] == s[1..][..j - 1];
    }
  }

  /** A slice of a string without `p` has no `p` either. */
  lemma InfixAvoids(s: string, i: nat, j: nat, p: string)
    requires i <= j <= |s| && !Contains(s, p)
    ensures !Contains(s[i..j], p)
  {
    TakeAvoids(s, j, p);
    DropAvoids(s[..j], i, p);
    assert s[..j][i..] == s[i..j];
  }

  // ----------------------------------------------------------- splitlines

  /** Index of the first line boundary in `s`, or `|s|` when there is none. */
  function FirstBreak(s: string): (i: nat)
    ensures i <= |s| && NoLineBreak(s[..i])
    ensures i < |s| ==> IsLineBreak(s[i])
  {
    if s == [] || IsLineBreak(s[0]) then 0
    else
      var i' := FirstBreak(s[1..]);
      assert forall k :: 1 <= k < 1 + i' ==> s[k] == s[1..][..i'][k - 1];
      1 + i'
  }

  /**
   * Python's `s.splitlines()`: the lines of `s` without their boundaries;
   * a final boundary does not start an extra empty line.
   */
  function SplitLines(s: string): (lines: seq<string>)
    ensures forall k :: 0 <= k < |lines| ==> NoLineBreak(lines[k])
    ensures lines == [] <==> s == []
    decreases |s|
  {
    if s == [] then []
    else
      var i := FirstBreak(s);
      if i == |s| then [s]
      else
        [s[..i]] + SplitLines(s[BreakEnd(s, i)..])
  }

  /** Where the boundary starting at `i` ends: "\r\n" is one boundary of two characters. */
  function BreakEnd(s: string, i: nat): (j: nat)
    requires i < |s|
    ensures i < j <= |s|
    ensures j == i + 1 <==> !(s[i] == '\r' && i + 1 < |s| && s[i + 1] == '\n')
  {
    if s[i] == '\r' && i + 1 < |s| && s[i + 1] == '\n' then i + 2 else i + 1
  }

  /** A first boundary that is a lone "\n" ends the first line; the rest follows it. */
  lemma SplitLinesAtNewline(s: string)
    requires FirstBreak(s) < |s| && s[FirstBreak(s)] == '\n'
    ensures SplitLines(s) == [s[..FirstBreak(s)]] + SplitLines(s[FirstBreak(s) + 1..])
  {
    assert BreakEnd(s, FirstBreak(s)) == FirstBreak(s) + 1;
  }

  /** `s` uses no line boundary other than "\n". */
  predicate OnlyNewlineBreaks(s: string)
  {
    forall k :: 0 <= k < |s| ==> s[k] == '\n' || !IsLineBreak(s[k])
  }

  lemma OnlyNewlineBreaksSuffix(s: string, j: nat)
    requires j <= |s| && OnlyNewlineBreaks(s)
    ensures OnlyNewlineBreaks(s[j..])
  {
    forall k | 0 <= k < |s| - j ensures s[j..][k] == '\n' || !IsLineBreak(s[j..][k]) {
      assert s[j..][k] == s[j + k];
    }
  }

  lemma Reassemble(s: string, i: nat)
    requires i < |s| && s[i] == '\n'
    ensures s[..i] + "\n" + s[i + 1..] == s
  {
  }

  /**
   * Re-joining the lines with "\n" gives `s` back exactly when `s` uses no
   * boundary but "\n" and does not end with one.
   */
  lemma {:induction false} JoinSplitLines(s: string)
    requires OnlyNewlineBreaks(s)
    requires s == [] || s[|s| - 1] != '\n'
    ensures Join("\n", SplitLines(s)) == s
    decreases |s|
  {
    if s != [] {
      var i := FirstBreak(s);
      if i < |s| {
        var rest := s[i + 1..];
        SplitLinesAtNewline(s);
        OnlyNewlineBreaksSuffix(s, i + 1);
        assert rest != [] && rest[|rest| - 1] == s[|s| - 1];
        JoinSplitLines(rest);
        JoinCons("\n", s[..i], SplitLines(rest));
        Reassemble(s, i);
      }
    }
  }

  /** One line boundary of `str.splitlines`: "\r\n" or a single boundary character. */
  predicate IsBoundary(b: string)
  {
    b == "\r\n" || (|b| == 1 && IsLineBreak(b[0]))
  }

  /**
   * The boundary that ends each line of `SplitLines(s)`, as `splitlines(True)`
   * would keep it; only the last line can end without one.
   */
  function LineEnds(s: string): (ends: seq<string>)
    ensures |ends| == |SplitLines(s)|
    ensures forall k :: 0 <= k < |ends| ==> IsBoundary(ends[k]) || (ends[k] == [] && k == |ends| - 1)
    decreases |s|
  {
    if s == [] then []
    else
      var i := FirstBreak(s);
      if i == |s| then [[]]
      else
        [s[i..BreakEnd(s, i)]] + LineEnds(s[BreakEnd(s, i)..])
  }

  /** Each line followed by its own boundary, all glued together. */
  function Interleave(lines: seq<string>, ends: seq<string>): string
    requires |lines| == |ends|
  {
    if lines == [] then [] else lines[0] + ends[0] + Interleave(lines[1..], ends[1..])
  }

  lemma Reglue(s: string, i: nat, j: nat)
    requires i <= j <= |s|
    ensures s[..i] + s[i..j] + s[j..] == s
  {
  }

  /** The lines, each followed by the boundary that ended it, re-concatenate to `s`. */
  lemma {:induction false} SplitLinesKeepEnds(s: string)
    ensures Interleave(SplitLines(s), LineEnds(s)) == s
    decreases |s|
  {
    if s != [] {
      var i := FirstBreak(s);
      if i < |s| {
        var j := BreakEnd(s, i);
        var rest := s[j..];
        SplitLinesKeepEnds(rest);
        assert SplitLines(s) == [s[..i]] + SplitLines(rest);
        assert LineEnds(s) == [s[i..j]] + LineEnds(rest);
        Reglue(s, i, j);
      }
    }
  }
}
