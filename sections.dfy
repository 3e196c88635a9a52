/**
 * `starts_with_same_section`: the first two lines of each stripped text
 * are compared position by position, and one equal position suffices.
 */
module Sections {
  import opened Strings

  /** `text.strip().split('\n')`. */
  function Lines(text: string): (lines: seq<string>)
    ensures |lines| >= 1
  {
    Split(Strip(text), "\n")
  }

  /** `text.strip().split('\n')[0:2]`. */
  function Head(text: string): (head: seq<string>)
    ensures 1 <= |head| <= 2
    ensures |head| <= |Lines(text)| && head == Lines(text)[..|head|]
    ensures |head| == 2 <==> |Lines(text)| >= 2
  {
    var lines := Lines(text);
    if |lines| < 2 then lines else lines[..2]
  }

  /** `any(x == y for x, y in zip(xs, ys))`. */
  function AnyPairEqual(xs: seq<string>, ys: seq<string>): (b: bool)
    ensures b <==> exists k :: 0 <= k < |xs| && k < |ys| && xs[k] == ys[k]
    decreases |xs|
  {
    if xs == [] || ys == [] then false
    else if xs[0] == ys[0] then true
    else
      assert forall k :: 1 <= k < |xs| && k < |ys| ==> xs[k] == xs[1..][k - 1] && ys[k] == ys[1..][k - 1];
      AnyPairEqual(xs[1..], ys[1..])
  }

  predicate SameSection(text1: string, text2: string)
  {
    AnyPairEqual(Head(text1), Head(text2))
  }

  /** True iff the first lines agree, or both texts have a second line and those agree. */
  lemma SameSectionIff(text1: string, text2: string)
    ensures SameSection(text1, text2) <==>
      || Lines(text1)[0] == Lines(text2)[0]
      || (|Lines(text1)| >= 2 && |Lines(text2)| >= 2 && Lines(text1)[1] == Lines(text2)[1])
  {
    var h1, h2 := Head(text1), Head(text2);
    assert h1[0] == Lines(text1)[0] && h2[0] == Lines(text2)[0];
    assert |h1| == 2 ==> h1[1] == Lines(text1)[1];
    assert |h2| == 2 ==> h2[1] == Lines(text2)[1];
  }

  lemma SameSectionSymmetric(text1: string, text2: string)
    ensures SameSection(text1, text2) == SameSection(text2, text1)
  {
    SameSectionIff(text1, text2);
    SameSectionIff(text2, text1);
  }

  /** Every text, even an empty one, shares its section with itself. */
  lemma SameSectionReflexive(text: string)
    ensures SameSection(text, text)
  {
    SameSectionIff(text, text);
  }

  lemma SameSectionReflexiveAll()
    ensures forall text :: SameSection(text, text)
  {
    forall text {
      SameSectionReflexive(text);
    }
  }

  /** Agreeing first lines suffice, whatever the second lines say. */
  lemma SameFirstLineSuffices()
    ensures SameSection("A\nB", "A\nC")
    ensures !SameSection("A\nB", "B\nA")
  {
    LinesOfTwo('A', 'B');
    LinesOfTwo('A', 'C');
    LinesOfTwo('B', 'A');
    SameSectionIff("A\nB", "A\nC");
    SameSectionIff("A\nB", "B\nA");
  }

  /** The lines of the three-character text `a + "\n" + b`, for non-whitespace `a` and `b`. */
  lemma LinesOfTwo(a: char, b: char)
    requires !IsSpace(a) && !IsSpace(b)
    ensures Lines([a, '\n', b]) == [[a], [b]]
  {
    var s := [a, '\n', b];
    assert Strip(s) == s;
    assert s[1..] == ['\n', b] && s[1..][1..] == [b];
    assert !("\n" <= s) && "\n" <= s[1..];
    SplitOfOne(b);
    assert Split(s[1..], "\n") == [[], [b]];
    assert [a] + Split(s[1..], "\n")[0] == [a];
    assert Split(s, "\n") == [[a], [b]];
  }

  /** A one-character text other than "\n" splits into itself. */
  lemma SplitOfOne(c: char)
    requires c != '\n'
    ensures Split([c], "\n") == [[c]]
  {
    assert [c][1..] == [] && "\n"[0] != [c][0];
    assert !("\n" <= [c]);
    assert Split([], "\n") == [[]];
    assert [c] + [] == [c];
  }
}
