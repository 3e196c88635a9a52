/**
 * `clean_markdown` for a string: strip surrounding whitespace, then delete
 * every "markdown", then every "text" (left to right, without overlap).
 */
module Normalizer {
  import opened Strings

  const Markdown: string := "markdown"
  const TextWord: string := "text"

  /**
   * Never longer than the stripped text, and each deletion is
   * `"".join(x.split(word))`: the pieces between occurrences, glued together.
   */
  function CleanMarkdown(s: string): (r: string)
    ensures |r| <= |Strip(s)| <= |s|
    ensures r == Join("", Split(Join("", Split(Strip(s), Markdown)), TextWord))
  {
    var once := Replace(Strip(s), Markdown, "");
    ReplaceIsJoinOfSplit(Strip(s), Markdown, "");
    ReplaceIsJoinOfSplit(once, TextWord, "");
    Replace(once, TextWord, "")
  }

  /** A string holding neither word is only stripped. */
  lemma CleanMarkdownWithoutWords(s: string)
    requires !Contains(s, Markdown) && !Contains(s, TextWord)
    ensures CleanMarkdown(s) == Strip(s)
  {
    var t := Strip(s);
    StrippedAvoids(s, Markdown);
    StrippedAvoids(s, TextWord);
    DeleteAbsentWords(t);
  }

  /** Stripping cannot create an occurrence. */
  lemma StrippedAvoids(s: string, p: string)
    requires !Contains(s, p)
    ensures !Contains(Strip(s), p)
  {
    var i := LeadingSpace(s);
    var t := Strip(s);
    InfixAvoids(s, i, i + |t|, p);
  }

  lemma DeleteAbsentWords(t: string)
    requires !Contains(t, Markdown) && !Contains(t, TextWord)
    ensures Replace(Replace(t, Markdown, ""), TextWord, "") == t
  {
    ReplaceAbsent(t, Markdown, "");
    ReplaceAbsent(t, TextWord, "");
  }

  /** Deleting can create a new occurrence: "tetextxt" cleans to "text", which cleans to "". */
  lemma CleanMarkdownNotIdempotent()
    ensures CleanMarkdown("tetextxt") == "text"
    ensures CleanMarkdown(CleanMarkdown("tetextxt")) == ""
  {
    assert Strip("tetextxt") == "tetextxt";
    NoMarkdownInTetextxt();
    ReplaceAbsent("tetextxt", Markdown, "");
    TetextxtLosesText();
    assert Strip("text") == "text";
    ShortAvoids("text", Markdown);
    ReplaceAbsent("text", Markdown, "");
    assert Replace("text", TextWord, "") == "" by {
      assert "text"[|TextWord|..] == [];
    }
  }

  lemma NoMarkdownInTetextxt()
    ensures !Contains("tetextxt", Markdown)
  {
    var s := "tetextxt";
    assert s[0] != Markdown[0];
    ShortAvoids(s[1..], Markdown);
  }

  lemma TetextxtLosesText()
    ensures Replace("tetextxt", TextWord, "") == "text"
  {
    var s := "tetextxt";
    assert !(TextWord <= s) by { assert s[2] != TextWord[2]; }
    assert s[1..] == "etextxt";
    assert !(TextWord <= s[1..]) by { assert s[1] != TextWord[0]; }
    assert s[2..] == "textxt";
    assert TextWord <= s[2..];
    assert s[2..][|TextWord|..] == "xt";
    ShortAvoids("xt", TextWord);
    ReplaceAbsent("xt", TextWord, "");
  }
}
