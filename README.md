# Code explainer: chunking, cleaning and de-duplication

`code_explainer.py` explains a piece of source code with a language model.
It cuts the code into chunks of at most 80 lines (`chunk_code`) and asks
the model once per chunk. Each reply is cleaned: surrounding whitespace is
stripped and every `"markdown"` and every `"text"` is deleted
(`clean_markdown`). A cleaned reply is kept only when it is neither
`is_similar` to, nor starts with the same section as, any reply kept
before it (`starts_with_same_section`). The kept replies are joined with
`"\n\n---\n\n"`, or the text is `"No explanation generated."` when none was
kept. An exception anywhere turns the result into `"❌ Error: "` followed
by its message.

This project models that deterministic pipeline in Dafny:

- `Strings`: the Python `str` operations the pipeline uses. These are
  `isspace`/`strip`, `split(sep)`, `sep.join`, `replace` and `splitlines`,
  with Python's own whitespace and line-boundary sets.
- `Chunker`: `chunk_code`, including what `range(0, n, max_lines)` does
  with a zero step (it raises) or a negative one (it is empty).
- `Normalizer`: the string branch of `clean_markdown`.
- `Sections`: `starts_with_same_section`.
- `Explainer`: `explain_code` as a method with the source's loop. The model
  is an oracle `llm(i, chunk)` that gives the reply to the `i`-th call,
  either `Content(text)` or `Raised(message)`. Building the chain before
  the first call is a parameter `chain`, either `Ready` or
  `Failed(message)`. `is_similar` is a parameter `similar` about which
  nothing is assumed.
- `Wrappers`: a `Result` type.

## Model

| member | source | states |
|---|---|---|
| Strings.Strip | code_explainer.py:23 | `s.strip()` is the slice of `s` between an all-whitespace prefix and an all-whitespace suffix, and its ends are not whitespace; it is empty exactly when `s` is all whitespace, and it is `s` itself when `s` has no surrounding whitespace |
| Strings.Split | code_explainer.py:32 | `s.split(sep)` always has at least one piece |
| Strings.JoinSplit | code_explainer.py:32 | `sep.join(s.split(sep)) == s`: splitting loses nothing |
| Strings.FirstPieceIsPrefix | code_explainer.py:32 | the first piece of `s.split(sep)` is a prefix of `s` |
| Strings.SplitCutsAtLeftmost | code_explainer.py:32 | no occurrence of `sep` starts inside the first piece of `s.split(sep)`: the cut is at the leftmost occurrence |
| Strings.SplitContinuesAfterCut | code_explainer.py:32 | when there is a second piece, an occurrence of `sep` starts right after the first piece, and the remaining pieces are the split of the text after that occurrence |
| Strings.SplitPiecesAvoidSeparator | code_explainer.py:32 | no piece of `s.split(sep)` contains `sep` |
| Strings.Join | code_explainer.py:17 | `sep.join(parts)`; its meaning is carried by Strings.JoinSplit (it undoes `split`), Strings.JoinAppend (one separator between two joined lists) and Chunker.JoinFlatten |
| Strings.JoinAppend | code_explainer.py:17 | joining two non-empty lists puts exactly one separator between their joins |
| Strings.Replace | code_explainer.py:23 | a replacement no longer than the pattern never lengthens the text |
| Strings.ReplaceIsJoinOfSplit | code_explainer.py:23 | `s.replace(pat, repl) == repl.join(s.split(pat))` |
| Strings.ReplaceAbsent | code_explainer.py:23 | a text in which the pattern does not occur is returned unchanged |
| Strings.SplitLines | code_explainer.py:16 | no line of `s.splitlines()` holds a line boundary, and there are no lines exactly when `s` is empty |
| Strings.SplitLinesAtNewline | code_explainer.py:16 | a first boundary that is a lone `"\n"` ends the first line, and the remaining lines are those of the rest |
| Strings.JoinSplitLines | code_explainer.py:16-17 | `"\n".join(s.splitlines()) == s` when `s` uses no boundary other than `"\n"` and does not end with one |
| Strings.LineEnds | code_explainer.py:16 | there is one line boundary per line of `s.splitlines()`; each is `"\r\n"` or a single boundary character, and only the last line may end without one |
| Strings.SplitLinesKeepEnds | code_explainer.py:16 | the lines of `s.splitlines()`, each followed by the boundary that ended it, re-concatenate to `s`: the keepends round trip, for every boundary kind |
| Chunker.ChunkLines | code_explainer.py:17 | every group holds between 1 and `max_lines` lines, and every group but the last holds exactly `max_lines` |
| Chunker.ChunkLinesCount | code_explainer.py:17 | the number of groups `n` satisfies `(n - 1) * m < len(lines) <= n * m`, that is `ceil(len(lines) / m)`; there are none exactly when there are no lines |
| Chunker.ChunkLinesAt | code_explainer.py:17 | group `k` is exactly `lines[k*m : k*m + m]`, and its start lies inside the line list |
| Chunker.FlattenChunkLines | code_explainer.py:16-17 | the groups, concatenated in order, are exactly the line list: no line is dropped, duplicated or reordered |
| Chunker.JoinFlatten | code_explainer.py:17 | joining the joined groups with `"\n"` equals joining all their lines with `"\n"` |
| Chunker.ChunkCode | code_explainer.py:15-17 | a zero `max_lines` is an error and nothing else is, and a negative one gives no chunks. For a positive one, `"\n".join(chunk_code(code)) == "\n".join(code.splitlines())`, there are no chunks exactly when the code is empty, and chunk `k` is lines `k*m` up to `k*m + m` of `code.splitlines()` re-joined with `"\n"` |
| Chunker.ChunksOfLines | code_explainer.py:16-17 | the chunks made from a line list re-join to the lines re-joined, are none exactly when there are no lines, and chunk `k` is the slice `lines[k*m : k*m + m]` re-joined |
| Chunker.ChunksAreSlices | code_explainer.py:17 | every group `k` starts inside the line list and is the slice `lines[k*m : k*m + m]` |
| Chunker.TwoHundredLines | code_explainer.py:12-17 | 200 lines with the default bound of 80 give three groups of 80, 80 and 40 lines |
| Chunker.RejoinDropsFinalNewline | code_explainer.py:16-17 | `chunk_code("a\n") == ["a"]`: the final newline is lost |
| Chunker.RejoinNormalisesCrLf | code_explainer.py:16-17 | `chunk_code("a\r\nb") == ["a\nb"]`: `"\r\n"` becomes `"\n"` |
| Normalizer.CleanMarkdown | code_explainer.py:20-23 | the cleaned text is never longer than the stripped text, which is never longer than the input; each deletion glues together the pieces between occurrences of the word: strip, then `"".join(x.split("markdown"))`, then `"".join(x.split("text"))` |
| Normalizer.CleanMarkdownWithoutWords | code_explainer.py:23 | a text containing neither `"markdown"` nor `"text"` is only stripped |
| Normalizer.StrippedAvoids | code_explainer.py:23 | stripping cannot create an occurrence of a word |
| Normalizer.CleanMarkdownNotIdempotent | code_explainer.py:23 | `"tetextxt"` cleans to `"text"`, which cleans to `""`: cleaning is not idempotent and its result may still hold `"text"` |
| Sections.Lines | code_explainer.py:32-33 | `text.strip().split('\n')` has at least one element |
| Sections.Head | code_explainer.py:32-33 | `[0:2]` of the lines is a prefix of them with one or two elements, and two exactly when there are at least two lines |
| Sections.AnyPairEqual | code_explainer.py:34 | `any(a == b for a, b in zip(xs, ys))` holds exactly when some shared position holds equal elements |
| Sections.SameSection | code_explainer.py:30-34 | `starts_with_same_section`; what it holds is stated by Sections.SameSectionIff (first lines equal, or both second lines present and equal), Sections.SameSectionSymmetric and Sections.SameSectionReflexive |
| Sections.SameSectionIff | code_explainer.py:30-34 | two texts share a section exactly when their first lines are equal, or both have a second line and the second lines are equal |
| Sections.SameSectionSymmetric | code_explainer.py:30-34 | the relation is symmetric |
| Sections.SameSectionReflexive | code_explainer.py:32-34 | every text, even an empty or all-whitespace one, shares its section with itself |
| Sections.SameFirstLineSuffices | code_explainer.py:34 | `"A\nB"` and `"A\nC"` share a section; `"A\nB"` and `"B\nA"` do not, since positions are compared, not sets |
| Sections.LinesOfTwo | code_explainer.py:32 | for non-whitespace characters `a` and `b`, the lines of the three-character text `a + "\n" + b` are `[a, b]` |
| Sections.SplitOfOne | code_explainer.py:32 | a one-character text other than `"\n"` splits on `"\n"` into itself |
| Sections.SameSectionReflexiveAll | code_explainer.py:32-34 | every text shares its section with itself, stated for all texts at once |
| Explainer.Tidy | code_explainer.py:97 | a cleaned reply is never longer than the reply, and neither its first nor its last character is whitespace |
| Explainer.Admissible | code_explainer.py:100-103 | the `all(...)` guard; Explainer.AcceptedStep states that a candidate is appended exactly when the guard holds, and Explainer.AcceptedPairwise that every kept entry passed it |
| Explainer.Accepted | code_explainer.py:84-104 | the `explanations` list after the loop holds no more entries than there were candidates, and at least one when there was a candidate; Explainer.AcceptedIsSubsequence, Explainer.AcceptedPairwise and Explainer.AcceptedStep state which entries they are |
| Explainer.Render | code_explainer.py:106 | the returned text for the kept entries; Explainer.ExplainCode states it: the entries joined by `"\n\n---\n\n"`, or `"No explanation generated."` when none was kept |
| Explainer.Clash | code_explainer.py:100-103 | every text clashes with itself, whatever `is_similar` says, because it shares its own section; in general a candidate clashes with an entry exactly when `is_similar` holds or they share a section |
| Explainer.Candidates | code_explainer.py:96-97 | one cleaned candidate per reply |
| Explainer.CandidatesAt | code_explainer.py:96-97 | candidate `i` is the cleaned text of reply `i` |
| Explainer.CandidatesSnoc | code_explainer.py:87-97 | one more answered call appends its cleaned text as the last candidate |
| Explainer.DefaultChunks | code_explainer.py:83 | `chunk_code(code)` with the default bound is empty exactly when the code is |
| Explainer.ExplainCode | code_explainer.py:80-109 | if building the chain raises, the result is `"❌ Error: "` plus its message, even for empty code. Otherwise: if every call answers, the result is the rendered list of accepted candidates. That is `"No explanation generated."` when the code is empty. Otherwise at least one entry is accepted, the first cleaned reply comes first, and the entries are joined by `"\n\n---\n\n"`; if some call raises, the result is `"❌ Error: "` plus the message of the first call that raised |
| Explainer.FirstRaisedUnique | code_explainer.py:87-109 | once call `i` raises after all earlier calls answered, `i` is the only call that is first to raise |
| Explainer.AnsweredBefore | code_explainer.py:87-93 | all calls before `n` answered when the first `n` replies are answers |
| Explainer.AcceptedIsSubsequence | code_explainer.py:84-104 | the accepted entries are candidates, in their original order |
| Explainer.AcceptedPairwise | code_explainer.py:99-104 | no accepted entry clashes with an entry accepted before it |
| Explainer.AcceptedKeepsFirst | code_explainer.py:100-104 | the first candidate is always accepted |
| Explainer.AcceptedPrefix | code_explainer.py:84-104 | what the first `n` candidates accept is a prefix of what all of them accept: an accepted entry is never removed |
| Explainer.AcceptedStep | code_explainer.py:100-104 | candidate `i` is appended exactly when it clashes with none of the entries accepted before it |
| Explainer.AcceptedAccountsForAll | code_explainer.py:100-104 | every candidate is either kept, right after the entries kept before it was offered, or clashes with one of those entries |
| Explainer.RepeatIsRejected | code_explainer.py:100-104 | a candidate equal to an accepted entry is rejected |
| Explainer.IdenticalCandidatesKeepOne | code_explainer.py:100-104 | when all candidates are the same text, exactly that one entry is accepted |
| Explainer.KeepsAllIff | code_explainer.py:100-104 | every candidate is accepted exactly when no candidate clashes with an earlier one |
| Explainer.ClashFreeKeepsAll | code_explainer.py:100-104 | candidates free of clashes are all accepted |
| Explainer.IdenticalRepliesGiveIdenticalCandidates | code_explainer.py:96-97 | when every call gives the same reply, every candidate is that reply, cleaned |
| Explainer.IdenticalRepliesGiveOneEntry | code_explainer.py:84-106 | when every call gives the same reply, the output is that one reply, cleaned |

## Left out

- The model calls themselves (`ChatGoogleGenerativeAI`, the prompt template, `prompt | llm`, `chain.invoke`, code_explainer.py:37-77, 88-93). They are network calls into a library. They become the oracle `llm`.
- How building the chain can fail (code_explainer.py:72-74, 82), for instance a missing API key. Only whether it raised, and with what message, is kept: the `chain` parameter of Explainer.ExplainCode is `Ready` or `Failed(message)`.
- The language, detail and output-language arguments of `explain_code` (code_explainer.py:80). They only reach the prompt, so they are folded into the oracle.
- The API key lookup and `load_dotenv` (code_explainer.py:9, 73, 137). This is environment I/O.
- The numeric `is_similar`: a `difflib` ratio compared with the float 0.97 (code_explainer.py:26-27). It is a floating-point library call. It is the opaque parameter `similar`, assumed neither symmetric nor reflexive.
- The non-string branch of `clean_markdown` (code_explainer.py:21-22) and the `getattr(output, "content", str(output))` fallback (code_explainer.py:96). Both rely on Python's `str()` of arbitrary objects. A reply is its text.
- Exceptions other than those of building the chain and of a model call. Inside `explain_code`'s `try` (code_explainer.py:81-109), the chain is built first (code_explainer.py:82) and then the model is called once per chunk. Both can raise; they are the `Failed` chain and the `Raised` reply. Chunking with the default bound, cleaning, comparing and joining are total on strings. An exception message is taken as already converted by `str(e)`.
- `handle_user_query` (code_explainer.py:112-148). It is one model call followed by `.strip()`.
- `ui.py`. It is Streamlit layout, widgets and file upload: presentation only.
- Strings.Replace: stated only for a non-empty pattern. The pipeline only replaces `"markdown"` and `"text"`, and Python's empty-pattern case inserts between characters.
- Strings.JoinSplitLines: stated only for text whose only line boundary is `"\n"` and which does not end with one. For other text the round trip fails, as Chunker.RejoinDropsFinalNewline and Chunker.RejoinNormalisesCrLf show. Strings.SplitLinesKeepEnds states the round trip that holds for every text, with each line followed by its own boundary.
- Explainer.IdenticalRepliesGiveOneEntry: stated for an arbitrary cleaning function given as a parameter, which includes the pipeline's own cleaning. This keeps the proof independent of the cleaning's definition.

Two behaviours of the code are worth stating on their own:

- One equal position of the two-line heads is enough for two texts to share a section. The whole two-line prefix need not match, because the code uses `any` over `zip` (Sections.SameSectionIff, Sections.SameFirstLineSuffices).
- Re-joining the chunks does not give the input back. `splitlines()` drops a final boundary, and re-joining turns every boundary, `"\r\n"` included, into `"\n"`. Only the line list is preserved (Chunker.ChunkCode, Chunker.RejoinDropsFinalNewline, Chunker.RejoinNormalisesCrLf).
