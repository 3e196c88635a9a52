/**
 * The deterministic part of `explain_code`: chunk the code, ask the model
 * once per chunk, clean each reply, keep a reply only when it clashes with
 * no reply kept so far, and join what was kept.
 *
 * The model is an oracle `llm`: `llm(i, chunk)` is its reply to the `i`-th
 * call, made with chunk text `chunk`.  `is_similar` is an opaque relation
 * `similar(candidate, existing)`; nothing is assumed about it.
 */
module Explainer {
  import opened Strings
  import opened Chunker
  import opened Normalizer
  import opened Sections

  /** What separates the kept explanations in the final text. */
  const Separator: string := "\n\n---\n\n"
  /** Returned when no explanation was kept. */
  const NoExplanation: string := "No explanation generated."
  /** Put before the message of the exception that aborted a run. */
  const ErrorMarker: string := "\U{274C} Error: "

  /** One model call: the text it produced, or the exception it raised. */
  datatype Reply = Content(text: string) | Raised(message: string)

  /** Building the explanation chain: it succeeded, or it raised. */
  datatype Chain = Ready | Failed(message: string)

  /**
   * `clean_markdown(explanation_text).strip()`: never longer than the reply,
   * and free of surrounding whitespace.
   */
  function Tidy(text: string): (r: string)
    ensures |r| <= |text|
    ensures r != [] ==> !IsSpace(r[0]) && !IsSpace(r[|r| - 1])
  {
    Strip(CleanMarkdown(text))
  }

  /**
   * `is_similar(cleaned, existing) or starts_with_same_section(cleaned, existing)`:
   * the candidate clashes with an entry already kept.  Whatever `similar`
   * says, every text clashes with itself.
   */
  function Clash(similar: (string, string) -> bool): (clash: (string, string) -> bool)
    ensures forall c, e :: clash(c, e) == (similar(c, e) || SameSection(c, e))
    ensures forall t :: clash(t, t)
  {
    SameSectionReflexiveAll();
    (c, e) => similar(c, e) || SameSection(c, e)
  }

  /** The guard of the append, `all(not clash(candidate, e) for e in kept)`. */
  predicate Admissible(clash: (string, string) -> bool, candidate: string, kept: seq<string>)
  {
    forall k :: 0 <= k < |kept| ==> !clash(candidate, kept[k])
  }

  /**
   * The entries kept after the candidates have been offered in order: never
   * more than were offered, and at least one as soon as one was offered.
   */
  function Accepted(clash: (string, string) -> bool, candidates: seq<string>): (kept: seq<string>)
    ensures |kept| <= |candidates|
    ensures candidates != [] ==> kept != []
    decreases |candidates|
  {
    if candidates == [] then []
    else
      var kept := Accepted(clash, candidates[..|candidates| - 1]);
      var last := candidates[|candidates| - 1];
      if Admissible(clash, last, kept) then kept + [last] else kept
  }

  /** The final text: the kept entries joined, or the fixed sentence when there are none. */
  function Render(kept: seq<string>): string
  {
    if kept == [] then NoExplanation else Join(Separator, kept)
  }

  /** The replies to the calls, one per chunk, in chunk order. */
  function Replies(llm: (nat, string) -> Reply, chunks: seq<string>): (replies: seq<Reply>)
    ensures |replies| == |chunks|
    ensures forall i :: 0 <= i < |chunks| ==> replies[i] == llm(i, chunks[i])
  {
    seq(|chunks|, i requires 0 <= i < |chunks| => llm(i, chunks[i]))
  }

  predicate AllAnswered(replies: seq<Reply>)
  {
    forall i :: 0 <= i < |replies| ==> replies[i].Content?
  }

  /** Call `k` is the first one that raised. */
  predicate FirstRaised(replies: seq<Reply>, k: int)
  {
    0 <= k < |replies| && replies[k].Raised? && AllAnswered(replies[..k])
  }

  /**
   * The replies' texts, each passed through `clean`: with `clean == Tidy`,
   * the candidates of the dedup loop.
   */
  function Candidates(clean: string -> string, replies: seq<Reply>): (candidates: seq<string>)
    requires AllAnswered(replies)
    ensures |candidates| == |replies|
    decreases |replies|
  {
    if replies == [] then []
    else
      var init := replies[..|replies| - 1];
      assert forall j :: 0 <= j < |init| ==> init[j] == replies[j];
      Candidates(clean, init) + [clean(replies[|replies| - 1].text)]
  }

  /** Candidate `i` is the cleaned reply to call `i`. */
  lemma {:induction false} CandidatesAt(clean: string -> string, replies: seq<Reply>, i: nat)
    requires AllAnswered(replies) && i < |replies|
    ensures Candidates(clean, replies)[i] == clean(replies[i].text)
    decreases |replies|
  {
    var init := replies[..|replies| - 1];
    if i < |init| {
      assert forall j :: 0 <= j < |init| ==> init[j] == replies[j];
      CandidatesAt(clean, init, i);
    }
  }

  /** `chunk_code(code)` with the default bound. */
  function DefaultChunks(code: string): (chunks: seq<string>)
    ensures chunks == [] <==> code == []
  {
    ChunkCode(code, MaxLinesPerChunk).value
  }

  /**
   * `explain_code`.  Building the chain raised: its error text.  Every
   * reply answered: the kept candidates rendered.  Some call raised: the
   * error text of the first one that did.
   */
  method ExplainCode(code: string, chain: Chain, llm: (nat, string) -> Reply, similar: (string, string) -> bool)
    returns (out: string)
    ensures chain.Failed? ==> out == ErrorMarker + chain.message
    ensures var replies := Replies(llm, DefaultChunks(code));
      chain.Ready? && AllAnswered(replies) ==> out == Render(Accepted(Clash(similar), Candidates(Tidy, replies)))
    ensures var replies := Replies(llm, DefaultChunks(code));
      chain.Ready? ==> forall k :: FirstRaised(replies, k) ==> out == ErrorMarker + replies[k].message
    ensures chain.Ready? && code == [] ==> out == NoExplanation
    ensures var replies := Replies(llm, DefaultChunks(code));
      chain.Ready? && AllAnswered(replies) && code != [] ==>
        var kept := Accepted(Clash(similar), Candidates(Tidy, replies));
        kept != [] && kept[0] == Tidy(replies[0].text) && out == Join(Separator, kept)
  {
    if chain.Failed? {
      return ErrorMarker + chain.message;
    }
    var clash := Clash(similar);
    var chunks := DefaultChunks(code);
    ghost var replies := Replies(llm, chunks);
    var explanations: seq<string> := [];
    for i := 0 to |chunks|
      invariant AllAnswered(replies[..i])
      invariant explanations == Accepted(clash, Candidates(Tidy, replies[..i]))
    {
      var output := llm(i, chunks[i]);
      if output.Raised? {
        FirstRaisedUnique(replies, i);
        return ErrorMarker + output.message;
      }
      var cleaned := Tidy(output.text);
      CandidatesSnoc(Tidy, replies, i);
      if Admissible(clash, cleaned, explanations) {
        explanations := explanations + [cleaned];
      }
    }
    assert replies[..|chunks|] == replies;
    if chunks != [] {
      AcceptedKeepsFirst(clash, Candidates(Tidy, replies));
      CandidatesAt(Tidy, replies, 0);
    }
    out := if explanations == [] then NoExplanation else Join(Separator, explanations);
  }

  /** Only one call can be the first to raise. */
  lemma FirstRaisedUnique(replies: seq<Reply>, i: nat)
    requires i < |replies| && replies[i].Raised? && AllAnswered(replies[..i])
    ensures forall k :: FirstRaised(replies, k) <==> k == i
  {
    forall k | FirstRaised(replies, k) ensures k == i {
      AnsweredBefore(replies, i);
      AnsweredBefore(replies, k);
    }
  }

  /** Every call before `n` answered, when the first `n` replies are all answers. */
  lemma AnsweredBefore(replies: seq<Reply>, n: nat)
    requires n <= |replies| && AllAnswered(replies[..n])
    ensures forall k :: 0 <= k < n ==> replies[k].Content?
  {
    forall k | 0 <= k < n ensures replies[k].Content? {
      assert replies[..n][k] == replies[k];
    }
  }

  /** One more answered call adds its cleaned reply as the last candidate. */
  lemma CandidatesSnoc(clean: string -> string, replies: seq<Reply>, i: nat)
    requires i < |replies| && AllAnswered(replies[..i]) && replies[i].Content?
    ensures AllAnswered(replies[..i + 1])
    ensures Candidates(clean, replies[..i + 1]) == Candidates(clean, replies[..i]) + [clean(replies[i].text)]
  {
    assert replies[..i + 1][..i] == replies[..i];
  }

  // ------------------------------------------------------------ properties

  /** `xs` can be obtained from `ys` by deleting elements. */
  predicate IsSubsequence<T(==)>(xs: seq<T>, ys: seq<T>)
    decreases |ys|
  {
    || xs == []
    || (&& ys != []
        && (|| (xs[|xs| - 1] == ys[|ys| - 1] && IsSubsequence(xs[..|xs| - 1], ys[..|ys| - 1]))
            || IsSubsequence(xs, ys[..|ys| - 1])))
  }

  /** The kept entries are candidates, in their original order. */
  lemma {:induction false} AcceptedIsSubsequence(clash: (string, string) -> bool, candidates: seq<string>)
    ensures IsSubsequence(Accepted(clash, candidates), candidates)
    decreases |candidates|
  {
    if candidates != [] {
      var init := candidates[..|candidates| - 1];
      var kept := Accepted(clash, candidates);
      AcceptedIsSubsequence(clash, init);
      if kept == Accepted(clash, init) {
        assert kept == [] || IsSubsequence(kept, init);
      } else {
        assert kept[..|kept| - 1] == Accepted(clash, init);
      }
    }
  }

  /** No later candidate clashes with an earlier one. */
  predicate ClashFree(clash: (string, string) -> bool, candidates: seq<string>)
  {
    forall i, j :: 0 <= i < j < |candidates| ==>
      !clash(candidates[j], candidates[i])
  }

  /** A later kept entry is neither similar to nor in the same section as an earlier one. */
  lemma {:induction false} AcceptedPairwise(clash: (string, string) -> bool, candidates: seq<string>)
    ensures ClashFree(clash, Accepted(clash, candidates))
    decreases |candidates|
  {
    if candidates != [] {
      var init := candidates[..|candidates| - 1];
      var last := candidates[|candidates| - 1];
      var before := Accepted(clash, init);
      AcceptedPairwise(clash, init);
      if Admissible(clash, last, before) {
        var kept := before + [last];
        forall i, j | 0 <= i < j < |kept|
          ensures !clash(kept[j], kept[i])
        {
          assert kept[i] == before[i];
          if j < |before| {
            assert kept[j] == before[j];
          } else {
            assert kept[j] == last;
          }
        }
      }
    }
  }

  /** The first candidate is always kept, since nothing has been kept before it. */
  lemma {:induction false} AcceptedKeepsFirst(clash: (string, string) -> bool, candidates: seq<string>)
    requires candidates != []
    ensures Accepted(clash, candidates) != []
    ensures Accepted(clash, candidates)[0] == candidates[0]
    decreases |candidates|
  {
    var init := candidates[..|candidates| - 1];
    if init != [] {
      AcceptedKeepsFirst(clash, init);
      assert init[0] == candidates[0];
    }
  }

  /** What the first `n` candidates keep is a prefix of what all of them keep. */
  lemma {:induction false} AcceptedPrefix(clash: (string, string) -> bool, candidates: seq<string>, n: nat)
    requires n <= |candidates|
    ensures Accepted(clash, candidates[..n]) <= Accepted(clash, candidates)
    decreases |candidates| - n
  {
    if n < |candidates| {
      var init := candidates[..|candidates| - 1];
      assert candidates[..n] == init[..n];
      AcceptedPrefix(clash, init, n);
    } else {
      assert candidates[..n] == candidates;
    }
  }

  /** Candidate `i` is kept exactly when it passes the guard against what the earlier ones kept. */
  lemma AcceptedStep(clash: (string, string) -> bool, candidates: seq<string>, i: nat)
    requires i < |candidates|
    ensures var before := Accepted(clash, candidates[..i]);
      Accepted(clash, candidates[..i + 1]) ==
        if Admissible(clash, candidates[i], before) then before + [candidates[i]] else before
  {
    assert candidates[..i + 1][..i] == candidates[..i];
  }

  /**
   * Every candidate is kept, right after the entries kept before it was
   * offered, or clashes with one of those entries.
   */
  lemma AcceptedAccountsForAll(clash: (string, string) -> bool, candidates: seq<string>, i: nat)
    requires i < |candidates|
    ensures var kept := Accepted(clash, candidates);
      var n := |Accepted(clash, candidates[..i])|;
      && n <= |kept|
      && (|| (n < |kept| && kept[n] == candidates[i])
          || exists k :: 0 <= k < n && clash(candidates[i], kept[k]))
  {
    var before := Accepted(clash, candidates[..i]);
    var after := Accepted(clash, candidates[..i + 1]);
    var kept := Accepted(clash, candidates);
    AcceptedStep(clash, candidates, i);
    AcceptedPrefix(clash, candidates, i);
    AcceptedPrefix(clash, candidates, i + 1);
    if Admissible(clash, candidates[i], before) {
      assert after[|after| - 1] == candidates[i];
      assert kept[|after| - 1] == candidates[i];
    } else {
      var k :| 0 <= k < |before| && clash(candidates[i], before[k]);
      assert kept[k] == before[k];
    }
  }

  /** A candidate equal to a kept entry is dropped, because a text shares its own section. */
  lemma RepeatIsRejected(similar: (string, string) -> bool, candidates: seq<string>, c: string)
    requires c in Accepted(Clash(similar), candidates)
    ensures Accepted(Clash(similar), candidates + [c]) == Accepted(Clash(similar), candidates)
  {
    assert (candidates + [c])[..|candidates|] == candidates;
  }

  /** When every reply cleans to the same text, exactly one entry is kept. */
  lemma {:induction false} IdenticalCandidatesKeepOne(similar: (string, string) -> bool, candidates: seq<string>, t: string)
    requires candidates != []
    requires forall i :: 0 <= i < |candidates| ==> candidates[i] == t
    ensures Accepted(Clash(similar), candidates) == [t]
    decreases |candidates|
  {
    var init := candidates[..|candidates| - 1];
    if init == [] {
      assert candidates == [t];
    } else {
      IdenticalCandidatesKeepOne(similar, init, t);
      assert candidates[|candidates| - 1] == t;
      assert !Admissible(Clash(similar), t, [t]) by {
        assert [t][0] == t;
      }
    }
  }

  /** All candidates are kept exactly when no later one clashes with an earlier one. */
  lemma KeepsAllIff(clash: (string, string) -> bool, candidates: seq<string>)
    ensures Accepted(clash, candidates) == candidates <==> ClashFree(clash, candidates)
  {
    AcceptedPairwise(clash, candidates);
    if ClashFree(clash, candidates) {
      ClashFreeKeepsAll(clash, candidates);
    }
  }

  lemma {:induction false} ClashFreeKeepsAll(clash: (string, string) -> bool, candidates: seq<string>)
    requires ClashFree(clash, candidates)
    ensures Accepted(clash, candidates) == candidates
    decreases |candidates|
  {
    if candidates != [] {
      var init := candidates[..|candidates| - 1];
      var last := candidates[|candidates| - 1];
      assert ClashFree(clash, init) by {
        forall i, j | 0 <= i < j < |init|
          ensures !clash(init[j], init[i])
        {
          assert init[j] == candidates[j] && init[i] == candidates[i];
        }
      }
      ClashFreeKeepsAll(clash, init);
      assert Admissible(clash, last, init) by {
        forall k | 0 <= k < |init| ensures !clash(last, init[k]) {
          assert init[k] == candidates[k];
        }
      }
      assert init + [last] == candidates;
    }
  }

  /**
   * Identical replies to every chunk: the whole output is that one reply,
   * cleaned.  Stated for any cleaning function, `Tidy` among them.
   */
  lemma IdenticalRepliesGiveOneEntry(clean: string -> string, similar: (string, string) -> bool,
                                     replies: seq<Reply>, t: string)
    requires replies != []
    requires forall i :: 0 <= i < |replies| ==> replies[i] == Content(t)
    ensures Render(Accepted(Clash(similar), Candidates(clean, replies))) == clean(t)
  {
    IdenticalRepliesGiveIdenticalCandidates(clean, replies, t);
    IdenticalCandidatesKeepOne(similar, Candidates(clean, replies), clean(t));
  }

  lemma IdenticalRepliesGiveIdenticalCandidates(clean: string -> string, replies: seq<Reply>, t: string)
    requires forall i :: 0 <= i < |replies| ==> replies[i] == Content(t)
    ensures AllAnswered(replies)
    ensures forall i :: 0 <= i < |replies| ==> Candidates(clean, replies)[i] == clean(t)
  {
    forall i | 0 <= i < |replies| ensures Candidates(clean, replies)[i] == clean(t) {
      CandidatesAt(clean, replies, i);
    }
  }
}
