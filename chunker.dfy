/**
 * `chunk_code`: the input is cut into lines with `splitlines()` and
 * consecutive lines are grouped into chunks of at most `max_lines` lines,
 * each chunk re-joined with "\n".
 */
module Chunker {
  import opened Wrappers
  import opened Strings

  /** The default `max_lines` (`MAX_LINES_PER_CHUNK`). */
  const MaxLinesPerChunk: int := 80

  /** The line groups `lines[i:i + m]` for `i` in `range(0, len(lines), m)`. */
  function ChunkLines(lines: seq<string>, m: nat): (groups: seq<seq<string>>)
    requires m > 0
    ensures forall k :: 0 <= k < |groups| ==> 0 < |groups[k]| <= m
    ensures forall k :: 0 <= k < |groups| - 1 ==> |groups[k]| == m
    decreases |lines|
  {
    if lines == [] then []
    else if |lines| <= m then [lines]
    else [lines[..m]] + ChunkLines(lines[m..], m)
  }

  /** The lines of all groups, in order. */
  function Flatten(groups: seq<seq<string>>): seq<string>
  {
    if groups == [] then [] else groups[0] + Flatten(groups[1..])
  }

  /** Each group re-joined into one chunk of text. */
  function JoinEach(groups: seq<seq<string>>): (chunks: seq<string>)
    ensures |chunks| == |groups|
    ensures forall k :: 0 <= k < |groups| ==> chunks[k] == Join("\n", groups[k])
  {
    seq(|groups|, k requires 0 <= k < |groups| => Join("\n", groups[k]))
  }

  /**
   * Python's `chunk_code(code, max_lines)`.  A step of zero makes `range`
   * raise `ValueError`; a negative step gives an empty range.  For a
   * positive bound, chunk `k` is lines `k*m` up to `k*m + m` re-joined, the
   * chunks re-joined give the lines re-joined, and only "" has no chunks.
   */
  function ChunkCode(code: string, maxLines: int): (r: Result<seq<string>>)
    ensures r.Err? <==> maxLines == 0
    ensures maxLines < 0 ==> r == Ok([])
    ensures maxLines > 0 ==> r.Ok? && Join("\n", r.value) == Join("\n", SplitLines(code))
    ensures maxLines > 0 ==> (r.value == [] <==> code == [])
    ensures maxLines > 0 ==> var lines := SplitLines(code);
      forall k :: 0 <= k < |r.value| ==>
        k * maxLines < |lines| && r.value[k] == Join("\n", lines[k * maxLines .. Min(k * maxLines + maxLines, |lines|)])
  {
    if maxLines == 0 then Err("range() arg 3 must not be zero")
    else if maxLines < 0 then Ok([])
    else
      ChunksOfLines(SplitLines(code), maxLines);
      Ok(JoinEach(ChunkLines(SplitLines(code), maxLines)))
  }

  /**
   * The chunks made from a line list: re-joined they give the lines
   * re-joined, there are none exactly when there are no lines, and chunk
   * `k` is the slice `lines[k*m : k*m + m]` re-joined.
   */
  lemma ChunksOfLines(lines: seq<string>, m: nat)
    requires m > 0
    ensures Join("\n", JoinEach(ChunkLines(lines, m))) == Join("\n", lines)
    ensures JoinEach(ChunkLines(lines, m)) == [] <==> lines == []
    ensures forall k :: 0 <= k < |ChunkLines(lines, m)| ==>
      k * m < |lines| && JoinEach(ChunkLines(lines, m))[k] == Join("\n", lines[k * m .. Min(k * m + m, |lines|)])
  {
    var groups := ChunkLines(lines, m);
    JoinFlatten(groups);
    FlattenChunkLines(lines, m);
    ChunkLinesCount(lines, m);
    ChunksAreSlices(lines, m);
  }

  lemma ChunksAreSlices(lines: seq<string>, m: nat)
    requires m > 0
    ensures forall k :: 0 <= k < |ChunkLines(lines, m)| ==>
      k * m < |lines| && ChunkLines(lines, m)[k] == lines[k * m .. Min(k * m + m, |lines|)]
  {
    forall k | 0 <= k < |ChunkLines(lines, m)|
      ensures k * m < |lines| && ChunkLines(lines, m)[k] == lines[k * m .. Min(k * m + m, |lines|)]
    {
      ChunkLinesAt(lines, m, k);
    }
  }

  /** No line is dropped, duplicated or reordered by the grouping. */
  lemma {:induction false} FlattenChunkLines(lines: seq<string>, m: nat)
    requires m > 0
    ensures Flatten(ChunkLines(lines, m)) == lines
    decreases |lines|
  {
    if |lines| > m {
      FlattenChunkLines(lines[m..], m);
      assert ([lines[..m]] + ChunkLines(lines[m..], m))[1..] == ChunkLines(lines[m..], m);
      assert lines == lines[..m] + lines[m..];
    } else if lines != [] {
      assert Flatten([lines]) == lines + Flatten([]);
    }
  }

  /**
   * There are `ceil(len(lines) / m)` groups: `n` groups hold more than
   * `(n - 1) * m` and at most `n * m` lines, and no lines means no groups.
   */
  lemma {:induction false} ChunkLinesCount(lines: seq<string>, m: nat)
    requires m > 0
    ensures var n := |ChunkLines(lines, m)|;
      (lines == [] <==> n == 0) && (n - 1) * m < |lines| <= n * m
    decreases |lines|
  {
    if |lines| > m {
      ChunkLinesCount(lines[m..], m);
      var n' := |ChunkLines(lines[m..], m)|;
      assert (n' + 1 - 1) * m == (n' - 1) * m + m;
      assert (n' + 1) * m == n' * m + m;
    }
  }

  /** The `k`-th group is the slice `lines[k*m : (k+1)*m]`, clipped at the end. */
  lemma {:induction false} ChunkLinesAt(lines: seq<string>, m: nat, k: nat)
    requires m > 0 && k < |ChunkLines(lines, m)|
    ensures k * m < |lines|
    ensures ChunkLines(lines, m)[k] == lines[k * m .. Min(k * m + m, |lines|)]
    decreases |lines|
  {
    if k > 0 {
      var rest := lines[m..];
      ChunkLinesAt(rest, m, k - 1);
      var a := (k - 1) * m;
      var km := k * m;
      MulSucc(k - 1, m);
      var b := Min(a + m, |rest|);
      forall i | 0 <= i < b - a ensures rest[a..b][i] == lines[km..b + m][i] {
        assert rest[a..b][i] == lines[m + a + i];
      }
      assert rest[a..b] == lines[km..b + m];
      assert Min(km + m, |lines|) == b + m;
    }
  }

  lemma MulSucc(k: nat, m: nat)
    ensures k * m + m == (k + 1) * m
  {
  }

  function Min(a: int, b: int): int
  {
    if a <= b then a else b
  }

  /** Joining `n` non-empty groups line by line equals joining their lines. */
  lemma {:induction false} JoinFlatten(groups: seq<seq<string>>)
    requires forall k :: 0 <= k < |groups| ==> groups[k] != []
    ensures Join("\n", JoinEach(groups)) == Join("\n", Flatten(groups))
    decreases |groups|
  {
    if |groups| > 1 {
      var tail := groups[1..];
      JoinFlatten(tail);
      assert JoinEach(groups) == [Join("\n", groups[0])] + JoinEach(tail);
      JoinCons("\n", Join("\n", groups[0]), JoinEach(tail));
      assert Flatten(tail) != [] by {
        assert Flatten(tail) == tail[0] + Flatten(tail[1..]);
      }
      JoinAppend("\n", groups[0], Flatten(tail));
    } else if |groups| == 1 {
      assert JoinEach(groups) == [Join("\n", groups[0])];
      assert groups[1..] == [];
      assert Flatten(groups) == groups[0] + Flatten([]);
      assert Flatten(groups) == groups[0];
    }
  }

  /** A 200-line input with the default bound gives chunks of 80, 80 and 40 lines. */
  lemma TwoHundredLines(lines: seq<string>)
    requires |lines| == 200
    ensures var groups := ChunkLines(lines, 80);
      |groups| == 3 && |groups[0]| == 80 && |groups[1]| == 80 && |groups[2]| == 40
  {
    var groups := ChunkLines(lines, 80);
    assert groups == [lines[..80]] + ChunkLines(lines[80..], 80);
    assert ChunkLines(lines[80..], 80) == [lines[80..][..80]] + ChunkLines(lines[80..][80..], 80);
    assert ChunkLines(lines[80..][80..], 80) == [lines[80..][80..]];
  }

  /** Re-joining does not give the text back: the final "\n" is lost. */
  lemma RejoinDropsFinalNewline()
    ensures ChunkCode("a\n", 80) == Ok(["a"])
  {
    assert FirstBreak("a\n") == 1;
    assert "a\n"[..1] == "a" && "a\n"[2..] == [];
    assert SplitLines("a\n") == ["a"];
    assert ChunkLines(["a"], 80) == [["a"]];
    assert JoinEach([["a"]]) == [Join("\n", ["a"])] == ["a"];
  }

  /** Re-joining does not give the text back: "\r\n" becomes "\n". */
  lemma RejoinNormalisesCrLf()
    ensures ChunkCode("a\r\nb", 80) == Ok(["a\nb"])
  {
    assert FirstBreak("a\r\nb") == 1;
    assert BreakEnd("a\r\nb", 1) == 3;
    assert "a\r\nb"[..1] == "a" && "a\r\nb"[3..] == "b";
    assert SplitLines("b") == ["b"];
    assert SplitLines("a\r\nb") == ["a", "b"];
    assert ChunkLines(["a", "b"], 80) == [["a", "b"]];
    JoinCons("\n", "a", ["b"]);
    assert Join("\n", ["a", "b"]) == "a\nb";
    assert JoinEach([["a", "b"]]) == [Join("\n", ["a", "b"])];
  }
}
