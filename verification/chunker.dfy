/**
 * `split_into_chunks` (lit_annotator/__main__.py): the stripped text is cut
 * into paragraphs at blank lines, and the paragraphs are packed greedily
 * into chunks under a word budget. A chunk is closed only when it already
 * holds a paragraph and the next paragraph would take it over the budget,
 * so a paragraph is never divided and a single paragraph may exceed the
 * budget on its own. The paragraphs of a chunk are joined with a blank line.
 */
module Chunker {
  import opened Text
  import opened Paragraphs
  import Seqs

  /** `CHUNK_SIZE`, the default word budget. */
  const ChunkSize: int := 500

  /** Number of words in a group of paragraphs. */
  function TotalWords(g: seq<string>): nat {
    if |g| == 0 then 0 else WordCount(g[0]) + TotalWords(g[1..])
  }

  /** The groups laid end to end. */
  function Flatten(gs: seq<seq<string>>): seq<string> {
    if |gs| == 0 then [] else gs[0] + Flatten(gs[1..])
  }

  /**
   * The loop of `split_into_chunks` from the state (`current_chunk` = cur,
   * `current_length` = len) with `paras` still to read; the result holds
   * the groups it has yet to append, cur's group first.
   *
   * The groups cover cur and the remaining paragraphs in order; none is
   * empty; a group of two or more paragraphs stays within the budget; and
   * each group was closed only because the first paragraph of the next one
   * would have taken it over the budget.
   */
  function Fill(paras: seq<string>, budget: int, cur: seq<string>, len: int): (r: seq<seq<string>>)
    requires len == TotalWords(cur)
    requires |cur| >= 2 ==> len <= budget
    ensures Flatten(r) == cur + paras
    ensures |r| == 0 <==> |cur| == 0 && |paras| == 0
    ensures |r| > 0 ==> cur <= r[0]
    ensures Packed(r, budget)
    decreases |paras|
  {
    if |paras| == 0 then
      if |cur| > 0 then [cur] else []
    else
      var w := WordCount(paras[0]);
      if len + w > budget && |cur| > 0 then
        var rest := Fill(paras[1..], budget, [paras[0]], w);
        assert TotalWords([paras[0]]) == w;
        FlattenCons(cur, rest);
        Seqs.HeadTail(paras);
        CloseGroup(cur, rest, budget);
        [cur] + rest
      else
        TotalWordsSnoc(cur, paras[0]);
        var rest := Fill(paras[1..], budget, cur + [paras[0]], len + w);
        Seqs.Assoc(cur, [paras[0]], paras[1..]);
        Seqs.HeadTail(paras);
        rest
  }

  /** The shape of the loop's groups under a budget: every group is as `GroupFits` says. */
  ghost predicate Packed(r: seq<seq<string>>, budget: int) {
    forall i :: 0 <= i < |r| ==> GroupFits(r, i, budget)
  }

  /**
   * Group i is not empty, stays within the budget when it holds two or more
   * paragraphs, and, unless it is the last, was closed only because the
   * first paragraph of group i + 1 would have taken it over the budget.
   */
  predicate GroupFits(r: seq<seq<string>>, i: int, budget: int)
    requires 0 <= i < |r|
  {
    && |r[i]| > 0
    && (|r[i]| >= 2 ==> TotalWords(r[i]) <= budget)
    && (i < |r| - 1 ==> |r[i + 1]| > 0 && TotalWords(r[i]) + WordCount(r[i + 1][0]) > budget)
  }

  /** Closing the group `cur` in front of packed groups that overflow it keeps them packed. */
  lemma CloseGroup(cur: seq<string>, rest: seq<seq<string>>, budget: int)
    requires |cur| > 0 && (|cur| >= 2 ==> TotalWords(cur) <= budget)
    requires |rest| > 0 && |rest[0]| > 0 && TotalWords(cur) + WordCount(rest[0][0]) > budget
    requires Packed(rest, budget)
    ensures Packed([cur] + rest, budget)
  {
    var r := [cur] + rest;
    forall i | 0 <= i < |r| ensures GroupFits(r, i, budget) {
      if i == 0 {
        FrontFits(cur, rest, budget);
      } else {
        ShiftFits(cur, rest, budget, i - 1);
      }
    }
  }

  lemma FrontFits(cur: seq<string>, rest: seq<seq<string>>, budget: int)
    requires |cur| > 0 && (|cur| >= 2 ==> TotalWords(cur) <= budget)
    requires |rest| > 0 && |rest[0]| > 0 && TotalWords(cur) + WordCount(rest[0][0]) > budget
    ensures GroupFits([cur] + rest, 0, budget)
  {
    var r := [cur] + rest;
    assert r[0] == cur;
    assert r[1] == rest[0];
    assert r[1][0] == rest[0][0];
  }

  /** Putting a group in front moves every group one place on without changing whether it fits. */
  lemma ShiftFits(cur: seq<string>, rest: seq<seq<string>>, budget: int, i: int)
    requires 0 <= i < |rest| && GroupFits(rest, i, budget)
    ensures GroupFits([cur] + rest, i + 1, budget)
  {
    var r := [cur] + rest;
    assert r[i + 1] == rest[i];
    if i < |rest| - 1 {
      assert r[i + 2] == rest[i + 1];
    }
  }

  lemma FlattenCons(g: seq<string>, gs: seq<seq<string>>)
    ensures Flatten([g] + gs) == g + Flatten(gs)
  {
    assert ([g] + gs)[1..] == gs;
  }

  /** The paragraph groups `split_into_chunks` forms from a text under a budget. */
  function Groups(text: string, budget: int): (r: seq<seq<string>>)
    ensures |r| >= 1
    ensures Flatten(r) == Split(Strip(text))
    ensures Packed(r, budget)
  {
    Fill(Split(Strip(text)), budget, [], 0)
  }

  /** `split_into_chunks(text, chunk_size)`: one chunk per group, its paragraphs joined by a blank line. */
  function SplitIntoChunks(text: string, budget: int): (r: seq<string>)
    ensures |r| == |Groups(text, budget)| && |r| >= 1
    ensures forall i :: 0 <= i < |r| ==> r[i] == Join(Groups(text, budget)[i], "\n\n")
  {
    var gs := Groups(text, budget);
    seq(|gs|, i requires 0 <= i < |gs| => Join(gs[i], "\n\n"))
  }

  // ---------------------------------------------------------------------
  // Lemmas
  // ---------------------------------------------------------------------

  lemma {:induction false} TotalWordsSnoc(g: seq<string>, p: string)
    ensures TotalWords(g + [p]) == TotalWords(g) + WordCount(p)
    decreases |g|
  {
    if |g| > 0 {
      assert (g + [p])[1..] == g[1..] + [p];
      TotalWordsSnoc(g[1..], p);
    } else {
      assert g + [p] == [p];
    }
  }

  /** A blank or whitespace-only text gives one empty chunk, not none. */
  lemma BlankText(text: string)
    requires AllSpace(text)
    ensures SplitIntoChunks(text, ChunkSize) == [""]
  {
    StripEmpty(text);
    assert Find("", 0) == 0;
    assert Split("") == [""];
    assert WordCount("") == 0;
    var gs := Groups(text, ChunkSize);
    assert gs == Fill([], ChunkSize, [""], 0);
    assert gs == [[""]];
  }

  /** Joining the groups of a split with blank lines between groups is joining all their paragraphs. */
  lemma {:induction false} JoinFlatten(gs: seq<seq<string>>, sep: string)
    requires forall i :: 0 <= i < |gs| ==> |gs[i]| > 0
    ensures Join(seq(|gs|, i requires 0 <= i < |gs| => Join(gs[i], sep)), sep) == Join(Flatten(gs), sep)
    decreases |gs|
  {
    if |gs| > 1 {
      var tail := gs[1..];
      var js := seq(|gs|, i requires 0 <= i < |gs| => Join(gs[i], sep));
      var jt := seq(|tail|, i requires 0 <= i < |tail| => Join(tail[i], sep));
      assert js[1..] == jt;
      JoinFlatten(tail, sep);
      FlattenNonEmpty(tail);
      JoinAppend(gs[0], Flatten(tail), sep);
    } else if |gs| == 1 {
      assert Flatten(gs) == gs[0] + [];
      assert gs[0] + [] == gs[0];
    }
  }

  lemma {:induction false} FlattenNonEmpty(gs: seq<seq<string>>)
    requires |gs| > 0 && forall i :: 0 <= i < |gs| ==> |gs[i]| > 0
    ensures |Flatten(gs)| > 0
  {
    assert |gs[0]| > 0;
  }

  /** Joining the chunks with a blank line gives back the stripped text's paragraphs joined the same way. */
  lemma ChunksRejoin(text: string, budget: int)
    ensures Join(SplitIntoChunks(text, budget), "\n\n") == Join(Split(Strip(text)), "\n\n")
  {
    var gs := Groups(text, budget);
    forall i | 0 <= i < |gs| ensures |gs[i]| > 0 {
      assert GroupFits(gs, i, budget);
    }
    JoinFlatten(gs, "\n\n");
    assert SplitIntoChunks(text, budget) == seq(|gs|, i requires 0 <= i < |gs| => Join(gs[i], "\n\n"));
  }

  /** Splitting a chunk at blank lines gives back the paragraphs packed into it. */
  lemma ChunkResplit(text: string, budget: int, i: int)
    requires 0 <= i < |Groups(text, budget)|
    ensures Split(SplitIntoChunks(text, budget)[i]) == Groups(text, budget)[i]
  {
    var gs := Groups(text, budget);
    GroupNonEmpty(gs, i, budget);
    GroupResplit(Strip(text), gs, i);
  }

  /** A non-empty group of paragraphs laid out in order over the split of s comes back from splitting its join. */
  lemma GroupResplit(s: string, gs: seq<seq<string>>, i: int)
    requires Flatten(gs) == Split(s) && 0 <= i < |gs| && |gs[i]| > 0
    ensures Split(Join(gs[i], "\n\n")) == gs[i]
  {
    var a := FlattenSlice(gs, i);
    SplitRejoinRun(s, gs[i], a);
  }

  /** Every group of a packing holds at least one paragraph. */
  lemma GroupNonEmpty(gs: seq<seq<string>>, i: int, budget: int)
    requires Packed(gs, budget) && 0 <= i < |gs|
    ensures |gs[i]| > 0
  {
    assert GroupFits(gs, i, budget);
  }

  /** Each group sits in the flattened sequence as one contiguous run, starting at offset a. */
  lemma {:induction false} FlattenSlice(gs: seq<seq<string>>, i: int) returns (a: nat)
    requires 0 <= i < |gs|
    ensures a + |gs[i]| <= |Flatten(gs)| && Flatten(gs)[a..a + |gs[i]|] == gs[i]
    decreases |gs|
  {
    var f := Flatten(gs[1..]);
    assert Flatten(gs) == gs[0] + f;
    if i == 0 {
      a := 0;
      assert Flatten(gs)[..|gs[0]|] == gs[0];
    } else {
      var b := FlattenSlice(gs[1..], i - 1);
      a := |gs[0]| + b;
      assert Flatten(gs)[a..a + |gs[i]|] == f[b..b + |gs[i]|];
    }
  }
}
