/**
 * The counter threading of `process_file` (lit_annotator/__main__.py), for
 * any renumbering that advances the counter by a per-reply count: the
 * counter starts at a given value, each chunk's reply is renumbered from the
 * counter the previous reply returned, and one output is kept per chunk, in
 * chunk order.
 */
module Threading {
  import opened Footnotes

  /** The counter `norm` returns is the one it was given plus `count` of the reply. */
  ghost predicate Advances(norm: (string, int) -> Normalized, count: string -> nat) {
    forall t, start :: norm(t, start).counter == start + count(t)
  }

  /** Result of the loop: the renumbered replies, and `footnote_counter` after the last one. */
  datatype Annotated = Annotated(outputs: seq<string>, counter: int)

  /** The counts of the replies to the given chunks, added up. */
  function Total(chunks: seq<string>, annotate: string -> string, count: string -> nat): nat
    decreases |chunks|
  {
    if |chunks| == 0 then 0 else count(annotate(chunks[0])) + Total(chunks[1..], annotate, count)
  }

  /**
   * The loop over the chunks, a left fold of the counter: each reply is
   * renumbered from the counter the previous one returned. One output per
   * chunk, and the final counter is the first plus every reply's count.
   */
  function Thread(chunks: seq<string>, annotate: string -> string, counter: int,
                  norm: (string, int) -> Normalized, count: string -> nat): (r: Annotated)
    requires Advances(norm, count)
    ensures |r.outputs| == |chunks|
    ensures r.counter == counter + Total(chunks, annotate, count)
    decreases |chunks|
  {
    if |chunks| == 0 then Annotated([], counter)
    else
      var n := norm(annotate(chunks[0]), counter);
      var rest := Thread(chunks[1..], annotate, n.counter, norm, count);
      Annotated([n.text] + rest.outputs, rest.counter)
  }

  /** The counter chunk i is renumbered from, when the loop starts at `first`. */
  function CounterAt(chunks: seq<string>, annotate: string -> string, count: string -> nat, first: int, i: nat): (c: int)
    requires i <= |chunks|
    ensures c >= first
  {
    first + Total(chunks[..i], annotate, count)
  }

  // ---------------------------------------------------------------------
  // Lemmas
  // ---------------------------------------------------------------------

  lemma {:induction false} TotalAppend(a: seq<string>, b: seq<string>, annotate: string -> string, count: string -> nat)
    ensures Total(a + b, annotate, count) == Total(a, annotate, count) + Total(b, annotate, count)
    decreases |a|
  {
    if |a| > 0 {
      assert (a + b)[0] == a[0];
      assert (a + b)[1..] == a[1..] + b;
      TotalAppend(a[1..], b, annotate, count);
    } else {
      assert a + b == b;
    }
  }

  /** The counter after chunk i is the counter before it plus chunk i's count. */
  lemma CounterStep(chunks: seq<string>, annotate: string -> string, count: string -> nat, first: int, i: nat)
    requires i < |chunks|
    ensures CounterAt(chunks, annotate, count, first, i + 1)
         == CounterAt(chunks, annotate, count, first, i) + count(annotate(chunks[i]))
  {
    assert chunks[..i + 1] == chunks[..i] + [chunks[i]];
    TotalAppend(chunks[..i], [chunks[i]], annotate, count);
    assert Total([chunks[i]], annotate, count) == count(annotate(chunks[i])) + Total([], annotate, count);
  }

  /** Counters never go down along the chunks. */
  lemma CounterMonotone(chunks: seq<string>, annotate: string -> string, count: string -> nat, first: int, i: nat, j: nat)
    requires i <= j <= |chunks|
    ensures CounterAt(chunks, annotate, count, first, i) <= CounterAt(chunks, annotate, count, first, j)
  {
    assert chunks[..j] == chunks[..i] + chunks[i..j];
    TotalAppend(chunks[..i], chunks[i..j], annotate, count);
  }

  lemma TotalCons(chunks: seq<string>, annotate: string -> string, count: string -> nat, i: nat)
    requires 0 < i <= |chunks|
    ensures Total(chunks[..i], annotate, count)
         == count(annotate(chunks[0])) + Total(chunks[1..][..i - 1], annotate, count)
  {
    assert chunks[..i][1..] == chunks[1..][..i - 1];
  }

  /** The outputs after the first are the fold over the remaining chunks, from the advanced counter. */
  lemma ThreadTail(chunks: seq<string>, annotate: string -> string, counter: int,
                   norm: (string, int) -> Normalized, count: string -> nat, i: nat)
    requires Advances(norm, count)
    requires 0 < i < |chunks|
    ensures Thread(chunks, annotate, counter, norm, count).outputs[i]
         == Thread(chunks[1..], annotate, counter + count(annotate(chunks[0])), norm, count).outputs[i - 1]
  {
  }

  /**
   * Chunk i's output is its reply renumbered from the counter the replies
   * before it leave: the fold hands every chunk its counter in chunk order.
   */
  lemma {:induction false} ThreadOutputs(chunks: seq<string>, annotate: string -> string, counter: int,
                                         norm: (string, int) -> Normalized, count: string -> nat, i: nat)
    requires Advances(norm, count)
    requires i < |chunks|
    ensures Thread(chunks, annotate, counter, norm, count).outputs[i]
         == norm(annotate(chunks[i]), CounterAt(chunks, annotate, count, counter, i)).text
    decreases i
  {
    if i > 0 {
      ThreadOutputs(chunks[1..], annotate, counter + count(annotate(chunks[0])), norm, count, i - 1);
      ThreadOutputsStep(chunks, annotate, counter, norm, count, i);
    } else {
      assert chunks[..0] == [];
    }
  }

  lemma ThreadOutputsStep(chunks: seq<string>, annotate: string -> string, counter: int,
                          norm: (string, int) -> Normalized, count: string -> nat, i: nat)
    requires Advances(norm, count)
    requires 0 < i < |chunks|
    requires var next := counter + count(annotate(chunks[0]));
      Thread(chunks[1..], annotate, next, norm, count).outputs[i - 1]
      == norm(annotate(chunks[1..][i - 1]), CounterAt(chunks[1..], annotate, count, next, i - 1)).text
    ensures Thread(chunks, annotate, counter, norm, count).outputs[i]
         == norm(annotate(chunks[i]), CounterAt(chunks, annotate, count, counter, i)).text
  {
    ThreadTail(chunks, annotate, counter, norm, count, i);
    TotalCons(chunks, annotate, count, i);
    assert chunks[1..][i - 1] == chunks[i];
  }

  /** The final counter is the first plus the counts of all replies. */
  lemma FinalCounter(chunks: seq<string>, annotate: string -> string, counter: int,
                     norm: (string, int) -> Normalized, count: string -> nat)
    requires Advances(norm, count)
    ensures Thread(chunks, annotate, counter, norm, count).counter == CounterAt(chunks, annotate, count, counter, |chunks|)
  {
    assert chunks[..|chunks|] == chunks;
  }
}
