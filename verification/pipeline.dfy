/**
 * The annotation loop of `process_file` (lit_annotator/__main__.py): the
 * document is split into chunks, each chunk goes to the annotation service,
 * and each reply has its footnotes renumbered starting from the counter the
 * previous reply left, beginning at 1. The replies are joined with a blank
 * line.
 *
 * The annotation service (a network call) is a parameter: a function from
 * the genre guidance and a chunk to the reply. The genre itself comes from
 * another network call and is a parameter as well.
 */
module Pipeline {
  import opened Numerals
  import opened Footnotes
  import opened Renumber
  import opened Text
  import opened Chunker
  import opened Genre
  import opened Threading

  /** Which footnote renumbering a run uses: the source's sequential passes, or the one-pass scan. */
  datatype Renumbering = Sequential | OneScan

  /** Number of distinct footnote ids in a text, references and definitions together. */
  function Count(t: string): nat {
    |set x | x in RefIds(t) + DefIds(t)|
  }

  /** One call of the renumbering; both kinds return the counter advanced by the reply's distinct ids. */
  function NormalizeWith(how: Renumbering, t: string, start: int): (r: Normalized)
    ensures r.counter == start + Count(t)
  {
    match how
    case Sequential => Normalize(t, start)
    case OneScan => OnePass(t, start)
  }

  /** The chosen renumbering as a value, for the loop. */
  function Renumberer(how: Renumbering): (norm: (string, int) -> Normalized)
    ensures Advances(norm, Count)
  {
    (t, start) => NormalizeWith(how, t, start)
  }

  /** `process_file`'s loop with the chosen renumbering, `footnote_counter` starting at 1. */
  function Run(chunks: seq<string>, annotate: string -> string, how: Renumbering): (r: Annotated)
    ensures |r.outputs| == |chunks|
    ensures r.counter == 1 + Total(chunks, annotate, Count)
  {
    Thread(chunks, annotate, 1, Renumberer(how), Count)
  }

  /** The counter chunk i of a run is renumbered from: 1 plus the distinct-id counts of the replies before it. */
  function Start(chunks: seq<string>, annotate: string -> string, i: nat): (c: int)
    requires i <= |chunks|
    ensures c >= 1
  {
    CounterAt(chunks, annotate, Count, 1, i)
  }

  /**
   * `process_file` from the read text to the written text: chunks under
   * `CHUNK_SIZE`, the guidance for the detected genre handed to the service
   * with each chunk, renumbering from 1, replies joined by a blank line.
   */
  function ProcessText(text: string, genre: string, annotate: (string, string) -> string, how: Renumbering): string {
    var guidance := GenreGuidance(genre);
    var chunks := SplitIntoChunks(text, ChunkSize);
    Join(Run(chunks, c => annotate(guidance, c), how).outputs, "\n\n")
  }

  // ---------------------------------------------------------------------
  // Lemmas
  // ---------------------------------------------------------------------

  /** Chunk i's output is its reply renumbered from `Start(i)`, and the final counter is `Start` past the last chunk. */
  lemma RunOutputs(chunks: seq<string>, annotate: string -> string, how: Renumbering, i: nat)
    requires i < |chunks|
    ensures Run(chunks, annotate, how).outputs[i] == NormalizeWith(how, annotate(chunks[i]), Start(chunks, annotate, i)).text
    ensures Run(chunks, annotate, how).counter == Start(chunks, annotate, |chunks|)
    ensures Start(chunks, annotate, i + 1) == Start(chunks, annotate, i) + Count(annotate(chunks[i]))
  {
    ThreadOutputs(chunks, annotate, 1, Renumberer(how), Count, i);
    FinalCounter(chunks, annotate, 1, Renumberer(how), Count);
    CounterStep(chunks, annotate, Count, 1, i);
  }

  /**
   * Every footnote marker in chunk i's output carries a number in
   * `[Start(i), Start(i + 1))`: the chunks' ranges are consecutive and
   * together cover `[1, final counter)`.
   */
  lemma OutputRange(chunks: seq<string>, annotate: string -> string, how: Renumbering, i: nat)
    requires i < |chunks|
    ensures var out := Run(chunks, annotate, how).outputs[i];
      forall x :: x in MarkIds(Tokenize(out)) ==>
        Canonical(x) && Start(chunks, annotate, i) <= Value(x) < Start(chunks, annotate, i + 1)
  {
    var c := Start(chunks, annotate, i);
    var reply := annotate(chunks[i]);
    RunOutputs(chunks, annotate, how, i);
    match how {
      case Sequential => NormalizeRange(reply, c);
      case OneScan => OnePassRange(reply, c);
    }
  }

  /** No footnote number appears in the outputs of two different chunks. */
  lemma OutputsDisjoint(chunks: seq<string>, annotate: string -> string, how: Renumbering, i: nat, j: nat)
    requires i < j < |chunks|
    ensures var outs := Run(chunks, annotate, how).outputs;
      MarkIds(Tokenize(outs[i])) !! MarkIds(Tokenize(outs[j]))
  {
    var outs := Run(chunks, annotate, how).outputs;
    OutputRange(chunks, annotate, how, i);
    OutputRange(chunks, annotate, how, j);
    CounterMonotone(chunks, annotate, Count, 1, i + 1, j);
    forall x | x in MarkIds(Tokenize(outs[i]))
      ensures x !in MarkIds(Tokenize(outs[j]))
    {
      assert Value(x) < Start(chunks, annotate, j);
    }
  }

  /**
   * Where a reply's footnote ids all lie below the counter it is renumbered
   * from, or are all written as `str` writes them and lie at or above it
   * (a first reply numbered from 1, say), the source's loop and the
   * one-pass loop write the same output for that chunk.
   */
  lemma CleanRunsAgree(chunks: seq<string>, annotate: string -> string, i: nat)
    requires i < |chunks|
    requires CleanStart(annotate(chunks[i]), Start(chunks, annotate, i))
    ensures Run(chunks, annotate, Sequential).outputs[i] == Run(chunks, annotate, OneScan).outputs[i]
  {
    RunOutputs(chunks, annotate, Sequential, i);
    RunOutputs(chunks, annotate, OneScan, i);
    CleanAgrees(annotate(chunks[i]), Start(chunks, annotate, i));
  }

  /**
   * With the one-pass renumbering, two footnote markers of chunk i's reply
   * share a number in the output exactly when they shared an id in the
   * reply, whatever ids the service chose.
   */
  lemma OneScanSeparates(chunks: seq<string>, annotate: string -> string, i: nat, a: int, b: int)
    requires i < |chunks|
    requires var ts := Tokenize(annotate(chunks[i]));
      0 <= a < |ts| && 0 <= b < |ts| && ts[a].Mark? && ts[b].Mark?
    ensures var ts := Tokenize(annotate(chunks[i]));
      var u := Tokenize(Run(chunks, annotate, OneScan).outputs[i]);
      |u| == |ts| && u[a].Mark? && u[b].Mark? && (u[a].id == u[b].id <==> ts[a].id == ts[b].id)
  {
    RunOutputs(chunks, annotate, OneScan, i);
    OnePassSeparates(annotate(chunks[i]), Start(chunks, annotate, i), a, b);
  }

  /** A reply without footnote markers is written out as it came, and it leaves the counter where it was. */
  lemma NoFootnotes(chunks: seq<string>, annotate: string -> string, how: Renumbering, i: nat)
    requires i < |chunks|
    requires RefIds(annotate(chunks[i])) == [] && DefIds(annotate(chunks[i])) == []
    ensures Run(chunks, annotate, how).outputs[i] == annotate(chunks[i])
    ensures Start(chunks, annotate, i + 1) == Start(chunks, annotate, i)
  {
    RunOutputs(chunks, annotate, how, i);
    NormalizeWithNoMarkers(how, annotate(chunks[i]), Start(chunks, annotate, i));
  }

  /**
   * The written text is the renumbered replies joined by a blank line: one
   * reply per chunk, each asked for with the genre's guidance, and chunk
   * i's reply renumbered from the counter the replies before it left.
   */
  lemma ProcessTextChunks(text: string, genre: string, annotate: (string, string) -> string, how: Renumbering)
    ensures var chunks := SplitIntoChunks(text, ChunkSize);
      var service := c => annotate(GenreGuidance(genre), c);
      var outs := Run(chunks, service, how).outputs;
      && ProcessText(text, genre, annotate, how) == Join(outs, "\n\n")
      && |outs| == |chunks|
      && forall i :: 0 <= i < |chunks| ==>
           outs[i] == NormalizeWith(how, annotate(GenreGuidance(genre), chunks[i]), Start(chunks, service, i)).text
  {
    var chunks := SplitIntoChunks(text, ChunkSize);
    var service := c => annotate(GenreGuidance(genre), c);
    forall i | 0 <= i < |chunks|
      ensures Run(chunks, service, how).outputs[i] ==
        NormalizeWith(how, annotate(GenreGuidance(genre), chunks[i]), Start(chunks, service, i)).text
    {
      RunOutputs(chunks, service, how, i);
    }
  }

  /**
   * A blank or whitespace-only document still makes one call to the
   * annotation service, with the empty chunk, and the written text is that
   * reply renumbered from 1.
   */
  lemma ProcessBlank(text: string, genre: string, annotate: (string, string) -> string, how: Renumbering)
    requires AllSpace(text)
    ensures ProcessText(text, genre, annotate, how) == NormalizeWith(how, annotate(GenreGuidance(genre), ""), 1).text
  {
    var service := c => annotate(GenreGuidance(genre), c);
    BlankText(text);
    var chunks := SplitIntoChunks(text, ChunkSize);
    RunOutputs(chunks, service, how, 0);
    assert chunks[..0] == [];
    var outs := Run(chunks, service, how).outputs;
    assert Join(outs, "\n\n") == outs[0];
  }

  lemma NormalizeWithNoMarkers(how: Renumbering, t: string, start: int)
    requires RefIds(t) == [] && DefIds(t) == []
    ensures NormalizeWith(how, t, start) == Normalized(t, start)
  {
    match how {
      case Sequential => NoMarkers(t, start);
      case OneScan => OnePassNoMarkers(t, start);
    }
  }
}
