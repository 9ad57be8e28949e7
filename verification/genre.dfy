/**
 * `get_genre_guidance` (lit_annotator/__main__.py): a fixed table from genre
 * labels to a sentence of annotation guidance, with every label outside the
 * table falling back to the `"other"` entry. The lookup is exact: no case
 * folding or trimming happens here (the genre reply is lowered and stripped
 * before it reaches the table).
 */
module Genre {

  /** The fallback label. */
  const Other: string := "other"

  /** `guidance_map`. */
  const Guidance: map<string, string> := map[
    "literary fiction" := "Focus on subtle emotional tone, literary metaphors, and abstract expressions.",
    "sci-fi" := "Explain technical or futuristic terms and unfamiliar concepts clearly.",
    "fantasy" := "Clarify mythical elements, symbolic terms, or invented vocabulary.",
    "philosophy" := "Emphasise logical structure, abstract concepts, and difficult sentence constructions.",
    "biography" := "Focus on historical references and less common vocabulary.",
    "thriller" := "Clarify idiomatic suspense language or psychological tension.",
    "romance" := "Highlight emotional tone and cultural idioms.",
    "academic writing" := "Explain formal constructions, logical connectors, and field-specific vocabulary.",
    "self-help" := "Clarify abstract motivational language and practical expressions.",
    "children's book" := "Add only minimal annotation \U{2014} focus on occasionally unfamiliar terms.",
    "other" := "Annotate as usual based on clarity and learner needs."
  ]

  /** The labels the genre-detection prompt asks the model to choose from, in the order it lists them. */
  const PromptLabels: seq<string> := [
    "literary fiction", "sci-fi", "fantasy", "philosophy", "biography", "thriller",
    "romance", "academic writing", "self-help", "children's book", "other"
  ]

  /**
   * `get_genre_guidance(genre)`: total over all strings; the answer is
   * always one of the table's sentences, a listed label gets the entry
   * stored under it, and every other label gets the `"other"` sentence.
   */
  function GenreGuidance(genre: string): (r: string)
    ensures r in Guidance.Values
    ensures genre in Guidance ==> r == Guidance[genre]
    ensures genre !in Guidance ==> r == Guidance[Other]
  {
    if genre in Guidance then Guidance[genre] else Guidance[Other]
  }

  /** The table has exactly the labels the detection prompt offers, so every valid reply has its own entry. */
  lemma LabelsMatchPrompt()
    ensures forall g :: g in Guidance <==> g in PromptLabels
  {
  }

  /** No two labels share a sentence: the guidance tells the genre apart. */
  lemma GuidanceDistinct()
    ensures forall a, b :: a in Guidance && b in Guidance && Guidance[a] == Guidance[b] ==> a == b
  {
  }

  /**
   * The `"other"` sentence comes back exactly for the label `"other"` and for
   * every string outside the table, the empty string included.
   */
  lemma FallBack(genre: string)
    ensures GenreGuidance(genre) == Guidance[Other] <==> genre == Other || genre !in Guidance
  {
    GuidanceDistinct();
  }

  /** The lookup is case- and space-sensitive: a label that differs only in case or padding falls back. */
  lemma ExactLookup()
    ensures GenreGuidance("sci-fi") == "Explain technical or futuristic terms and unfamiliar concepts clearly."
    ensures GenreGuidance("Sci-Fi") == "Annotate as usual based on clarity and learner needs."
    ensures GenreGuidance(" fantasy") == "Annotate as usual based on clarity and learner needs."
    ensures GenreGuidance("") == "Annotate as usual based on clarity and learner needs."
  {
  }
}
