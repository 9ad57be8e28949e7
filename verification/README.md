# lit_annotator, the text-processing core, in Dafny

lit_annotator annotates an English book for learners. It cuts the book into
chunks of whole paragraphs under a word budget. Each chunk goes to a
language-model service, which adds Obsidian-style footnotes (`[^n]`
references and `[^n]:` definitions). Each reply's footnotes are renumbered
so the numbers run on from one chunk to the next. The replies are then
joined with a blank line. The service is also told which genre the book
belongs to, as a sentence of guidance picked from a fixed table.

This project models the pure part of that pipeline and proves properties
of the model:

- `Text`: Python's `str.strip()`, `str.split()` and `sep.join(...)`.
  Whitespace is the character set `str.isspace` accepts.
- `Paragraphs`: `re.split(r'\n\s*\n', ...)`. This is the leftmost, greedy
  blank-line match, written as a direct scanner.
- `Chunker`: `split_into_chunks` and its greedy packing loop.
- `Numerals`: footnote ids as digit strings, with `int(...)` and `str(...)`,
  and `sorted(set(ids), key=int)`.
- `Footnotes`: `normalize_footnotes`.
  - The marker scan is modelled both on characters and on a token reading
    (`Tokenize`: plain characters and `[^id]` markers).
  - A marker is a definition when `:` follows it.
  - One `re.sub` per pattern (`Substitute`), including the `(?!:)` look-ahead.
  - The mapping from old ids to consecutive numbers.
  - The sequential rewriting loop (`Renames`).
- `Renumber`: a one-pass renumbering. Every marker is read once and
  rewritten to its mapped number. This is the corrected form of the
  rewriting loop (see Findings).
- `Threading`: the counter-threading loop of `process_file`. It is a left
  fold over the chunks, for any renumbering that advances the counter by a
  per-reply count.
- `Pipeline`: the loop with the real renumbering, `footnote_counter`
  starting at 1, and the whole text-to-text path of `process_file`.
- `Genre`: `get_genre_guidance`.

The annotation service and the genre detector are network calls, so they
are parameters: a function from (guidance, chunk) to the reply, and the
detected genre string.

A blank or whitespace-only document is not skipped. The code strips the
text, and `re.split` of the empty string gives `[""]`, so such a document
gives one empty chunk (`Chunker.BlankText`). That empty chunk is still sent
to the service, and its renumbered reply is the written text
(`Pipeline.ProcessBlank`).

## Model

| member | source | states |
|---|---|---|
| Text.Strip | lit_annotator/__main__.py:127 | `text.strip()` returns a slice of the text. Only whitespace is cut off on either side, and the result neither starts nor ends with whitespace. |
| Text.StripEmpty | lit_annotator/__main__.py:127 | The stripped text is empty exactly when the text is all whitespace. |
| Text.StripIdempotent | lit_annotator/__main__.py:127 | Stripping twice is stripping once. |
| Text.Words | lit_annotator/__main__.py:133 | Every word `para.split()` returns is non-empty and holds no whitespace. |
| Text.WordsVisible | lit_annotator/__main__.py:133 | The words laid end to end are exactly the text's non-whitespace characters, in order: splitting drops whitespace and nothing else. |
| Text.WordsSplitAt | lit_annotator/__main__.py:133 | Cutting a text at a whitespace character splits its word list there, so word counts add up across such a cut. |
| Text.Join | lit_annotator/__main__.py:135 | `sep.join([])` is the empty string, and a non-empty join starts with its first part. |
| Text.JoinLength | lit_annotator/__main__.py:135 | The length of `sep.join(ps)` is the parts' lengths plus one separator between each two parts. |
| Paragraphs.Split | lit_annotator/__main__.py:127 | `re.split` returns at least one piece, one more than the separators it consumes, and the first piece is a prefix of the text. |
| Paragraphs.SplitRebuild | lit_annotator/__main__.py:127 | Putting the consumed separators back between the paragraphs gives back the text, so the split loses and reorders nothing. |
| Paragraphs.SplitSeparators | lit_annotator/__main__.py:127 | Every separator the split consumes is a match of `\n\s*\n`: a newline, whitespace, and a newline. |
| Paragraphs.SplitNoBlankLine | lit_annotator/__main__.py:127 | No paragraph contains a blank line, so the split does not miss a match. |
| Paragraphs.SplitLeftmost | lit_annotator/__main__.py:127 | No paragraph but the last ends in a newline followed by whitespace, so each match starts at the leftmost possible newline. |
| Paragraphs.SplitGreedy | lit_annotator/__main__.py:127 | No paragraph after a separator starts with whitespace followed by a newline, so each match runs to the last newline of its whitespace run. |
| Paragraphs.SplitInnerVisible | lit_annotator/__main__.py:127 | No paragraph strictly between the first and the last is all whitespace. |
| Paragraphs.SplitSeparable | lit_annotator/__main__.py:127 | Every paragraph of a split meets the conditions under which a blank-line join splits back into the same paragraphs. |
| Paragraphs.SplitJoin | lit_annotator/__main__.py:127 | Splitting the blank-line join of one or more paragraphs gives those paragraphs back, provided none holds a blank line, none but the last ends in a newline and whitespace, none but the first starts with whitespace and a newline, and none in the middle is all whitespace. |
| Paragraphs.SplitRejoinRun | lit_annotator/__main__.py:127 | Splitting the blank-line join of any run of consecutive paragraphs of a split gives that run back. |
| Chunker.Fill | lit_annotator/__main__.py:132-142 | The loop from any state: the groups it appends, laid end to end, are the open group followed by the unread paragraphs. It produces no group exactly when there is nothing to emit. Every group is non-empty. A group of two or more paragraphs stays within the budget. Each group was closed only because the next group's first paragraph would have taken it over the budget. |
| Chunker.Groups | lit_annotator/__main__.py:126-142 | The paragraph groups of a text: at least one group. Laid end to end they are the stripped text's paragraphs in order, with nothing dropped or repeated, and they are packed greedily as `Fill` states. |
| Chunker.SplitIntoChunks | lit_annotator/__main__.py:126-144 | There is at least one chunk, and chunk i is group i's paragraphs joined by a blank line. |
| Chunker.BlankText | lit_annotator/__main__.py:127-144 | A blank or whitespace-only text gives exactly one empty chunk. |
| Chunker.ChunksRejoin | lit_annotator/__main__.py:126-144 | Joining the chunks with a blank line gives the stripped text's paragraphs joined with a blank line. |
| Chunker.ChunkResplit | lit_annotator/__main__.py:126-144 | For every text, splitting chunk i at blank lines gives back the paragraphs packed into it. |
| Numerals.Show | lit_annotator/__main__.py:177 | `str(n)` of a non-negative n is a digit string without a superfluous leading zero whose `int` is n. A negative n is written with a minus sign. |
| Numerals.CanonicalByValue | lit_annotator/__main__.py:175 | Two ids written as `str` writes them are equal exactly when their `int` values are. |
| Numerals.ShowValue | lit_annotator/__main__.py:177 | `str(int(s)) == s` for every digit string without a superfluous leading zero. |
| Numerals.SortDistinct | lit_annotator/__main__.py:175 | `sorted(set(ids), key=int)` is ascending under the numeric order, has no duplicates, and holds exactly the ids given. |
| Numerals.AscendingUnique | lit_annotator/__main__.py:175 | Two ascending id sequences with the same elements are equal, so the sorted distinct ids are unique. |
| Footnotes.Tokenize | lit_annotator/__main__.py:18-19 | Every marker the scan reads carries a non-empty ASCII digit id, as `\d+` matches it. |
| Footnotes.RenderTokenize | lit_annotator/__main__.py:18-19 | The token reading is faithful: writing the tokens back out gives the text. |
| Footnotes.SubstituteTokenizes | lit_annotator/__main__.py:181-182 | One `re.sub` call (`Substitute`) rewrites exactly the markers of its kind whose whole id is `old`. `[^1]` never touches `[^10]`, definitions stay definitions, and no other character changes. |
| Footnotes.PassTokenizes | lit_annotator/__main__.py:180-182 | One iteration of the rewriting loop (`Pass`), the definition pattern and then the reference pattern, renames every marker with id `old` of either kind. |
| Footnotes.RenamesTokenize | lit_annotator/__main__.py:180-182 | The string rewriting loop (`Renames`) and the same loop on tokens agree, pass by pass. |
| Footnotes.DistinctIds | lit_annotator/__main__.py:169-175 | The ids the loop walks are ascending by value and are exactly the ids among references and definitions. |
| Footnotes.Mapping | lit_annotator/__main__.py:172-178 | The mapping's keys are exactly the referenced or defined ids. Each id is sent to `start_number` plus the number of keys below it, so the smallest id gets `start_number` and the targets are consecutive. |
| Footnotes.Normalize | lit_annotator/__main__.py:168-184 | The returned counter is `start_number` plus the number of distinct ids among references and definitions. |
| Footnotes.CleanNoClash | lit_annotator/__main__.py:175-182 | When every old id lies below `start_number`, or every old id is written as `str` writes it and lies at or above a non-negative `start_number`, no pass of the loop writes a number that a later pass looks for. |
| Footnotes.RenamesSimultaneous | lit_annotator/__main__.py:180-182 | When no pass writes a number a later pass looks for, the sequential passes amount to one simultaneous renaming by the mapping. |
| Footnotes.CleanRename | lit_annotator/__main__.py:180-184 | From a clean start (every old id below `start_number`, or every old id in `str` form at or above a non-negative `start_number`), each marker of either kind ends up with `str(mapping[id])`, and every other character, the `:` of each definition included, stays where it was. |
| Footnotes.NormalizeRange | lit_annotator/__main__.py:168-184 | For any `start_number >= 0`, every marker in the output carries a number in `[start_number, counter)`, written as `str` writes it. |
| Footnotes.NoMarkers | lit_annotator/__main__.py:169-184 | The counter comes back unchanged exactly when the text has no marker, and such a text comes back unchanged. |
| Footnotes.CleanIds | lit_annotator/__main__.py:168-184 | After a renumbering from a clean start, the output's distinct ids are exactly `str(start)` up to `str(counter - 1)`. |
| Footnotes.NormalizeKeeps | lit_annotator/__main__.py:168-184 | A text whose distinct ids are already `str(a)` up to `str(a + n - 1)` comes back unchanged from `start_number` a, with counter a + n. |
| Footnotes.NormalizeIdempotent | lit_annotator/__main__.py:168-184 | Renumbering the output of a renumbering from a clean start again, from the same `start_number`, returns the same text and counter. |
| Footnotes.FirstChunkKept | lit_annotator/__main__.py:168-184 | `normalize_footnotes("[^1] [^2]", 1)` returns `("[^1] [^2]", 3)`: a first reply numbered from 1 keeps its numbers. |
| Footnotes.ChainCollapse | lit_annotator/__main__.py:180-182 | As written, `normalize_footnotes("[^1] [^2]", 2)` returns `("[^3] [^3]", 4)`: two footnotes merge. |
| Renumber.OnePass | lit_annotator/__main__.py:168-184 | The one-pass renumbering returns the same counter as the source. |
| Renumber.ReplaceTokenizes | lit_annotator/__main__.py:180-182 | The one-pass scan rewrites exactly the markers whose id is a mapping key, each to its target, and leaves every other character alone. |
| Renumber.OnePassRenames | lit_annotator/__main__.py:180-182 | For every `start_number >= 0`, each marker of either kind ends up with `str(mapping[id])`. |
| Renumber.OnePassSeparates | lit_annotator/__main__.py:175-182 | Two markers share a number after renumbering exactly when they shared an id before it. |
| Renumber.OnePassRange | lit_annotator/__main__.py:168-184 | Every marker in the output carries a number in `[start_number, counter)`. |
| Renumber.OnePassNoMarkers | lit_annotator/__main__.py:169-184 | A text without markers comes back unchanged, with the counter unchanged. |
| Renumber.CleanAgrees | lit_annotator/__main__.py:168-184 | From a clean start, the source's sequential passes and the one-pass scan return the same text and counter. |
| Renumber.NoCollapse | lit_annotator/__main__.py:180-182 | The one-pass scan renumbers `"[^1] [^2]"` from 2 to `("[^2] [^3]", 4)`. |
| Threading.Thread | lit_annotator/__main__.py:204-211 | The loop produces one output per chunk. The final counter is the first counter plus every reply's count. |
| Threading.ThreadOutputs | lit_annotator/__main__.py:207-211 | Chunk i's output is its reply renumbered from the counter left by the replies before it, in chunk order. |
| Threading.CounterMonotone | lit_annotator/__main__.py:210 | The counter handed to the chunks never decreases along the chunks. |
| Pipeline.NormalizeWith | lit_annotator/__main__.py:210 | Either renumbering advances `footnote_counter` by the reply's number of distinct ids. |
| Pipeline.Run | lit_annotator/__main__.py:204-211 | Starting at 1, the loop produces one output per chunk and ends at 1 plus the replies' distinct-id counts. |
| Pipeline.RunOutputs | lit_annotator/__main__.py:207-211 | Chunk i is renumbered from `Start(i)`, chunk i + 1 from `Start(i)` plus chunk i's count, and the final counter is the start past the last chunk. |
| Pipeline.OutputRange | lit_annotator/__main__.py:204-211 | Every marker in chunk i's output has a number in `[Start(i), Start(i + 1))`. The chunks' ranges are consecutive and cover `[1, final counter)`. |
| Pipeline.OutputsDisjoint | lit_annotator/__main__.py:204-211 | No footnote number appears in the outputs of two different chunks. |
| Pipeline.CleanRunsAgree | lit_annotator/__main__.py:204-211 | When a reply's ids all lie below its start counter, or are all in `str` form at or above it (a first reply numbered from 1, say), the source's loop and the one-pass loop write the same output for that chunk. |
| Pipeline.OneScanSeparates | lit_annotator/__main__.py:204-211 | With the one-pass renumbering, two markers of a chunk's reply share a number in the output exactly when they shared an id in the reply. |
| Pipeline.NoFootnotes | lit_annotator/__main__.py:204-211 | A reply without markers is written out as it came and leaves the counter where it was. |
| Pipeline.ProcessTextChunks | lit_annotator/__main__.py:193-213 | The written text is the renumbered replies joined by a blank line: one reply per chunk, each asked for with the genre's guidance, and chunk i's reply renumbered from the counter the replies before it left. |
| Pipeline.ProcessBlank | lit_annotator/__main__.py:193-213 | A blank document still produces one service call with the empty chunk. The written text is that reply renumbered from 1. |
| Genre.GenreGuidance | lit_annotator/__main__.py:59-73 | The lookup is total: the answer is always one of the table's sentences, a listed label gets its own entry, and any other string gets the `"other"` entry. |
| Genre.FallBack | lit_annotator/__main__.py:73 | The `"other"` sentence comes back exactly for `"other"` and for every string outside the table, the empty string included. |
| Genre.LabelsMatchPrompt | lit_annotator/__main__.py:48-72 | The table's labels are exactly the labels the genre-detection prompt offers. |
| Genre.ExactLookup | lit_annotator/__main__.py:59-73 | The lookup is exact: `"Sci-Fi"`, `" fantasy"` and `""` fall back. |

## Left out

- The retry decorator (lines 22-33): exception control flow and `time.sleep`.
- The OpenAI calls, `detect_genre_intro` and `annotate_chunk_with_prompt` (lines 35-57, 146-166). They are network calls. The reply is a function parameter and the genre is a string parameter.
- The parsing of the genre reply (line 56). It depends on model output and on Unicode `lower()`/`strip()`.
- The prompt template and its rendering (lines 75-124, 148, 202). These are content, not logic. The model hands the guidance sentence and the chunk to the service parameter.
- File reading and writing, the overwrite warning, the progress messages, `argparse`, `load_dotenv` and the client setup (lines 11-12, 186-200, 213-224).
- Unicode digits: Python's `\d` and `int()` accept every Unicode decimal digit. Ids here are ASCII digit strings.
- Numerals.Value: total on every digit string. CPython's `int()` raises `ValueError` on a string of more than 4300 digits (its default limit on integer string conversion), so `sorted(..., key=int)` at line 175 fails on such an id; the model does not raise.
- Numerals.SortDistinct: when two ids differ only in leading zeros (`"01"` and `"1"`), Python's sort keeps the set's iteration order, which depends on string hashing. The model puts the shorter id first.
- The pairing of references with definitions is not checked, as in the source: an unpaired marker is renumbered like any other.
- A negative `start_number`: the source's loop always passes a counter of at least 1. Lemmas about the output range assume `start_number >= 0`, since a negative number would be written with a minus sign and would no longer match the marker pattern.

## Findings

| source | as written | input that shows it | evidently intended | confidence | as-written member | corrected member |
|---|---|---|---|---|---|---|
| lit_annotator/__main__.py:180-182 | One `re.sub` pass per old id, in ascending order. A marker rewritten by an early pass is rewritten again by a later pass whose old id equals its new number. | `normalize_footnotes("[^1] [^2]", 2)` returns `("[^3] [^3]", 4)`: two distinct footnotes merge, and number 2 is never used. | Each marker is renamed once, simultaneously: `("[^2] [^3]", 4)`. The passes collide when a new number `start_number + j` equals an old id renamed after it: for ids 1 to n, any counter from 2 to n, that is, a reply whose ids straddle the running counter. | not executed | Footnotes.ChainCollapse | Renumber.NoCollapse |

The corrected renumbering, `Renumber.OnePass`, has the following properties:

- It keeps footnotes apart for every `start_number` (`Renumber.OnePassSeparates`).
- It agrees with the source whenever the source's clean-rename condition holds (`Renumber.CleanAgrees`).
- `Pipeline` states the loop's properties for both renumberings.
