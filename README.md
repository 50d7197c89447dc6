# Length-bounded text chunker

This project models `split_text_into_chunks` from the audiobook generator. Before text goes to the speech service, the function cuts it into chunks of at most `max_length` characters (9500 by default). It works in four steps:

- A text that fits is returned whole.
- Otherwise the text is split on blank lines (`"\n\n"`) into paragraphs, which are packed greedily and joined by `"\n\n"`.
- A paragraph that is too long is split into sentences at the whitespace runs that follow `.`, `!` or `?`. The sentences are packed and joined by `" "`.
- A sentence that is still too long is cut in a loop: at the last space before offset `max_length`, or at `max_length` itself when there is none. Each piece is stripped and packed the same way.

The project has four modules:

- `TextOps` (`text_ops.dfy`) holds the string helpers the function relies on, each as a pure function with the facts the chunker needs:
  - Python's whitespace class;
  - `str.strip()`;
  - `str.rfind(' ', 0, end)`;
  - `str.split('\n\n')`;
  - the sentence splitter `re.split(r'(?<=[.!?])\s+', ...)`.
- `Packing` (`packing.dfy`) models the two accumulators `chunks` and `current_chunk`:
  - the greedy step `Pack` adds one unit (a paragraph, a sentence or a forced piece, with its separator);
  - `Run` packs a sequence of units from left to right;
  - `Finish` appends the last non-empty chunk.
- `Chunker` (`chunker.dfy`) holds two things:
  - `SplitText`, the specification. It turns the text into units and packs them.
  - `SplitTextIntoChunks`, the procedure itself, with its paragraph loop, its sentence loop and its cutting `while` loop. It is proved to return exactly `SplitText`.
- `ChunkerProperties` (`chunker_properties.dfy`) proves properties about whole runs: the paragraph round trip with its greedy grouping, and the worked example of a 20000-character text without whitespace.

## Model

| member | source | states |
|---|---|---|
| Chunker.SplitTextIntoChunks | generate_audiobook_from_chapters.py:63-141 | The loop-based procedure (paragraph loop, sentence loop, cutting loop, final flush) returns exactly the chunks `SplitText` specifies, for every text and every limit of at least 1 |
| Chunker.PackForcedPieces | generate_audiobook_from_chapters.py:90-117 | The cutting `while` loop and the packing of the remainder leave the accumulators exactly as packing the sentence's forced pieces, in order, would |
| Chunker.PackSentences | generate_audiobook_from_chapters.py:87-126 | The sentence loop over an over-long paragraph leaves the accumulators exactly as packing the units of its sentences would |
| Chunker.PackedText | generate_audiobook_from_chapters.py:78-141 | On the splitting path, every chunk is non-empty and within the limit, and the chunks hold the text's non-whitespace content in order |
| Chunker.SplitText | generate_audiobook_from_chapters.py:75-141 | A text that fits is returned as `[text]`, even when empty. Every chunk has at most `max_length` characters, forced mid-word pieces included. Once splitting starts, no chunk is empty. Deleting all whitespace from the concatenated chunks gives the input with all whitespace deleted, so no content is lost, duplicated or reordered |
| Packing.Pack | generate_audiobook_from_chapters.py:98-135 | Greedy flush rule: a chunk is emitted exactly when the current chunk is non-empty and the unit plus its separator (2 for a paragraph, 1 for a sentence or forced piece) would exceed the limit. The emitted chunk is the old current chunk. The unit ends the new current chunk. The length bound on `current_chunk` and the non-empty, in-bound chunk list are preserved |
| Packing.PackFlat | generate_audiobook_from_chapters.py:98-135 | A packing step keeps all text held before and adds the unit after it, with its separator only when it joins a non-empty current chunk |
| Packing.Finish | generate_audiobook_from_chapters.py:138-139 | The last chunk is appended exactly when it is non-empty, and nothing else changes |
| Packing.Run | generate_audiobook_from_chapters.py:84-135 | Packing a sequence of units from left to right only ever appends chunks, at most one per unit: the chunks already emitted stay as they were |
| Chunker.ForcedUnits | generate_audiobook_from_chapters.py:90-117 | The pieces the cutting loop packs for a sentence each fit the limit and are joined by `" "`. A sentence over the limit yields at least one piece, and an empty remainder is not packed |
| Chunker.SentenceUnits | generate_audiobook_from_chapters.py:88-126 | A sentence within the limit is packed whole as one unit joined by `" "`, even when empty; every unit of a sentence fits the limit and is joined by `" "` |
| Chunker.ParagraphUnits | generate_audiobook_from_chapters.py:84-135 | A paragraph within the limit is packed whole as one unit joined by `"\n\n"`; an over-long one becomes units joined by `" "`; every unit fits the limit |
| Packing.RunFits | generate_audiobook_from_chapters.py:92-139 | Packing units that each fit, from a state within bounds, yields only non-empty chunks within the limit |
| Packing.RunContent | generate_audiobook_from_chapters.py:82-139 | Packing drops only separators: the non-whitespace content of the result is that of the start state followed by that of the units, in order |
| Chunker.CutPoint | generate_audiobook_from_chapters.py:93-95 | The cut lies at the last space strictly before `max_length`, with no space between it and `max_length`, or at `max_length` itself when no space lies before it |
| Chunker.CutShrinks | generate_audiobook_from_chapters.py:92-107 | With a limit of at least 1, the stripped remainder after a cut is strictly shorter than the sentence, so the cutting loop terminates |
| Chunker.ZeroLimitStalls | generate_audiobook_from_chapters.py:92-107 | At a limit of 0 the cut falls at 0, and a sentence whose ends are not whitespace comes back unchanged, so the loop would never end. This is why the model requires a limit of at least 1 |
| Chunker.ForcedUnitsContent | generate_audiobook_from_chapters.py:90-117 | Cutting and stripping a sentence drops only whitespace |
| Chunker.ParagraphsUnitsContent | generate_audiobook_from_chapters.py:84-135 | Turning paragraphs into units (whole, by sentences, or by forced pieces) drops only whitespace |
| TextOps.Strip | generate_audiobook_from_chapters.py:97 | The result has no whitespace at either end and the same non-whitespace content. It is shorter when the input starts with whitespace, and it is the input itself when the input has no whitespace |
| TextOps.StripSlice | generate_audiobook_from_chapters.py:97 | The stripped text is a slice of the input with only a whitespace run before it and a whitespace run after it, so inner whitespace is kept. With `Strip`'s ends clause this determines `str.strip()` |
| TextOps.RFindSpace | generate_audiobook_from_chapters.py:93 | The result is -1 or the index of a space before `end`, and no space lies between it and `end` |
| TextOps.SplitParagraphs | generate_audiobook_from_chapters.py:82 | At least one piece. The first piece is a prefix of the text: all of it when it is the only piece, and followed by the separator `"\n\n"` when more pieces follow |
| TextOps.SplitParagraphsShape | generate_audiobook_from_chapters.py:82 | Leftmost, non-overlapping matching: no piece contains a blank line, and no piece but the last ends in a newline |
| TextOps.SplitParagraphsJoin | generate_audiobook_from_chapters.py:82 | Joining the paragraphs with `"\n\n"` gives back the text exactly |
| TextOps.SplitParagraphsNoNewline | generate_audiobook_from_chapters.py:82 | A text without newlines is a single paragraph |
| TextOps.SplitSentencesShape | generate_audiobook_from_chapters.py:87 | No sentence contains a sentence end followed by whitespace. Every sentence but the last is non-empty and ends in `.`, `!` or `?`, and no later sentence starts with whitespace |
| TextOps.SplitSentencesJoin | generate_audiobook_from_chapters.py:87 | Round trip: between consecutive sentences the splitter drops exactly one non-empty whitespace run, and putting the runs back gives the text. With `SplitSentencesShape`, each dropped run follows a sentence end and is maximal, so the text is cut at every sentence end followed by whitespace and nowhere else |
| TextOps.SplitSentencesContent | generate_audiobook_from_chapters.py:87 | Splitting into sentences drops only whitespace |
| TextOps.SplitSentencesNoSpace | generate_audiobook_from_chapters.py:87 | A text without whitespace is a single sentence |
| ChunkerProperties.ParagraphsUnitsFitting | generate_audiobook_from_chapters.py:86-127 | Paragraphs that are non-empty and fit are each packed whole, never by sentences |
| ChunkerProperties.RunParagraphs | generate_audiobook_from_chapters.py:127-135 | Packing fitting paragraphs keeps every chunk equal to a run of consecutive paragraphs joined by `"\n\n"`. Each chunk was closed only because the next paragraph would not fit behind it |
| ChunkerProperties.ParagraphRoundTrip | generate_audiobook_from_chapters.py:82-135 | When every paragraph is non-empty and fits: the chunks are the paragraphs, grouped greedily and in order, and joining the chunks with `"\n\n"` gives back the text exactly |
| ChunkerProperties.NoSpaceForcedUnits | generate_audiobook_from_chapters.py:92-107 | A sentence without whitespace is cut mid-word every `max_length` characters exactly, and nothing is stripped |
| ChunkerProperties.UnbrokenTextPieces | generate_audiobook_from_chapters.py:75-139 | A text longer than the limit and without whitespace is one paragraph of one sentence. Its chunks are exactly the packing of its fixed-width pieces |
| ChunkerProperties.FixedThreePieces | generate_audiobook_from_chapters.py:92-107 | Fixed-width cutting of a text longer than two limits and at most three gives two full pieces and the rest |
| ChunkerProperties.PackThreePieces | generate_audiobook_from_chapters.py:98-117 | Two full-length pieces and a short last piece each end up in a chunk of their own |
| ChunkerProperties.UnbrokenTextOfTwentyThousand | generate_audiobook_from_chapters.py:90-139 | 20000 characters without whitespace, at the default limit of 9500, give exactly three chunks: characters 0-9499, 9500-18999 and 19000-19999 |

## Left out

- `markdown_to_text` in both scripts: a chain of regular-expression substitutions whose meaning rests on Python's regex engine. Only the chunker is modelled.
- `generate_audio_for_chapter`: calls to the speech service, temporary files and audio decoding and concatenation. These are external I/O.
- `generate_audiobook_from_chapters`, `generate_audiobook` and `main`: environment variables, file reads and writes, the command line, exit codes, and floating-point size reporting. These are all I/O.
- The `VoiceSettings` parameters: floating-point configuration passed to a foreign service.
- SplitTextIntoChunks: requires `max_length >= 1`. At 0 the cutting loop never ends for some inputs (`ZeroLimitStalls`). A negative limit would make Python slice from the end of the string, which the model does not follow.
- SplitTextIntoChunks: the source runs the paragraph, sentence and cutting loops nested in one function. The model keeps the three loops but places the inner two in the methods `PackSentences` and `PackForcedPieces`.
- SplitTextIntoChunks: the source appends to the list `chunks` in place. The model reassigns a sequence value, so aliasing of that list is not modelled (the function creates the list itself and shares it with no one).
- TextOps.IsSpace: the whitespace class is Python's `str.isspace()` set of code points. The regex `\s` is taken to match the same set, which holds for `str` patterns.
