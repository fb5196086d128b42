# Text chunker, modelled and proved in Dafny

This project models the `TextChunker` class of `Chunker.py`, which splits a
document into ordered, numbered chunks that overlap. The new part of every
chunk is made of whole paragraphs; the overlap at its head is a raw tail of
the previous buffer and may begin in the middle of a paragraph. A chunk stays
within `max_chars` unless it is the carried overlap followed by a single
paragraph: the size is not checked again after the overlap is prepended, so
a chunk overflows when that paragraph alone, or the overlap plus that
paragraph, is longer than the limit. The model covers:

- the validating constructor, which accepts an overlap rate strictly between
  0 and 1 and derives the overlap length as `floor(max_chars * overlap_rate)`;
  it fails with a `ChunkingError` otherwise;
- the paragraph splitter, which splits on `"\n"`, drops blank lines, strips
  the others and appends `"\n\n"` to each;
- the chunk record, holding the index, the stripped buffer and the length of
  the unstripped buffer;
- the greedy packing loop. It grows a buffer while it stays within
  `max_chars`. When the next paragraph does not fit, it emits the buffer (if
  it is not blank) and starts a new buffer: the last `overlap_chars`
  characters of the old buffer, followed by that paragraph.

Files:

- `wrappers.dfy`: `Option` and `Result`.
- `pystr.dfy` (module `PyStr`): Python string operations on `seq<char>`.
  - The chunker calls `strip()`, `split("\n")` and `s[-k:]`.
  - `IsWhitespace` is the exact set of code points that `strip()` removes
    (the ones `str.isspace` accepts).
  - `Join` (`"\n".join`) is not called by the chunker: it is the inverse of
    `split("\n")`, used to specify it.
  - `Concat` (`"".join`) is not called either: it states that no paragraph
    is lost.
  - Their algebra: round trips, idempotence, characterisations.
- `chunker.dfy` (module `Chunker`): the chunker itself.
  - `TextChunker` is a datatype, because the constructor only sets two fields
    that never change.
  - `TextChunker.ChunkText` is the chunking loop as an imperative method. It
    is proved equal to `TextChunker.Chunked`, the same computation written as
    a fold (`Pack` over the paragraphs, then `Buffers` and `Numbered`).
  - The lemmas at the end state what every emitted buffer and chunk
    satisfies.

The constructor does not validate `max_chars`, although it is meant as a
positive maximum chunk size. The model follows the code: `New` accepts any
integer limit. Its contract states what then happens: a limit of zero or less
yields an overlap length of zero or less, so no overlap is carried.

## Model

| member | source | states |
|---|---|---|
| Chunker.New | Chunker.py:7-20 | fails with the `ChunkingError` "Overlap rate must be between 0 and 1" exactly when the rate is not strictly between 0 and 1; otherwise keeps `max_chars`, and the overlap length is the floor of `max_chars * overlap_rate` (at most the product, which is less than it plus 1); the overlap lies in `[0, max_chars)` for a positive limit and is at most 0 otherwise |
| Chunker.DefaultConfiguration | Chunker.py:7-20 | the defaults (4000 characters, rate 0.1) give a chunker with an overlap of 400 characters |
| PyStr.IsWhitespace | Chunker.py:35 | the characters `str.strip()` removes and `str.isspace` accepts: tab through carriage return, the file, group, record and unit separators, space, next line, no-break space, ogham space mark, the spaces U+2000 to U+200A, line and paragraph separators, narrow no-break space, medium mathematical space and ideographic space |
| PyStr.Strip | Chunker.py:35 | `str.strip()` is no longer than its argument; it is empty exactly when the argument is all whitespace; otherwise it begins and ends with a non-whitespace character |
| PyStr.StripSlice | Chunker.py:48 | what `strip()` removes is whitespace only: the result is the slice of the argument between a blank prefix and a blank suffix |
| PyStr.StripOf | Chunker.py:48 | any string with blank margins and no whitespace at either end of its middle part strips to that middle part |
| PyStr.StripStrip | Chunker.py:48 | stripping is idempotent |
| PyStr.Split | Chunker.py:32 | `split("\n")` always yields at least one piece, and no piece contains a newline |
| PyStr.Join | Chunker.py:32 | `"\n".join`: not called by the chunker but the inverse of `split("\n")`, used to specify it; `JoinSplit` and `SplitJoin` prove the two inverse |
| PyStr.JoinSplit | Chunker.py:32 | joining the pieces of a split with `"\n"` gives back the original string |
| PyStr.SplitJoin | Chunker.py:32 | splitting a `"\n"`-join of newline-free pieces gives back the pieces |
| PyStr.BlankJoin | Chunker.py:32-35 | a string is all whitespace exactly when every piece of its split is |
| PyStr.Tail | Chunker.py:81 | `s[-k:]` for positive `k` is a suffix of `s` of length `min(k, len(s))` |
| Chunker.Paragraphs | Chunker.py:35 | the list comprehension over newline-free pieces, which keeps a piece when its strip is not empty and yields that strip followed by `"\n\n"`; its contract: never more paragraphs than pieces (`ParagraphsAround` and `ParagraphsEmpty` state the rest) |
| Chunker.SplitParagraphs | Chunker.py:22-35 | `_split_paragraph`: the comprehension applied to the pieces of `text.split("\n")`; the lemmas below state its shape, order and emptiness |
| Chunker.ParagraphsShape | Chunker.py:35 | every element the comprehension yields is a paragraph: at least 3 characters, ends in `"\n\n"`, and the part before that is already stripped and has no newline |
| Chunker.SplitParagraphsShape | Chunker.py:22-35 | every paragraph of a text has that shape |
| Chunker.ParagraphNotBlank | Chunker.py:35 | no paragraph is blank |
| Chunker.ParagraphsAppend | Chunker.py:35 | the paragraphs of a concatenation of pieces are the paragraphs of the first part followed by those of the second, so input order is kept |
| Chunker.ParagraphsAround | Chunker.py:35 | a blank line is dropped wherever it stands; any other line yields exactly one paragraph (its strip plus `"\n\n"`) between the paragraphs of the lines before it and those after it |
| Chunker.ParagraphsEmpty | Chunker.py:35 | the comprehension yields nothing exactly when every piece is blank |
| Chunker.NoParagraphs | Chunker.py:22-35 | a text has no paragraph exactly when it is all whitespace |
| Chunker.LineParagraphs | Chunker.py:22-35 | a non-blank text without a newline is exactly one paragraph: its strip followed by `"\n\n"` |
| Chunker.MakeChunk | Chunker.py:37-49 | the chunk keeps its index, its count is the length of the untrimmed buffer, its text is no longer than that, and the text is empty exactly when the buffer is blank |
| Chunker.MakeChunkTrims | Chunker.py:47-49 | the chunk text is already stripped, and it is the buffer with whitespace removed at both ends and nowhere else |
| Chunker.Numbered | Chunker.py:66-87 | one chunk per emitted buffer, in order; chunk `k` has index `k`, holds the stripped buffer and counts the length of the unstripped buffer |
| Chunker.TextChunker.Overlap | Chunker.py:81 | the carried overlap is the suffix of the old buffer of length `min(overlap_chars, len(buffer))`, or empty when `overlap_chars <= 0` |
| Chunker.TextChunker.Step | Chunker.py:71-83 | one iteration of the loop: a paragraph that fits is appended; one that does not first emits the buffer when it is not blank, then starts the next buffer with the overlap of the old one followed by the paragraph |
| Chunker.TextChunker.Pack | Chunker.py:66-83 | the loop state after a list of paragraphs, starting from no emitted buffer and an empty buffer |
| Chunker.TextChunker.Buffers | Chunker.py:85-87 | the emitted buffers: those flushed by the loop, then the final buffer when it is not blank |
| Chunker.TextChunker.Chunked | Chunker.py:51-89 | `chunk`: `None` for the empty text, otherwise the numbered chunks of the buffers emitted for its paragraphs |
| Chunker.TextChunker.ChunkText | Chunker.py:51-89 | the loop returns the chunks of the fold `Chunked`; it returns `None` exactly for the empty text; the chunk indices are 0, 1, ..., n-1 in list order |
| Chunker.TextChunker.BuffersInv | Chunker.py:64-87 | for any list of paragraphs: there is at least one emitted buffer unless there is no paragraph; every emitted buffer is non-blank, begins with the overlap carried from the buffer before it, and when it exceeds the limit its new part is one of the paragraphs; the new parts of all buffers spell out all the paragraphs in order |
| Chunker.TextChunker.BufferEmitted | Chunker.py:76-87 | every emitted buffer is not blank, begins with the overlap carried into it, and when it exceeds the limit its new part is one of the paragraphs |
| Chunker.TextChunker.OverlapCarried | Chunker.py:76-83 | every emitted buffer after the first begins with the overlap taken from the buffer emitted before it |
| Chunker.TextChunker.Boundaries | Chunker.py:69-87 | for any list of paragraphs there are cut positions, from 0 up to the number of paragraphs and strictly increasing, one more than there are emitted buffers, such that: each buffer is the overlap carried into it followed by its run of whole consecutive paragraphs, so the next buffer begins (after its overlap) with the paragraph that did not fit; a buffer over the limit holds a single paragraph; and every buffer but the last was emitted only because the next paragraph would have taken it past `max_chars` (greedy filling) |
| Chunker.TextChunker.TextBoundaries | Chunker.py:64-87 | the same cut positions exist for the paragraphs of any text |
| Chunker.TextChunker.NothingLost | Chunker.py:64-87 | for any text, removing from each emitted buffer the overlap carried into it and concatenating the rest gives exactly the concatenation of the text's paragraphs: none is dropped, duplicated or reordered |
| Chunker.TextChunker.OversizedIsOneParagraph | Chunker.py:71-83 | an emitted buffer longer than `max_chars` is exactly the overlap carried into it followed by a single paragraph |
| Chunker.TextChunker.ChunkedOutcome | Chunker.py:60-89 | chunking gives `None` exactly for the empty text and an empty list exactly for a non-empty text that is all whitespace; no chunk has an empty text |
| Chunker.TextChunker.LoneParagraph | Chunker.py:64-89 | a single non-blank line of any length, even beyond `max_chars`, gives exactly one chunk, numbered 0, holding the stripped line; its count is the line's stripped length plus 2 for the appended `"\n\n"` |
| Chunker.TextChunker.OneBuffer | Chunker.py:69-87 | a single paragraph, whether or not it fits, is the only emitted buffer |

## Left out

- Chunker.New: the product `max_chars * overlap_rate` is computed exactly, on Dafny's `real`. Floating-point rounding of that product is not modelled, and neither is a NaN rate (Python rejects it, because every comparison with NaN is false), nor the `OverflowError` Python raises when `max_chars` is too large to convert to a float.
- Chunker.New: Python accepts any numeric `max_chars`; the model takes an integer.
- The exception `ChunkingError` becomes the `Failure` variant of a `Result`. Chunk dictionaries become the `Chunk` datatype; their key spellings `"chunk index"`, `"text"` and `"characters count"` are not modelled.
- `chunk` is typed as taking a `str`, so the `None` argument that `if not text` would also catch is not modelled.
- Strings are sequences of Unicode scalar values. A Python string holding a lone surrogate code point has no counterpart.
- `Actions.py` is not part of this model. It loads prompts from disk, prints, and delegates to a language model that cannot be seen here.
- `LLM.py` is not part of this model. It is network I/O through the `ollama` client.
- `PDFreader.py` is not part of this model. It is file-system access and PDF text extraction through a third-party library.
