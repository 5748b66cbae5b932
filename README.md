# Compliance-document chunking, modelled in Dafny

The backend of this question-answering system cuts the text extracted from an uploaded PDF
into retrieval chunks before it embeds them. This project models the three chunkers of
`backend/rag/embeddings.py`:

- `sliding_window_chunker` splits the text into whitespace-separated words and emits windows
  of `chunk_size` words (default 150). A new window starts every `chunk_size - overlap` words
  (default overlap 30), and each window is joined with single spaces.
- `extract_compliance_metadata` splits the text on `"\n"` and groups the lines into numbered
  sections. A section starts at every header line such as `3.2 Scope`, which matches
  `^\d+\.\d+\s+`. Lines above the first header are dropped.
- `compliance_chunker` performs the same section split. It keeps each section of at most 1500
  characters as one chunk. A longer section is split into sentences, which are packed greedily:
  a sentence joins the current chunk when the chunk's length plus the sentence's length is at
  most 1000, and otherwise starts a new chunk. With the joining space, a chunk of several
  sentences reaches at most 1001 characters.

Each of these is a loop that appends to a list; the last two also grow a string accumulator.
Each loop is modelled as a Dafny `method` with the same loop, and proved equal to a pure
specification function. The properties are then proved as lemmas about those functions.

Files and modules:

- `text.dfy` (`Text`): the Python built-ins the chunkers rely on.
  - `str.split(sep)`, `sep.join`, the argument-less `str.split()`.
  - Python slices with clamped bounds.
  - The `str.isspace` character set.
- `sliding_window.dfy` (`SlidingWindow`): `sliding_window_chunker`.
- `sections.dfy` (`Metadata`): `extract_compliance_metadata` and the header test.
- `packing.dfy` (`Packing`): the sentence-packing loop of `compliance_chunker`.
- `compliance.dfy` (`Compliance`): `compliance_chunker` as a whole.

The packing specification describes chunks as groups of consecutive sentences.
- `PackGroups` decides which sentences go together.
- `Render` gives a group's text. The first chunk grows from the empty string by `' ' + sent`, so
  each of its sentences carries a leading space. Every later chunk starts as its first sentence.
- `Emit` drops the final group exactly when its text is empty.

## Model

| member | source | states |
|---|---|---|
| Text.Split | backend/rag/embeddings.py:37 | `s.split(sep)` yields at least one piece, and no piece holds the separator |
| Text.Lines | backend/rag/embeddings.py:37 | `text.split("\n")`: at least one line, and no line holds a newline |
| Text.Join | backend/rag/embeddings.py:65 | `sep.join` of no pieces is the empty string |
| Text.JoinSnoc | backend/rag/embeddings.py:43-44 | Growing a join by `sep + x` gives the join of the list with `x` appended. So `current_section += '\n' + line`, here and at line 81, keeps a section equal to its lines joined with `"\n"` |
| Text.JoinAppend | backend/rag/embeddings.py:37 | The join of two non-empty lists is the two joins with the separator between them |
| Text.JoinSplit | backend/rag/embeddings.py:37 | Joining the pieces of a split with the separator gives the original text back |
| Text.SplitJoin | backend/rag/embeddings.py:37 | Splitting a join of separator-free pieces gives the pieces back |
| Text.IsSpace | backend/rag/embeddings.py:39 | The whitespace set of `str.isspace`, which `\s` and `str.split()` also use: it holds space, tab, newline, carriage return, vertical tab and form feed, and no digit and no dot |
| Text.Words | backend/rag/embeddings.py:60 | `text.split()` yields only non-empty pieces that contain no whitespace |
| Text.WordsOfWord | backend/rag/embeddings.py:60 | A text that is a single word splits into exactly that word |
| Text.WordsAppendAtSpace | backend/rag/embeddings.py:60 | No word runs across whitespace: when `t` starts with whitespace, the words of `a + t` are the words of `a` followed by the words of `t` |
| Text.WordsSplitAtSpace | backend/rag/embeddings.py:60 | A whitespace character separates words: the words of `a + c + b` are the words of `a` followed by the words of `b`. With `WordsOfWord` and `NoWordsIffBlank`, this fixes the words of every text: its maximal whitespace-free runs, in order |
| Text.NoWordsIffBlank | backend/rag/embeddings.py:60 | A text has no words exactly when it is empty or whitespace only |
| Text.WordsOfJoin | backend/rag/embeddings.py:60-65 | Words joined with single spaces split back into exactly those words |
| Text.PySlice | backend/rag/embeddings.py:64 | A Python slice is the plain slice for in-range bounds, stops at the end for an end bound past it, and is never longer than the list |
| SlidingWindow.SlidingWindowChunker | backend/rag/embeddings.py:59-66 | The loop returns the specification's result. A zero step raises `range`'s ValueError. A negative step gives `[]`. Otherwise there is one chunk per start `0, step, 2*step, ...` below the word count, and chunk `k` is `words[k*step : k*step+chunk_size]` joined with spaces |
| SlidingWindow.CeilDivIsCount | backend/rag/embeddings.py:63 | `ceil(n/step)` starts reach `n`, and the last of them is below `n` |
| SlidingWindow.CeilDivUnique | backend/rag/embeddings.py:63 | No other count of starts has that property |
| SlidingWindow.ChunkCount | backend/rag/embeddings.py:60-63 | Raises exactly when `chunk_size == overlap`. A negative step yields `[]`. Otherwise the chunk count `c` satisfies `c*step >= n > c*step - step`, so `c = ceil(n/step)` |
| SlidingWindow.BlankTextGivesNoChunks | backend/rag/embeddings.py:60-63 | For a positive step, the chunk list is empty exactly when the text is empty or whitespace only |
| SlidingWindow.WindowSplitsBack | backend/rag/embeddings.py:64-65 | A joined window splits back into the window, which holds between 1 and `chunk_size` words |
| SlidingWindow.ChunkWords | backend/rag/embeddings.py:63-65 | Chunk `k` starts below the word count and splits back into window `k`: 1 to `chunk_size` words from word `k*step` |
| SlidingWindow.WindowOverlap | backend/rag/embeddings.py:63-64 | Consecutive windows share `size - step` words when the earlier one is full |
| SlidingWindow.CoveringWindow | backend/rag/embeddings.py:63-64 | Word `j` lies in window `j / step`, which is one of the counted windows |
| SlidingWindow.WordCovered | backend/rag/embeddings.py:63-65 | With `0 <= overlap < chunk_size`, every word index is covered: word `j` is word `j - k*step` of chunk `k = j/step` |
| SlidingWindow.ConsecutiveOverlap | backend/rag/embeddings.py:63-65 | When chunk `k` is full, its last `overlap` words are the first `overlap` words of chunk `k+1` |
| SlidingWindow.DefaultWindowsOf130Words | backend/rag/embeddings.py:59-65 | With the defaults, 130 words give two chunks, all 130 words and then words 120..129, a window that lies inside the first |
| Metadata.IsHeader | backend/rag/embeddings.py:39 | The header test, also used at line 74: a header line has at least four characters and starts with a digit |
| Metadata.DigitRunEnd | backend/rag/embeddings.py:39 | The end of the digit run that starts at `from`: every character before it is a digit, and the one at it is not |
| Metadata.HeaderIffPattern | backend/rag/embeddings.py:39 | `IsHeader(line)` holds exactly when the line starts with digits, a dot, digits and a whitespace character |
| Metadata.LastHeader | backend/rag/embeddings.py:39-42 | The index of the last header line (or -1): it is a header, and no later line is |
| Metadata.FirstHeader | backend/rag/embeddings.py:39-45 | The index of the first header line (or the line count): it is a header, and no earlier line is |
| Metadata.ExtractComplianceMetadata | backend/rag/embeddings.py:33-50 | The loop returns `Sections(lines)`: one section per header line, each running from that header up to the next, joined with `"\n"`. Lines above the first header are dropped |
| Metadata.ScanHeader | backend/rag/embeddings.py:39-42 | A header line closes the open section, if any, and opens a new one at that line |
| Metadata.ScanContinue | backend/rag/embeddings.py:43-44 | A non-header line extends the open section by `"\n" + line` |
| Metadata.ScanStep | backend/rag/embeddings.py:37-44 | One loop pass, in each of its three branches, keeps the loop invariant. A line before any header is dropped |
| Metadata.ScanDone | backend/rag/embeddings.py:47-48 | After the final flush of a non-empty open section, the list is all the sections |
| Metadata.SectionCount | backend/rag/embeddings.py:37-50 | The number of sections equals the number of header lines |
| Metadata.NoHeaderNoSections | backend/rag/embeddings.py:37-50 | There are no sections exactly when no line is a header |
| Metadata.SectionShape | backend/rag/embeddings.py:39-44 | Each section, split back on `"\n"`, starts with a header line and contains no other header |
| Metadata.SectionsLossless | backend/rag/embeddings.py:37-48 | `"\n".join(sections) == "\n".join(lines[f:])` for the first header `f`: no line is lost, repeated or reordered |
| Metadata.SectionsSuffix | backend/rag/embeddings.py:37-48 | The joined sections end the joined lines |
| Metadata.SectionsSuffixOfText | backend/rag/embeddings.py:33-50 | The sections joined with `"\n"` are a suffix of the text |
| Packing.PackGroups | backend/rag/embeddings.py:94-99 | The greedy grouping has at least one group, and every group after the first is non-empty |
| Packing.Emit | backend/rag/embeddings.py:101-102 | The emitted chunks are the group texts in order. The final group is dropped exactly when its text is empty, so there is one chunk per group, or one fewer in that case |
| Packing.RenderStep | backend/rag/embeddings.py:95-99 | A sentence that does not fit starts a new chunk containing just that sentence. A sentence that fits makes the chunk `chunk + " " + sent`. Earlier chunks are unchanged |
| Packing.PackedClose | backend/rag/embeddings.py:95-97 | The overflow branch keeps the loop invariant |
| Packing.PackedExtend | backend/rag/embeddings.py:98-99 | The append branch keeps the loop invariant |
| Packing.PackSentences | backend/rag/embeddings.py:92-102 | The packing loop and its final flush return `Pack(sents)` |
| Packing.FlattenPackGroups | backend/rag/embeddings.py:94-99 | The groups, concatenated, are exactly the input sentences in order: each sentence is in exactly one group |
| Packing.GroupLengthBound | backend/rag/embeddings.py:95-99 | The first chunk, and any chunk of two or more sentences, has at most 1001 characters |
| Packing.LongChunkIsOneSentence | backend/rag/embeddings.py:95-99 | A chunk longer than 1001 characters is a later chunk holding a single sentence |
| Packing.LongChunkIsSentence | backend/rag/embeddings.py:95-102 | A chunk longer than 1001 characters is one of the sentences |
| Packing.FirstGroup | backend/rag/embeddings.py:92-99 | The first group is empty exactly when the first sentence alone passes 1000 characters; otherwise it starts with that sentence |
| Packing.FirstSentenceTooLong | backend/rag/embeddings.py:95-97 | If the first sentence passes 1000 characters, the first emitted chunk is `""`, because the flush at line 96 does not test for emptiness |
| Packing.EmptyChunkIff | backend/rag/embeddings.py:95-102 | With non-empty sentences, `""` is emitted exactly when the first sentence passes 1000 characters, and then only as the first chunk |
| Packing.EverySentenceInOneChunk | backend/rag/embeddings.py:94-102 | With non-empty sentences there is one chunk per group, and the groups hold the sentences in order |
| Packing.SpaceEachIsJoin | backend/rag/embeddings.py:92-99 | The text grown from `""` by `' ' + sent` is one space followed by the sentences joined with spaces |
| Packing.FirstChunkLeadingSpace | backend/rag/embeddings.py:92-99 | When the first sentence fits, the first chunk is `" " + " ".join(first group)` |
| Compliance.ComplianceChunker | backend/rag/embeddings.py:68-104 | Returns the chunks of the text's sections, in order |
| Compliance.SplitSections | backend/rag/embeddings.py:72-84 | The duplicated split loop yields the same `Sections(lines)` as `extract_compliance_metadata` |
| Compliance.ChunkSections | backend/rag/embeddings.py:86-104 | The post-processing loop returns each section kept whole (if at most 1500 characters) or packed from its sentences, concatenated in order |
| Compliance.ChunkedAppend | backend/rag/embeddings.py:86-104 | Chunking a concatenation of section lists concatenates the chunks, so each section is chunked independently |
| Compliance.ShortSectionsUnchanged | backend/rag/embeddings.py:86-89 | If no section passes 1500 characters, the chunks are the sections themselves |
| Compliance.ChunksOfSection | backend/rag/embeddings.py:86-104 | Section `i`'s chunks sit in the output right after the chunks of sections `0..i-1` |
| Compliance.ShortSectionVerbatim | backend/rag/embeddings.py:87-89 | A section of at most 1500 characters appears verbatim at its position |
| Compliance.ShortSectionsInOrder | backend/rag/embeddings.py:87-89 | A short section's chunk comes before every chunk of the sections after it |
| Compliance.ChunkOrigin | backend/rag/embeddings.py:86-104 | Every chunk comes from one section, and is that section's own chunk or one of its packed chunks |
| Compliance.ChunkLength | backend/rag/embeddings.py:86-102 | Every chunk has at most 1500 characters unless it is a single sentence of some section |
| Compliance.LongSectionKeepsSentences | backend/rag/embeddings.py:90-102 | A long section with non-empty sentences is packed without loss: one chunk per group, and the groups hold its sentences in order |
| Compliance.ShortDocument | backend/rag/embeddings.py:72-89 | When every section is short, `compliance_chunker` returns exactly the sections `extract_compliance_metadata` returns |

## Left out

- Sentence segmentation by the spaCy pipeline (`nlp(section).sents`) is foreign code. It is a parameter `segment: string -> seq<string>`, and `segment(section)` is the list of `sent.text` values. Properties that need non-empty sentences say so in their preconditions.
- The regular expression `^\d+\.\d+\s+` is modelled with ASCII digits for `\d`, whereas Python's `str` patterns also accept other Unicode decimal digits. `\s` and `str.split()` use the `str.isspace` character set.
- `len` counts code points. Dafny's `char` is a Unicode scalar value, so a text holding lone surrogate code points cannot be represented.
- `create_faiss_index` and `search_index` are not modelled: they are float32 embeddings, L2 normalisation and FAISS search through foreign libraries.
- `extract_text_from_pdf` is not modelled: it is a wrapper over pdfplumber.
- `file_hash` is not modelled: it is file I/O that feeds SHA-256 from `hashlib`.
- `get_cached_chunks_and_index` is not modelled: it is a filesystem cache with `pickle` and a progress callback.
- `backend/rag/views.py` is not part of this model: it is a Django view around model calls.
- The frontend components are not part of this model: they are React state, uploads and one `fetch`.
- The source writes the packing loop inline in `compliance_chunker`. The model calls `Packing.PackSentences` and appends its result, which gives the same list as appending each chunk in turn.
