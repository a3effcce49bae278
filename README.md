# ltp-rs post-processing core, in Dafny

This project models the decoding and assembly side of ltp-rs, the Rust
front end of the LTP Chinese language-analysis toolkit. A neural model
scores a batch of sentences. The Rust code then turns its output tensors
into per-sentence results for six tasks:

- word segmentation (seg);
- part-of-speech tagging (pos);
- named-entity recognition (ner);
- semantic role labelling (srl);
- dependency parsing (dep);
- semantic dependency parsing (sdp).

Four source files form the core, and each has its own module.

- `Entities` (`entities.dfy`) models `ltp-rs/src/entities.rs`. It holds
  the BIOES chunk predicates `start_of_chunk` / `end_of_chunk` and the
  chunk extractor `get_entities`. The extractor is the loop method
  `GetEntities`. It is proved equal to the recursive specification
  `Entities`, whose properties are proved as lemmas.
- `Viterbi` (`viterbi.dfy`) models `ltp-rs/src/viterbi.rs`, which walks
  back through a flattened back-pointer history:
  - the three nested loops are methods, proved against the functions
    `Row`, `SentenceRows` and `Decode`;
  - the lemmas state what every decoded row is;
  - the lemmas also show that every row follows the history at the
    padding-shifted step.
- `EisnerSpec`, `EisnerTree` and `Eisner` (`eisner_spec.dfy`,
  `eisner_tree.dfy`, `eisner.dfy`) model `ltp-rs/src/eisner.rs`, Eisner's
  projective tree decoder:
  - `EisnerSpec` states what each table cell holds: the first strict
    maximum over its split points.
  - `EisnerTree` states what the backtrack writes and proves that the
    resulting head vector is a tree rooted at word 0.
  - `Eisner` holds the imperative decoder. It works on arrays: `fill`, the
    four stage loops of each width, the recursive `backtrack` over a head
    array, and the batch loop.
- `Interface` and `Pipeline` (`interface.dfy`, `pipeline.dfy`) model
  `LTP::pipeline_batch` and `LTP::pipeline` of `ltp-rs/src/interface.rs`:
  - the input flattening;
  - the segmentation into words through character offsets;
  - slicing pos/ner rows to word counts;
  - SRL decoding and regrouping;
  - the dep and sdp cell filters and their regrouping;
  - `option_vec_to_vec_option` (`Lift`) and `multizip` (`Assemble`).
- `Common` (`common.dfy`) holds `Option`/`Result`, sums, maxima and the
  option filter `Somes`.

The model takes as parameters everything produced outside this core: the
tokenizer's encodings, the model's output tensors and the vocabularies.

## Model

| member | source | states |
|---|---|---|
| Common.Max | ltp-rs/src/interface.rs:278-279 | the `max().unwrap()` of a non-empty list is an element of it and bounds every element |
| Common.Reversed | ltp-rs/src/viterbi.rs:37 | reversal keeps the length and puts element k at position n - 1 - k |
| Common.SomesMembers | ltp-rs/src/interface.rs:305 | filtering `Some`s and unwrapping keeps exactly the values some cell holds |
| Common.SomesOrdered | ltp-rs/src/interface.rs:351 | the i-th kept value comes from the i-th kept position, and those positions strictly increase (scan order is kept) |
| Entities.DashIndex | ltp-rs/src/entities.rs:76 | `find('-')`: the index of the first dash, or the length when there is none |
| Entities.SplitTagParts | ltp-rs/src/entities.rs:75-80 | a tag with a dash is prefix + "-" + suffix with no dash in the prefix; a tag without one splits to (tag, "_") |
| Entities.SplitJoin | ltp-rs/src/entities.rs:75-80 | splitting "tag-type" gives back (tag, type) whenever tag has no dash |
| Entities.StartOfChunkCases | ltp-rs/src/entities.rs:1-32 | start_of_chunk by tag kind, both directions: B/S always start, O/. never, I/E after E/S/O or on a type change, other tags exactly on a type change |
| Entities.EndOfChunkCases | ltp-rs/src/entities.rs:34-65 | end_of_chunk by previous tag kind, both directions: after E/S always, after O/. never, after B/I before B/S/O or on a type change, after other tags exactly on a type change |
| Entities.ScanStep | ltp-rs/src/entities.rs:81-88 | one iteration: the chunk emitted at i followed by the scan from i + 1 with the new previous tag, type and begin offset |
| Entities.ScannedThenScan | ltp-rs/src/entities.rs:67-92 | the chunks pushed before position i followed by the chunks the rest of the scan pushes from that state are the whole result |
| Entities.GetEntities | ltp-rs/src/entities.rs:67-92 | the loop returns exactly `Entities(tags)`: the chunks of the tags followed by the sentinel "O" |
| Entities.ScanWellFormed | ltp-rs/src/entities.rs:81-85 | every chunk the scan emits from i on has start <= end, end between i - 1 and the last element, and ends strictly increase |
| Entities.EntitiesWellFormed | ltp-rs/src/entities.rs:67-92 | every chunk lies inside the tag sequence (start <= end < length) and chunks come in strictly increasing end order |
| Entities.ScanOutside | ltp-rs/src/entities.rs:81-85 | from an outside state, a run of "O" tags emits nothing |
| Entities.AllOutsideNoChunks | ltp-rs/src/entities.rs:67-92 | an all-"O" sequence has no chunks |
| Entities.ScanClosesAtSentinel | ltp-rs/src/entities.rs:68-85 | when the element before the sentinel is inside a chunk, the last emitted chunk ends there |
| Entities.SentinelClosesOpenChunk | ltp-rs/src/entities.rs:68 | the pushed "O" closes a chunk still open at the end: the last chunk ends at the last tag |
| Entities.PerLocTags | ltp-rs/src/entities.rs:75-80 | the concrete splits of "B-PER", "I-PER", "B-LOC" and "O" |
| Entities.PerLocSuffix | ltp-rs/src/entities.rs:99-103 | the scan of the test's padded tags from position 2 emits (PER, 0, 1) and (LOC, 3, 3) |
| Entities.ExamplePerLoc | ltp-rs/src/entities.rs:99-103 | the unit test: B-PER I-PER O B-LOC gives (PER, 0, 1) and (LOC, 3, 3) |
| Entities.ExampleLoneInside | ltp-rs/src/entities.rs:1-32 | a lone inside tag opens and closes its own chunk |
| Viterbi.IndexInHistory | ltp-rs/src/viterbi.rs:33 | every index the backtrace reads lies inside a well-shaped history |
| Viterbi.Backward | ltp-rs/src/viterbi.rs:20-36 | the path before reversal starts with the row's final tag, has n labels, all label ids |
| Viterbi.SentenceRowsAt | ltp-rs/src/viterbi.rs:18-20 | sentence k has one row per word, and word j uses row counter Sum(lengths[..k]) + j |
| Viterbi.BacktraceRow | ltp-rs/src/viterbi.rs:20-38 | the inner loop computes `Row`, the reversed back-pointer path |
| Viterbi.DecodeSentence | ltp-rs/src/viterbi.rs:19-40 | the per-sentence loop computes that sentence's rows, starting at its row counter |
| Viterbi.ViterbiDecodePostprocess | ltp-rs/src/viterbi.rs:4-43 | the whole decoder returns `Decode`: the rows of all sentences in order |
| Viterbi.DecodeFromLength | ltp-rs/src/viterbi.rs:18-41 | the rows from sentence k on number the remaining word count |
| Viterbi.DecodeLength | ltp-rs/src/viterbi.rs:18-41 | the output has one row per word of the batch (stn_idx counts rows) |
| Viterbi.DecodeFromAt | ltp-rs/src/viterbi.rs:18-41 | the rows from sentence k' on hold sentence k's rows at their offsets |
| Viterbi.DecodeAt | ltp-rs/src/viterbi.rs:18-41 | output row Sum(lengths[..k]) + j is sentence k's decoded row for word j |
| Viterbi.BackwardPrefix | ltp-rs/src/viterbi.rs:29-36 | a shorter walk back is a prefix of a longer one |
| Viterbi.RowStep | ltp-rs/src/viterbi.rs:29-36 | label p of a row is the back-pointer stored for label p + 1 at step p + (maxLen - len) |
| Viterbi.RowFollowsHistory | ltp-rs/src/viterbi.rs:27-37 | every consecutive pair of a decoded row follows the history with the padding bias |
| Viterbi.RowSpec | ltp-rs/src/viterbi.rs:20-37 | a decoded row has the sentence's length, ends with the row's final tag and follows the history |
| Viterbi.DecodedRowSpec | ltp-rs/src/viterbi.rs:4-43 | each output row: the sentence length, its last label is last_tags[row], it follows the history, and a one-word sentence gives [last_tags[row]] |
| Viterbi.RowTags | ltp-rs/src/viterbi.rs:34 | a decoded row holds label ids only |
| Viterbi.DecodeFromTags | ltp-rs/src/viterbi.rs:18-41 | the rows from sentence k on hold label ids only |
| Viterbi.DecodeTags | ltp-rs/src/viterbi.rs:4-43 | every output label is a label id, so it names a vocabulary entry |
| EisnerSpec.ScoreIndex | ltp-rs/src/eisner.rs:88 | the score of arc head -> dep, at [dep][head] of the sentence's block, lies in the buffer |
| EisnerSpec.FoldBest | ltp-rs/src/eisner.rs:85-93 | the split scan's result is a maximum of the candidates, reached first at its split point (strict `>`); with no finite candidate it is -inf with split 0 |
| EisnerSpec.FoldFinite | ltp-rs/src/eisner.rs:85-93 | one finite candidate makes the scan's score finite |
| EisnerSpec.CellFinite | ltp-rs/src/eisner.rs:78-143 | every span of two or more words has a finite best score |
| EisnerSpec.SplitInRange | ltp-rs/src/eisner.rs:81-143 | every stored split point lies in its span's range: i <= r < j for I, b <= r < a for leftward C, a < r <= b for rightward C |
| EisnerTree.SplitsInRange | ltp-rs/src/eisner.rs:81-143 | a sentence's split tables give every span a split point in its range |
| EisnerTree.Trace | ltp-rs/src/eisner.rs:11-43 | the backtracked head vector keeps the length of the one it starts from |
| EisnerTree.TraceFrame | ltp-rs/src/eisner.rs:11-43 | backtracking span (i, j) changes only the heads of the span's words other than i |
| EisnerTree.TraceTree | ltp-rs/src/eisner.rs:11-43 | after backtracking span (i, j), every word of the span but i has a head in the span other than itself and reaches i within the span |
| EisnerTree.TraceTreeComplete | ltp-rs/src/eisner.rs:24-27 | the tree property for a complete span |
| EisnerTree.TraceTreeIncomplete | ltp-rs/src/eisner.rs:28-42 | the tree property for an incomplete span, whose head j is set to i |
| EisnerTree.CompleteTree | ltp-rs/src/eisner.rs:24-27 | I(i, r) hangs r below i, and C(r, j) hangs below r: together a tree for (i, j) |
| EisnerTree.IncompleteTree | ltp-rs/src/eisner.rs:28-42 | j below i plus the two complete halves give a tree for (i, j) |
| EisnerTree.TraceIsTree | ltp-rs/src/eisner.rs:148-158 | backtracking C(0, n - 1) from all ones gives every word 1..n-1 a head other than itself, leading to word 0 |
| EisnerTree.HeadsTree | ltp-rs/src/eisner.rs:148-159 | the decoder's heads form a tree rooted at 0; the vector has len - remove_root entries, read from word remove_root on |
| EisnerTree.TraceProj | ltp-rs/src/eisner.rs:11-43 | after backtracking span (i, j), the arc of every word of the span but i covers a subtree: each word strictly inside an arc reaches its head without leaving the arc |
| EisnerTree.TraceProjComplete | ltp-rs/src/eisner.rs:24-27 | the subtree-arc property for a complete span |
| EisnerTree.TraceProjIncomplete | ltp-rs/src/eisner.rs:28-42 | the subtree-arc property for an incomplete span, including the arc j -> i written there |
| EisnerTree.ProjComplete | ltp-rs/src/eisner.rs:24-27 | arcs built in I(i, r) and C(r, j) still cover subtrees once both halves are written |
| EisnerTree.ProjIncomplete | ltp-rs/src/eisner.rs:28-42 | arcs of the two complete halves and the new arc from i to j cover subtrees of (i, j) |
| EisnerTree.ArcInside | ltp-rs/src/eisner.rs:148-158 | a word strictly inside word x's arc has its head inside the arc and reaches x's head within it |
| EisnerTree.ProjectiveArcs | ltp-rs/src/eisner.rs:148-158 | a head vector whose arcs cover subtrees has no crossing arcs: every head is a word, and every word strictly between x and x's head has its head between them and reaches x's head inside the arc |
| EisnerTree.TraceProjective | ltp-rs/src/eisner.rs:148-158 | backtracking C(0, n - 1) from all ones gives a projective tree: no two arcs cross |
| EisnerTree.HeadsProjective | ltp-rs/src/eisner.rs:148-159 | the decoder's trees are projective: no two arcs of WordHeads cross |
| Eisner.Idx | ltp-rs/src/eisner.rs:25 | row-major index a * l + b stays inside an l x l table |
| Eisner.Backtrack | ltp-rs/src/eisner.rs:11-43 | the recursive procedure leaves `head` equal to `Trace` from the remove_root slot on |
| Eisner.CompleteStep | ltp-rs/src/eisner.rs:24-27 | a complete span's split lies in range, and both recursive calls shrink the span |
| Eisner.IncompleteStep | ltp-rs/src/eisner.rs:28-31 | the write `head[j - remove_root]` is in range, and both recursive calls shrink the span |
| Eisner.AtUpdate | ltp-rs/src/eisner.rs:94-95 | writing one table entry changes no other entry |
| Eisner.BestIncomplete | ltp-rs/src/eisner.rs:81-113 | the split loop of an incomplete span returns the specified cell (best score, first best split), leftward or rightward |
| Eisner.BestComplete | ltp-rs/src/eisner.rs:114-143 | the split loop of a complete span returns the specified cell, leftward or rightward |
| Eisner.IncSum | ltp-rs/src/eisner.rs:86-105 | the sum read for split r of an incomplete span, C(i, r) + C(j, r + 1) plus the arc score, is the specified candidate in either direction |
| Eisner.ComSum | ltp-rs/src/eisner.rs:120-134 | the sum read for split r of a complete span, C(r, i) + I(j, r) leftward or I(i, r) + C(r, j) rightward, is the specified candidate |
| Eisner.IncCand | ltp-rs/src/eisner.rs:86-88 | the sum the loop reads from the complete table is the specified incomplete candidate |
| Eisner.ComCand | ltp-rs/src/eisner.rs:115-143 | the sum the loop reads from the tables is the specified complete candidate |
| Eisner.FoldNext | ltp-rs/src/eisner.rs:89-92 | one comparison `s > max_score` advances the scan by one split point |
| Eisner.IncompleteStage | ltp-rs/src/eisner.rs:81-113 | one incomplete stage of width w stores every span's specified score and split |
| Eisner.CompleteStage | ltp-rs/src/eisner.rs:114-143 | one complete stage of width w stores every span's specified score and split |
| Eisner.ComWidthStep | ltp-rs/src/eisner.rs:144-146 | overwriting C(0, w) with -inf keeps the complete table as specified for the next width |
| Eisner.Fill | ltp-rs/src/eisner.rs:5-9 | the first `size` entries become `num`, and the rest are unchanged |
| Eisner.DiagWrite | ltp-rs/src/eisner.rs:73-76 | the diagonal loop zeroes each one-word span in turn |
| Eisner.InitTables | ltp-rs/src/eisner.rs:65-76 | after the reset and the diagonal, the tables hold what width 1 needs |
| Eisner.TablesStore | ltp-rs/src/eisner.rs:78-147 | after the last width, the split tables hold every span's split point |
| Eisner.Reset | ltp-rs/src/eisner.rs:65-76 | the four fills and the diagonal establish the table invariant for width 1 |
| Eisner.FillWidth | ltp-rs/src/eisner.rs:78-147 | one width iteration (four stages and the C(0, w) overwrite) moves the table invariant from w to w + 1 |
| Eisner.DecodeSentence | ltp-rs/src/eisner.rs:64-159 | one sentence's iteration of the batch loop yields `Heads`: the tree of its best splits |
| Eisner.SentenceOf | ltp-rs/src/eisner.rs:70-71 | sentence b uses stn_length[b] words of a max x max block at b * max * max |
| Eisner.Decode | ltp-rs/src/eisner.rs:45-162 | one head vector per sentence, each the sentence's `Heads` with stn_length[b] - remove_root entries |
| Interface.FlatIndex | ltp-rs/src/interface.rs:293-294 | an index q * m + r with r < m splits back into q and r |
| Interface.ConcatLength | ltp-rs/src/interface.rs:162-166 | concatenating blocks of n elements gives |blocks| * n elements |
| Interface.ConcatBlockAt | ltp-rs/src/interface.rs:162-166 | element r of block q sits at q * n + r of the flattened vector |
| Interface.ValidLength | ltp-rs/src/interface.rs:168-174 | a sentence's piece count leaves out [CLS] and [SEP] of the mask sum, and with a 0/1 mask the pieces plus those two fit in the encoding |
| Interface.MaskSumBound | ltp-rs/src/interface.rs:168-174 | a 0/1 mask sums to at most its length |
| Interface.PositionIdsAt | ltp-rs/src/interface.rs:162-164 | position ids repeat 0 .. len - 1 for each sentence: entry k is k mod len |
| Interface.EncodeInputsShape | ltp-rs/src/interface.rs:154-181 | the inputs shape exactly when all flattened vectors fill batch x length, always when the encodings share one length; they then hold the flattened vectors and k mod len position ids |
| Interface.CharSpans | ltp-rs/src/interface.rs:201-207 | one character span per chunk |
| Interface.Words | ltp-rs/src/interface.rs:209-215 | one word per span, cut out of the text |
| Interface.SegSpans | ltp-rs/src/interface.rs:188-207 | one span per chunk of the tags, and no more words than word pieces |
| Interface.ChunkCount | ltp-rs/src/interface.rs:188-199 | chunks with strictly increasing ends below n number at most n |
| Interface.Groups | ltp-rs/src/interface.rs:266-276 | regrouping gives one group per word count |
| Interface.GroupsAt | ltp-rs/src/interface.rs:266-276 | group k is the slice of sizes[k] elements after the first Sum(sizes[..k]) |
| Interface.GroupsConcat | ltp-rs/src/interface.rs:266-276 | the groups concatenate back to the prefix they cover |
| Interface.GroupsOfConcat | ltp-rs/src/interface.rs:266-276 | regrouping undoes a concatenation of groups of those sizes |
| Interface.Regroup | ltp-rs/src/interface.rs:266-276 | the `remove(0)` loop computes `Groups` |
| Interface.TakeFront | ltp-rs/src/interface.rs:270-272 | n removals from the front give the first n elements and leave the rest |
| Interface.GroupsFront | ltp-rs/src/interface.rs:310-320 | the first group takes sizes[k] elements off the front of the rest |
| Interface.DepRow | ltp-rs/src/interface.rs:291-305 | sentence b has one arc per word |
| Interface.DepWord | ltp-rs/src/interface.rs:293-302 | word w of sentence b is cell b * m + w, which the filter keeps as (head, label) |
| Interface.DepRows | ltp-rs/src/interface.rs:291-305 | one row per sentence, as long as its word count |
| Interface.DepKeptPrefix | ltp-rs/src/interface.rs:291-305 | scanning up to cell b * m + w keeps the rows of earlier sentences and the first words of sentence b |
| Interface.DepCellStep | ltp-rs/src/interface.rs:296-303 | one cell adds word w - 1 of sentence b exactly when it is a word's (not the root, not padding) |
| Interface.DepKeptRows | ltp-rs/src/interface.rs:291-305 | the filter keeps exactly the words' arcs, sentence by sentence |
| Interface.DepGroups | ltp-rs/src/interface.rs:291-320 | the kept arcs number Sum(word counts), and regrouping gives each sentence exactly its words' arcs |
| Interface.CellSplit | ltp-rs/src/interface.rs:336-340 | a flat index below n x m x m splits into batch, current and target inside the tensor |
| Interface.CellJoin | ltp-rs/src/interface.rs:336-340 | coordinates inside the tensor are recovered from their flat index |
| Interface.SdpCellFacts | ltp-rs/src/interface.rs:334-346 | every cell's coordinates and decoded-head index are in range, and a kept cell has a label |
| Interface.SdpCell | ltp-rs/src/interface.rs:334-350 | a kept edge has a word as dependent and the root or a word as head |
| Interface.SdpCellAt | ltp-rs/src/interface.rs:341-348 | cell [b][c][t] is kept exactly when c is a word, t <= word count, and the score is positive or t is the Eisner head of c; the edge carries b, c, t |
| Interface.SdpCells | ltp-rs/src/interface.rs:334 | the filter visits every score once, in flat order |
| Interface.SdpKeptMembers | ltp-rs/src/interface.rs:334-351 | the kept edges are exactly the kept cells |
| Interface.SdpKeptOrdered | ltp-rs/src/interface.rs:334-351 | the kept edges come in flat scan order |
| Interface.SelectMembers | ltp-rs/src/interface.rs:359-361 | a sentence's list holds exactly the kept edges of that sentence |
| Interface.SdpGroup | ltp-rs/src/interface.rs:356-363 | the grouping loop gives each sentence its edges in kept order |
| Interface.SdpGroups | ltp-rs/src/interface.rs:323-363 | (c, t, rel) is in sentence b's output exactly when some cell is kept as (b, c, t, rel); then 1 <= c <= words and t <= words |
| Pipeline.Lift | ltp-rs/src/interface.rs:78-85 | a disabled task becomes `size` Nones, and an enabled one has one Some per entry |
| Pipeline.LiftSomes | ltp-rs/src/interface.rs:78-85 | lifting loses nothing: its Somes are the task's list, or nothing when disabled |
| Pipeline.Assemble | ltp-rs/src/interface.rs:372-389 | multizip stops at the shortest list, and result k takes each field from index k |
| Pipeline.SegOutput | ltp-rs/src/interface.rs:188-215 | one word list per sentence, one word per chunk of its segmentation tags |
| Pipeline.Segment | ltp-rs/src/interface.rs:188-215 | the segmentation loop computes `SegOutput` |
| Pipeline.Tagged | ltp-rs/src/interface.rs:222-246 | pos/ner: one tag per word of each sentence |
| Pipeline.TagNames | ltp-rs/src/interface.rs:248-264 | one named row per decoded row |
| Pipeline.SrlOutput | ltp-rs/src/interface.rs:248-276 | one SRL group per sentence |
| Pipeline.Srl | ltp-rs/src/interface.rs:248-276 | Viterbi decoding and regrouping compute `SrlOutput` |
| Pipeline.SrlRow | ltp-rs/src/interface.rs:248-276 | sentence b has one row per word; row j has one label per word and ends with the name of last_tags[Sum(counts[..b]) + j] |
| Pipeline.DepOutput | ltp-rs/src/interface.rs:281-320 | the dep output is `DepRows`: each sentence's words' arcs, one per word |
| Pipeline.DepBatch | ltp-rs/src/interface.rs:281-320 | filtering and regrouping compute `DepOutput` |
| Pipeline.SdpOutput | ltp-rs/src/interface.rs:323-363 | one edge list per sentence |
| Pipeline.SdpKeptInBatch | ltp-rs/src/interface.rs:357-360 | every kept edge's sentence index is in the batch, so `results[batch]` is in range |
| Pipeline.SdpBatch | ltp-rs/src/interface.rs:323-363 | filtering and grouping compute `SdpOutput` |
| Pipeline.Tasks | ltp-rs/src/interface.rs:222-389 | the enabled tasks, lifted and zipped, give `TaskResults` |
| Pipeline.PipelineBatch | ltp-rs/src/interface.rs:153-391 | fails exactly when an input does not shape, with that shape error; otherwise returns the specified results |
| Pipeline.ResultsShape | ltp-rs/src/interface.rs:153-391 | one result per sentence, seg = its words, each task present exactly when its vocabulary is, pos/ner one tag per word |
| Pipeline.Pipeline | ltp-rs/src/interface.rs:393-399 | a one-sentence batch: fails exactly when its inputs do not shape, otherwise returns the batch's only result |
| Pipeline.PipelineSingle | ltp-rs/src/interface.rs:393-399 | a lone sentence with equally long vectors always succeeds, and its result carries its words |

## Left out

- External calls are parameters:
  - the tokenizer (`ltp-rs/src/tokenizer.rs` is not part of this model);
  - the ONNX session;
  - loading the vocabularies;
  - tensor `extract()`.
- Their error paths (`?` on session or extraction errors) are not modelled. The only error modelled is the shape error of `from_shape_vec`.
- `Interface.EncodeInputs`: the source also builds ndarrays, whose layout is not modelled. Its four inputs are the flattened vectors with batch x length checked.
- Floating point: scores are integers. For the Eisner tables, `Ext` adds -inf, which absorbs additions and loses every strict comparison. NaN, +inf and rounding are not modelled.
- Integer widths: `i64` label ids cast `as usize` are `nat`, so negative ids are not modelled. `usize` overflow is not modelled.
- Crash paths are preconditions. Each is a case where the Rust code panics:
  - an empty batch (`max().unwrap()`);
  - a missing segmentation vocabulary (`seg.unwrap()`);
  - a mask summing to less than 2 (`len - 2` underflows);
  - tag ids outside a vocabulary;
  - slices or `get(...).unwrap()` out of range;
  - a history too short for the Viterbi reads.
- Calls from `pipeline_batch` to `eisner`:
  - In interface.rs they pass a mutable flat buffer, but the `eisner` of eisner.rs takes `remove_root` and returns one vector per sentence. As written, the two do not match.
  - The model therefore takes the decoded head buffers (batch x m, m the longest sentence's word count plus one) as inputs to the dep and sdp filters.
  - It proves the decoder itself (`Eisner.Decode`) separately.
- Semantic dependency edges follow the code:
  - The code keeps target 0 (the root) when it passes the score-or-Eisner-head test.
  - It requires `1 <= current <= words` and `target <= words`.
- Viterbi history layout: the code steps through the history with stride `max_stn_len * labels` per position and `labels` per row. Its row counter runs over all rows of the batch. The model uses exactly these indices and requires the history to be long enough for them.
  - Whether the model's tensor really has this layout depends on the exported model. That model is not part of this one.
- Viterbi.HistoryShape: asks more of the history than the reads need. Every entry must be a label id, including entries the backtrace never reads, and the length must cover all rows of the batch at step `max_stn_len - 2`. The code only needs each entry it reads to be in range; the stronger shape keeps one invariant for the whole backtrace.
- Eisner stage loops: the four split loops of each width are modelled as two methods with a direction flag (`leftward`), not four copies.
- `Interface.SdpCell`: does not itself state the flat index of its coordinates. `Interface.SdpCellAt` states it from the coordinates' side, both directions.
- `Pipeline.ResultsShape`: gives the number of SRL rows, dep arcs and sdp edges per sentence only through `Pipeline.SrlRow`, `Pipeline.DepOutput` and `Interface.SdpGroups`, not in one statement.
- Not modelled: the Arrow/export functions (`ltp-rs/src/export.rs`), `LTP::new` and the `preinclude.rs` helpers. They are outside this core.
