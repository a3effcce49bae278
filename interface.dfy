/** The bookkeeping of LTP::pipeline_batch in ltp-rs/src/interface.rs: how
    the tokenizer's encodings become model inputs, and how the model's
    outputs become words, tags, dependency arcs and semantic edges per
    sentence. The tokenizer and the ONNX session are foreign: their results
    are parameters. */
module Interface {
  import opened Common
  import opened Entities
  import Viterbi

  /** x = q * m + r with r < m splits back into q and r. */
  lemma FlatIndex(x: nat, q: nat, r: nat, m: nat)
    requires r < m && x == q * m + r
    ensures x / m == q && x % m == r
  {
    RowMajorInjective(q, r, x / m, x % m, m);
  }

  function Concat<T>(gs: seq<seq<T>>): seq<T>
  {
    if gs == [] then [] else gs[0] + Concat(gs[1..])
  }

  lemma {:induction false} ConcatAppend<T>(gs: seq<seq<T>>, g: seq<T>)
    ensures Concat(gs + [g]) == Concat(gs) + g
  {
    if gs != [] {
      assert (gs + [g])[1..] == gs[1..] + [g];
      ConcatAppend(gs[1..], g);
    }
  }

  lemma {:induction false} ConcatLength<T>(gs: seq<seq<T>>, n: nat)
    requires forall q :: 0 <= q < |gs| ==> |gs[q]| == n
    ensures |Concat(gs)| == |gs| * n
  {
    if gs != [] {
      ConcatLength(gs[1..], n);
      assert |gs| * n == (|gs| - 1) * n + n;
    }
  }

  /** The concatenation of blocks of n elements each: element r of block q
      sits at x = q * n + r. */
  lemma {:induction false} ConcatBlockAt<T>(gs: seq<seq<T>>, n: nat, q: nat, r: nat, x: nat)
    requires forall q :: 0 <= q < |gs| ==> |gs[q]| == n
    requires q < |gs| && r < n && x == q * n + r
    ensures x < |Concat(gs)| && Concat(gs)[x] == gs[q][r]
  {
    ConcatLength(gs[1..], n);
    if q > 0 {
      assert q * n == (q - 1) * n + n;
      ConcatBlockAt(gs[1..], n, q - 1, r, x - n);
    }
  }

  // ---------------------------------------------------------------------
  // Model inputs

  /** The tokenizer's output for one sentence (ltp-rs/src/tokenizer.rs is
      not part of this model): token ids, type ids, the attention mask and
      each token's character span in the sentence. */
  datatype Encoding = Encoding(ids: seq<int>, typeIds: seq<int>, mask: seq<nat>, offsets: seq<(nat, nat)>)

  /** A sentence's word-piece count: the attention mask's sum without the
      [CLS] and [SEP] tokens. With a 0/1 mask the pieces and the two special
      tokens fit in the encoding, so every row read at 1 .. n stays inside it. */
  function ValidLength(e: Encoding): (n: nat)
    requires Sum(e.mask) >= 2
    ensures n + 2 == Sum(e.mask)
    ensures (forall k :: 0 <= k < |e.mask| ==> e.mask[k] <= 1) ==> n + 2 <= |e.mask|
  {
    if forall k :: 0 <= k < |e.mask| ==> e.mask[k] <= 1 then
      MaskSumBound(e.mask);
      Sum(e.mask) - 2
    else
      Sum(e.mask) - 2
  }

  /** A 0/1 mask sums to at most its length. */
  lemma {:induction false} MaskSumBound(mask: seq<nat>)
    requires forall k :: 0 <= k < |mask| ==> mask[k] <= 1
    ensures Sum(mask) <= |mask|
  {
    if mask != [] {
      MaskSumBound(mask[..|mask| - 1]);
    }
  }

  function Range(n: nat): (r: seq<nat>)
    ensures |r| == n && forall k :: 0 <= k < n ==> r[k] == k
  {
    seq(n, k => k)
  }

  /** The position ids: 0 .. n - 1 once for every sentence of the batch. */
  function PositionIds(n: nat, batch: nat): seq<nat>
  {
    Concat(seq(batch, _ => Range(n)))
  }

  lemma PositionIdsAt(n: nat, batch: nat)
    ensures |PositionIds(n, batch)| == batch * n
    ensures forall k :: 0 <= k < batch * n ==> PositionIds(n, batch)[k] == k % n
  {
    var gs := seq(batch, _ => Range(n));
    ConcatLength(gs, n);
    forall k | 0 <= k < batch * n
      ensures PositionIds(n, batch)[k] == k % n
    {
      var q, r := k / n, k % n;
      assert k == q * n + r;
      if q >= batch {
        MulMonotone(batch, q, n);
      }
      ConcatBlockAt(gs, n, q, r, k);
    }
  }

  /** The error pipeline_batch can return from its own code: a flattened
      input whose length is not batch x sentence length. */
  datatype Error = ShapeError(expected: nat, actual: nat)

  /** The four batch x length matrices handed to the model. */
  datatype ModelInputs = ModelInputs(rows: nat, cols: nat, ids: seq<int>, typeIds: seq<int>, mask: seq<int>, positions: seq<int>)

  /** ndarray's from_shape_vec: the data must fill the shape exactly. */
  function Shaped<T>(rows: nat, cols: nat, data: seq<T>): (r: Result<seq<T>, Error>)
    ensures r.Success? <==> |data| == rows * cols
    ensures r.Success? ==> r.value == data
  {
    if |data| == rows * cols then Success(data) else Failure(ShapeError(rows * cols, |data|))
  }

  function NatsToInts(s: seq<nat>): (r: seq<int>)
    ensures |r| == |s| && forall k :: 0 <= k < |s| ==> r[k] == s[k]
  {
    seq(|s|, k requires 0 <= k < |s| => s[k])
  }

  function FlatIds(encs: seq<Encoding>): seq<int>
  {
    Concat(seq(|encs|, k requires 0 <= k < |encs| => encs[k].ids))
  }

  function FlatTypeIds(encs: seq<Encoding>): seq<int>
  {
    Concat(seq(|encs|, k requires 0 <= k < |encs| => encs[k].typeIds))
  }

  function FlatMask(encs: seq<Encoding>): seq<int>
  {
    NatsToInts(Concat(seq(|encs|, k requires 0 <= k < |encs| => encs[k].mask)))
  }

  /** The model inputs of a batch: each encoding's vectors concatenated,
      shaped by the batch size and the first encoding's length; the first
      misshapen input is the error. */
  function EncodeInputs(encs: seq<Encoding>): (r: Result<ModelInputs, Error>)
    requires |encs| > 0
  {
    var rows, cols := |encs|, |encs[0].ids|;
    match Shaped(rows, cols, FlatIds(encs))
    case Failure(e) => Failure(e)
    case Success(ids) =>
      match Shaped(rows, cols, FlatTypeIds(encs))
      case Failure(e) => Failure(e)
      case Success(typeIds) =>
        match Shaped(rows, cols, FlatMask(encs))
        case Failure(e) => Failure(e)
        case Success(mask) =>
          match Shaped(rows, cols, NatsToInts(PositionIds(cols, rows)))
          case Failure(e) => Failure(e)
          case Success(positions) => Success(ModelInputs(rows, cols, ids, typeIds, mask, positions))
  }

  /** The batch shapes exactly when every flattened vector fills
      batch x length, which holds when the encodings are padded to one
      length; the position ids then count 0 .. length - 1 per sentence. */
  lemma EncodeInputsShape(encs: seq<Encoding>)
    requires |encs| > 0
    ensures var rows, cols := |encs|, |encs[0].ids|;
      EncodeInputs(encs).Success? <==>
        |FlatIds(encs)| == rows * cols && |FlatTypeIds(encs)| == rows * cols && |FlatMask(encs)| == rows * cols
    ensures var rows, cols := |encs|, |encs[0].ids|;
      EncodeInputs(encs).Success? ==>
        var m := EncodeInputs(encs).value;
        m.ids == FlatIds(encs) && m.typeIds == FlatTypeIds(encs) && m.mask == FlatMask(encs)
        && forall k :: 0 <= k < rows * cols ==> m.positions[k] == k % cols
    ensures (forall k :: 0 <= k < |encs| ==>
      |encs[k].ids| == |encs[0].ids| && |encs[k].typeIds| == |encs[0].ids| && |encs[k].mask| == |encs[0].ids|)
      ==> EncodeInputs(encs).Success?
  {
    var rows, cols := |encs|, |encs[0].ids|;
    PositionIdsAt(cols, rows);
    if forall k :: 0 <= k < |encs| ==>
      |encs[k].ids| == cols && |encs[k].typeIds| == cols && |encs[k].mask| == cols
    {
      ConcatLength(seq(rows, k requires 0 <= k < rows => encs[k].ids), cols);
      ConcatLength(seq(rows, k requires 0 <= k < rows => encs[k].typeIds), cols);
      ConcatLength(seq(rows, k requires 0 <= k < rows => encs[k].mask), cols);
    }
  }

  // ---------------------------------------------------------------------
  // Words, part-of-speech and named-entity tags

  /** The vocabulary entries of the first n ids of a row of tag ids. */
  function Labels(vocab: seq<string>, row: seq<nat>, n: nat): (r: seq<string>)
    requires n <= |row| && forall k :: 0 <= k < n ==> row[k] < |vocab|
    ensures |r| == n && forall k :: 0 <= k < n ==> r[k] == vocab[row[k]]
  {
    seq(n, k requires 0 <= k < n => vocab[row[k]])
  }

  /** Chunk (start, end) over word pieces becomes the character span from
      the start of piece start + 1 to the end of piece end + 1: piece 0 of
      the encoding is [CLS]. */
  function CharSpan(offsets: seq<(nat, nat)>, c: Chunk): (nat, nat)
    requires c.end + 1 < |offsets| && c.start <= c.end
  {
    (offsets[c.start + 1].0, offsets[c.end + 1].1)
  }

  ghost predicate ChunksIn(chunks: seq<Chunk>, n: nat)
  {
    forall k :: 0 <= k < |chunks| ==> chunks[k].start <= chunks[k].end < n
  }

  function CharSpans(offsets: seq<(nat, nat)>, chunks: seq<Chunk>): (spans: seq<(nat, nat)>)
    requires |offsets| > 0 && ChunksIn(chunks, |offsets| - 1)
    ensures |spans| == |chunks|
  {
    seq(|chunks|, k requires 0 <= k < |chunks| => CharSpan(offsets, chunks[k]))
  }

  ghost predicate SpansFit(text: string, spans: seq<(nat, nat)>)
  {
    forall k :: 0 <= k < |spans| ==> spans[k].0 <= spans[k].1 <= |text|
  }

  /** The words: the characters of each span. */
  function Words(text: string, spans: seq<(nat, nat)>): (words: seq<string>)
    requires SpansFit(text, spans)
    ensures |words| == |spans|
  {
    seq(|spans|, k requires 0 <= k < |spans| => text[spans[k].0 .. spans[k].1])
  }

  /** What the segmentation of one sentence needs: a mask covering [CLS]
      and [SEP], a tag row and offsets as long as the valid length plus the
      two boundary tokens, and tag ids inside the vocabulary. */
  ghost predicate SegRowOk(vocab: seq<string>, row: seq<nat>, e: Encoding)
  {
    && Sum(e.mask) >= 2
    && ValidLength(e) <= |row|
    && Sum(e.mask) <= |e.offsets|
    && forall k :: 0 <= k < ValidLength(e) ==> row[k] < |vocab|
  }

  function SegTags(vocab: seq<string>, row: seq<nat>, e: Encoding): seq<string>
    requires SegRowOk(vocab, row, e)
  {
    Labels(vocab, row, ValidLength(e))
  }

  /** The character spans of a sentence's words. */
  function SegSpans(vocab: seq<string>, row: seq<nat>, e: Encoding): (spans: seq<(nat, nat)>)
    requires SegRowOk(vocab, row, e)
    ensures |spans| == |Entities.Entities(SegTags(vocab, row, e))| <= ValidLength(e)
  {
    var chunks := Entities.Entities(SegTags(vocab, row, e));
    EntitiesWellFormed(SegTags(vocab, row, e));
    ChunkCount(chunks, ValidLength(e));
    CharSpans(e.offsets, chunks)
  }

  ghost predicate SegOk(vocab: seq<string>, row: seq<nat>, e: Encoding, text: string)
  {
    SegRowOk(vocab, row, e) && SpansFit(text, SegSpans(vocab, row, e))
  }

  function SegWords(vocab: seq<string>, row: seq<nat>, e: Encoding, text: string): seq<string>
    requires SegOk(vocab, row, e, text)
  {
    Words(text, SegSpans(vocab, row, e))
  }

  /** Chunks with strictly increasing ends below n number at most n, so a
      sentence has no more words than word pieces. */
  lemma ChunkCount(chunks: seq<Chunk>, n: nat)
    requires forall k :: 0 <= k < |chunks| ==> chunks[k].end < n
    requires forall k, k' :: 0 <= k < k' < |chunks| ==> chunks[k].end < chunks[k'].end
    ensures |chunks| <= n
  {
    if |chunks| > 0 {
      EndsGrow(chunks, |chunks| - 1);
    }
  }

  lemma {:induction false} EndsGrow(chunks: seq<Chunk>, k: nat)
    requires k < |chunks|
    requires forall k, k' :: 0 <= k < k' < |chunks| ==> chunks[k].end < chunks[k'].end
    ensures k <= chunks[k].end
  {
    if k > 0 {
      EndsGrow(chunks, k - 1);
    }
  }

  // ---------------------------------------------------------------------
  // Regrouping a flat list into sentences

  /** Consecutive groups of sizes[0], sizes[1], ... elements of `all`. */
  function Groups<T>(all: seq<T>, sizes: seq<nat>): (gs: seq<seq<T>>)
    requires Sum(sizes) <= |all|
    ensures |gs| == |sizes|
  {
    if sizes == [] then []
    else
      SumFront(sizes);
      [all[..sizes[0]]] + Groups(all[sizes[0]..], sizes[1..])
  }

  /** Group k holds sizes[k] elements, taken in order from `all`. */
  lemma {:induction false} GroupsAt<T>(all: seq<T>, sizes: seq<nat>, k: nat)
    requires Sum(sizes) <= |all| && k < |sizes|
    ensures Sum(sizes[..k]) + sizes[k] <= |all|
    ensures Groups(all, sizes)[k] == all[Sum(sizes[..k]) .. Sum(sizes[..k]) + sizes[k]]
  {
    SumFront(sizes);
    if k > 0 {
      GroupsAt(all[sizes[0]..], sizes[1..], k - 1);
      SumFront(sizes[..k]);
      assert sizes[..k][1..] == sizes[1..][..k - 1];
    }
  }

  /** The groups concatenate back to the prefix of `all` they cover. */
  lemma {:induction false} GroupsConcat<T>(all: seq<T>, sizes: seq<nat>)
    requires Sum(sizes) <= |all|
    ensures Concat(Groups(all, sizes)) == all[..Sum(sizes)]
  {
    if sizes != [] {
      SumFront(sizes);
      var gs := Groups(all, sizes);
      assert gs[0] == all[..sizes[0]] && gs[1..] == Groups(all[sizes[0]..], sizes[1..]);
      GroupsConcat(all[sizes[0]..], sizes[1..]);
      assert all[..Sum(sizes)] == all[..sizes[0]] + all[sizes[0]..][..Sum(sizes[1..])];
    }
  }

  lemma {:induction false} ConcatSplit<T>(a: seq<seq<T>>, b: seq<seq<T>>)
    ensures Concat(a + b) == Concat(a) + Concat(b)
  {
    if a != [] {
      assert (a + b)[0] == a[0] && (a + b)[1..] == a[1..] + b;
      ConcatSplit(a[1..], b);
    } else {
      assert a + b == b;
    }
  }

  lemma {:induction false} ConcatSizes<T>(gs: seq<seq<T>>, sizes: seq<nat>)
    requires |gs| == |sizes| && forall k :: 0 <= k < |sizes| ==> |gs[k]| == sizes[k]
    ensures |Concat(gs)| == Sum(sizes)
  {
    if sizes != [] {
      SumFront(sizes);
      ConcatSizes(gs[1..], sizes[1..]);
    }
  }

  /** Regrouping undoes a concatenation of groups of the given sizes,
      whatever follows them. */
  lemma {:induction false} GroupsOfConcat<T>(gs: seq<seq<T>>, sizes: seq<nat>, rest: seq<T>)
    requires |gs| == |sizes| && forall k :: 0 <= k < |sizes| ==> |gs[k]| == sizes[k]
    ensures Sum(sizes) <= |Concat(gs) + rest| && Groups(Concat(gs) + rest, sizes) == gs
  {
    ConcatSizes(gs, sizes);
    if sizes != [] {
      SumFront(sizes);
      var all := Concat(gs) + rest;
      assert all == gs[0] + (Concat(gs[1..]) + rest);
      assert all[..sizes[0]] == gs[0] && all[sizes[0]..] == Concat(gs[1..]) + rest;
      GroupsOfConcat(gs[1..], sizes[1..], rest);
      assert gs == [gs[0]] + gs[1..];
    }
  }

  /** The regrouping loop: each sentence takes its word count of elements
      off the front of the flat list. */
  method Regroup<T>(all: seq<T>, sizes: seq<nat>) returns (results: seq<seq<T>>)
    requires Sum(sizes) <= |all|
    ensures results == Groups(all, sizes)
  {
    var rest := all;
    results := [];
    for k := 0 to |sizes|
      invariant Sum(sizes[k..]) <= |rest|
      invariant results + Groups(rest, sizes[k..]) == Groups(all, sizes)
    {
      GroupsFront(rest, sizes, k);
      var result;
      result, rest := TakeFront(rest, sizes[k]);
      AppendAssoc(results, [result], Groups(rest, sizes[k + 1..]));
      results := results + [result];
    }
  }

  /** n removals from the front of a list, collected in order. */
  method TakeFront<T>(all: seq<T>, n: nat) returns (taken: seq<T>, rest: seq<T>)
    requires n <= |all|
    ensures taken == all[..n] && rest == all[n..]
  {
    rest := all;
    taken := [];
    for i := 0 to n
      invariant rest == all[i..] && taken == all[..i]
    {
      taken := taken + [rest[0]];
      rest := rest[1..];
    }
  }

  /** The groups from sentence k on: the first takes sizes[k] elements. */
  lemma GroupsFront<T>(rest: seq<T>, sizes: seq<nat>, k: nat)
    requires k < |sizes| && Sum(sizes[k..]) <= |rest|
    ensures sizes[k] <= |rest| && Sum(sizes[k + 1..]) <= |rest| - sizes[k]
    ensures Groups(rest, sizes[k..]) == [rest[..sizes[k]]] + Groups(rest[sizes[k]..], sizes[k + 1..])
  {
    SumFront(sizes[k..]);
    assert sizes[k..][1..] == sizes[k + 1..];
  }

  // ---------------------------------------------------------------------
  // Dependency arcs

  /** An index below n * m has its quotient by m below n. */
  lemma DivBound(x: nat, m: nat, n: nat)
    requires x < n * m
    ensures m > 0 && x / m < n && x == x / m * m + x % m
  {
    if x / m >= n {
      MulMonotone(n, x / m, m);
    }
  }

  /** A dependency arc of the output: the head word and the relation. */
  datatype Dep = Dep(arc: nat, rel: string)

  /** A label tensor holds, at [batch][word][other], an id of the vocabulary. */
  ghost predicate LabelAt(labels: seq<seq<seq<nat>>>, vocab: seq<string>, b: nat, w: nat, x: nat)
  {
    b < |labels| && w < |labels[b]| && x < |labels[b][w]| && labels[b][w][x] < |vocab|
  }

  /** Word position w (1-based: 0 is the root) of sentence b is one of its
      words. */
  predicate IsWord(wordNums: seq<nat>, b: nat, w: nat)
    requires b < |wordNums|
  {
    1 <= w <= wordNums[b]
  }

  /** The decoded heads: a buffer of batch x m entries, m the longest
      sentence's word count plus the root; every word's arc has a label. */
  ghost predicate DepInputs(heads: seq<nat>, labels: seq<seq<seq<nat>>>, vocab: seq<string>, wordNums: seq<nat>, m: nat)
  {
    && |wordNums| > 0 && m == Max(wordNums) + 1
    && |heads| == |wordNums| * m
    && forall b, w :: 0 <= b < |wordNums| && IsWord(wordNums, b, w) ==> WordLabelled(heads, labels, vocab, m, b, w)
  }

  /** Word w of sentence b has a label for its decoded head. */
  ghost predicate WordLabelled(heads: seq<nat>, labels: seq<seq<seq<nat>>>, vocab: seq<string>, m: nat, b: nat, w: nat)
  {
    b * m + w < |heads| && LabelAt(labels, vocab, b, w, heads[b * m + w])
  }

  /** The arc at flat index x of the decoded buffer, if x is a word's. */
  function DepCell(heads: seq<nat>, labels: seq<seq<seq<nat>>>, vocab: seq<string>, wordNums: seq<nat>, m: nat, x: nat): Option<Dep>
    requires DepInputs(heads, labels, vocab, wordNums, m) && x < |heads|
  {
    DivBound(x, m, |wordNums|);
    var batch, word := x / m, x % m;
    if word < 1 || word > wordNums[batch] then None
    else
      assert WordLabelled(heads, labels, vocab, m, batch, word);
      Some(Dep(heads[x], vocab[labels[batch][word][heads[x]]]))
  }

  /** The arcs kept from the first n cells, in order. */
  function DepKept(heads: seq<nat>, labels: seq<seq<seq<nat>>>, vocab: seq<string>, wordNums: seq<nat>, m: nat, n: nat): seq<Dep>
    requires DepInputs(heads, labels, vocab, wordNums, m) && n <= |heads|
  {
    if n == 0 then []
    else
      DepKept(heads, labels, vocab, wordNums, m, n - 1) +
      match DepCell(heads, labels, vocab, wordNums, m, n - 1)
      case Some(d) => [d]
      case None => []
  }

  /** The arcs of sentence b: one per word, word w + 1 reading cell
      b * m + w + 1. */
  function DepRow(heads: seq<nat>, labels: seq<seq<seq<nat>>>, vocab: seq<string>, wordNums: seq<nat>, m: nat, b: nat): (row: seq<Dep>)
    requires DepInputs(heads, labels, vocab, wordNums, m) && b < |wordNums|
    ensures |row| == wordNums[b]
  {
    seq(wordNums[b], w requires 0 <= w < wordNums[b] => DepWord(heads, labels, vocab, wordNums, m, b, w + 1))
  }

  function DepWord(heads: seq<nat>, labels: seq<seq<seq<nat>>>, vocab: seq<string>, wordNums: seq<nat>, m: nat, b: nat, w: nat): (d: Dep)
    requires DepInputs(heads, labels, vocab, wordNums, m) && b < |wordNums| && IsWord(wordNums, b, w)
    ensures b * m + w < |heads| && DepCell(heads, labels, vocab, wordNums, m, b * m + w) == Some(d)
  {
    var x := b * m + w;
    RowMajorBound(b, w, |wordNums|, m);
    FlatIndex(x, b, w, m);
    Dep(heads[x], vocab[labels[b][w][heads[x]]])
  }

  function DepRows(heads: seq<nat>, labels: seq<seq<seq<nat>>>, vocab: seq<string>, wordNums: seq<nat>, m: nat): (rows: seq<seq<Dep>>)
    requires DepInputs(heads, labels, vocab, wordNums, m)
    ensures |rows| == |wordNums| && forall b :: 0 <= b < |wordNums| ==> |rows[b]| == wordNums[b]
  {
    seq(|wordNums|, b requires 0 <= b < |wordNums| => DepRow(heads, labels, vocab, wordNums, m, b))
  }

  /** How many of sentence b's words the cells b * m .. b * m + w - 1
      cover: cell b * m is the root's. */
  function Seen(words: nat, w: nat): nat
  {
    if w <= 1 then 0 else if w - 1 <= words then w - 1 else words
  }

  /** Scanning the cells before x = b * m + w has kept the rows of the
      sentences before b and the first words of sentence b. */
  ghost predicate KeptUpTo(heads: seq<nat>, labels: seq<seq<seq<nat>>>, vocab: seq<string>, wordNums: seq<nat>, m: nat,
                           b: nat, w: nat, x: nat)
    requires DepInputs(heads, labels, vocab, wordNums, m) && b < |wordNums|
  {
    && x <= |heads| && Seen(wordNums[b], w) <= wordNums[b]
    && DepKept(heads, labels, vocab, wordNums, m, x)
      == Concat(DepRows(heads, labels, vocab, wordNums, m)[..b]) + DepRow(heads, labels, vocab, wordNums, m, b)[..Seen(wordNums[b], w)]
  }

  lemma {:induction false} DepKeptPrefix(heads: seq<nat>, labels: seq<seq<seq<nat>>>, vocab: seq<string>, wordNums: seq<nat>, m: nat,
                                         b: nat, w: nat, base: nat, x: nat)
    requires DepInputs(heads, labels, vocab, wordNums, m)
    requires b < |wordNums| && w <= m && base == b * m && x == base + w
    ensures KeptUpTo(heads, labels, vocab, wordNums, m, b, w, x)
    decreases b, w
  {
    if w == 0 {
      if b == 0 {
        assert Concat(DepRows(heads, labels, vocab, wordNums, m)[..0]) == [];
      } else {
        var prev := PrevBlock(b, m, base);
        DepKeptPrefix(heads, labels, vocab, wordNums, m, b - 1, m, prev, base);
        DepRowStart(heads, labels, vocab, wordNums, m, b);
      }
    } else {
      DepKeptPrefix(heads, labels, vocab, wordNums, m, b, w - 1, base, x - 1);
      DepCellStep(heads, labels, vocab, wordNums, m, b, w, base, x);
    }
  }

  /** Block b of m ends within n blocks when b < n. */
  lemma BlockEnd(b: nat, n: nat, m: nat, base: nat)
    requires b < n && base == b * m
    ensures base + m <= n * m
  {
    MulMonotone(b + 1, n, m);
    assert (b + 1) * m == base + m;
  }

  /** The start of the block before block b of m. */
  lemma PrevBlock(b: nat, m: nat, base: nat) returns (prev: nat)
    requires b > 0 && base == b * m
    ensures prev == (b - 1) * m && base == prev + m
  {
    prev := (b - 1) * m;
  }

  /** Past the last cell of sentence b - 1, its whole row is kept. */
  lemma DepRowDone(heads: seq<nat>, labels: seq<seq<seq<nat>>>, vocab: seq<string>, wordNums: seq<nat>, m: nat, b: nat)
    requires DepInputs(heads, labels, vocab, wordNums, m)
    requires 0 < b <= |wordNums|
    ensures var rows := DepRows(heads, labels, vocab, wordNums, m);
      Concat(rows[..b - 1]) + rows[b - 1][..Seen(wordNums[b - 1], m)] == Concat(rows[..b])
  {
    var rows := DepRows(heads, labels, vocab, wordNums, m);
    assert wordNums[b - 1] <= m - 1;
    assert rows[..b] == rows[..b - 1] + [rows[b - 1]];
    ConcatAppend(rows[..b - 1], rows[b - 1]);
    assert rows[b - 1][..wordNums[b - 1]] == rows[b - 1];
  }

  /** The first cell of sentence b is reached with the earlier rows kept. */
  lemma DepRowStart(heads: seq<nat>, labels: seq<seq<seq<nat>>>, vocab: seq<string>, wordNums: seq<nat>, m: nat, b: nat)
    requires DepInputs(heads, labels, vocab, wordNums, m)
    requires 0 < b < |wordNums| && KeptUpTo(heads, labels, vocab, wordNums, m, b - 1, m, b * m)
    ensures KeptUpTo(heads, labels, vocab, wordNums, m, b, 0, b * m)
  {
    DepRowDone(heads, labels, vocab, wordNums, m, b);
    assert DepRow(heads, labels, vocab, wordNums, m, b)[..0] == [];
  }

  /** Cell b * m + w - 1 adds word w - 1 of sentence b when it is a word. */
  lemma DepCellStep(heads: seq<nat>, labels: seq<seq<seq<nat>>>, vocab: seq<string>, wordNums: seq<nat>, m: nat,
                    b: nat, w: nat, base: nat, x: nat)
    requires DepInputs(heads, labels, vocab, wordNums, m)
    requires b < |wordNums| && 1 <= w <= m && base == b * m && x == base + w
    requires KeptUpTo(heads, labels, vocab, wordNums, m, b, w - 1, x - 1)
    ensures KeptUpTo(heads, labels, vocab, wordNums, m, b, w, x)
  {
    BlockEnd(b, |wordNums|, m, base);
    FlatIndex(x - 1, b, w - 1, m);
    var row := DepRow(heads, labels, vocab, wordNums, m, b);
    if IsWord(wordNums, b, w - 1) {
      var d := DepWord(heads, labels, vocab, wordNums, m, b, w - 1);
      assert row[w - 2] == d;
      assert row[..w - 1] == row[..w - 2] + [d];
    }
  }

  /** The scan keeps exactly the words' arcs, sentence by sentence. */
  lemma DepKeptRows(heads: seq<nat>, labels: seq<seq<seq<nat>>>, vocab: seq<string>, wordNums: seq<nat>, m: nat)
    requires DepInputs(heads, labels, vocab, wordNums, m)
    ensures DepKept(heads, labels, vocab, wordNums, m, |heads|) == Concat(DepRows(heads, labels, vocab, wordNums, m))
  {
    var rows := DepRows(heads, labels, vocab, wordNums, m);
    var k := |wordNums| - 1;
    var base := LastBlock(k, m, |heads|);
    DepKeptPrefix(heads, labels, vocab, wordNums, m, k, m, base, |heads|);
    DepRowDone(heads, labels, vocab, wordNums, m, k + 1);
    assert rows[..k + 1] == rows;
  }

  /** The start of the last of k + 1 blocks of m. */
  lemma LastBlock(k: nat, m: nat, n: nat) returns (base: nat)
    requires n == (k + 1) * m
    ensures base == k * m && n == base + m
  {
    base := k * m;
  }

  /** Regrouping the kept arcs by word counts gives each sentence its own
      words' arcs: word w + 1 of sentence b (the root excluded) reads cell
      b * m + w + 1. */
  lemma DepGroups(heads: seq<nat>, labels: seq<seq<seq<nat>>>, vocab: seq<string>, wordNums: seq<nat>, m: nat)
    requires DepInputs(heads, labels, vocab, wordNums, m)
    ensures var kept := DepKept(heads, labels, vocab, wordNums, m, |heads|);
      Sum(wordNums) == |kept| && Groups(kept, wordNums) == DepRows(heads, labels, vocab, wordNums, m)
  {
    var rows := DepRows(heads, labels, vocab, wordNums, m);
    DepKeptRows(heads, labels, vocab, wordNums, m);
    ConcatSizes(rows, wordNums);
    GroupsOfConcat(rows, wordNums, []);
    assert Concat(rows) + [] == Concat(rows);
  }

  // ---------------------------------------------------------------------
  // Semantic dependency edges

  /** A kept cell of the score tensor: sentence, dependent word, head word
      and relation. */
  datatype Edge = Edge(batch: nat, current: nat, target: nat, rel: string)

  /** An edge of the output. */
  datatype Sdp = Sdp(src: nat, tgt: nat, rel: string)

  /** Cell [b][c][t] of a batch x m x m tensor. */
  function CellIndex(m: nat, b: nat, c: nat, t: nat): nat
  {
    b * (m * m) + c * m + t
  }

  /** The coordinates of flat index x of a batch x m x m tensor, as the
      decoder computes them: the block of m * m cells, then row and column
      inside the block. */
  function CellBatch(m: nat, x: nat): nat
    requires m > 0
  {
    x / (m * m)
  }

  function CellCurrent(m: nat, x: nat): nat
    requires m > 0
  {
    x % (m * m) / m
  }

  function CellTarget(m: nat, x: nat): nat
    requires m > 0
  {
    x % (m * m) % m
  }

  /** A flat index below n x m x m splits into its three coordinates. */
  lemma CellSplit(x: nat, m: nat, n: nat)
    requires x < n * (m * m)
    ensures m > 0 && CellBatch(m, x) < n && CellCurrent(m, x) < m && CellTarget(m, x) < m
    ensures x == CellIndex(m, CellBatch(m, x), CellCurrent(m, x), CellTarget(m, x))
  {
    DivBound(x, m * m, n);
    DivBound(x % (m * m), m, m);
  }

  /** Coordinates inside the tensor are recovered from their flat index. */
  lemma CellJoin(m: nat, b: nat, c: nat, t: nat)
    requires c < m && t < m
    ensures var x := CellIndex(m, b, c, t);
      CellBatch(m, x) == b && CellCurrent(m, x) == c && CellTarget(m, x) == t
  {
    RowMajorBound(c, t, m, m);
    FlatIndex(CellIndex(m, b, c, t), b, c * m + t, m * m);
    FlatIndex(c * m + t, c, t, m);
  }

  /** Where the edge keeps cell [b][c][t] (score positive, or t the decoded
      head of c), its relation has a label. */
  ghost predicate EdgeLabelled(scores: seq<int>, heads: seq<nat>, labels: seq<seq<seq<nat>>>, vocab: seq<string>, m: nat,
                               b: nat, c: nat, t: nat)
  {
    var x := CellIndex(m, b, c, t);
    x < |scores| && b * m + c < |heads| && (scores[x] > 0 || heads[b * m + c] == t) ==> LabelAt(labels, vocab, b, c, t)
  }

  /** The scores: a batch x m x m tensor (or a prefix of one); the decoded
      heads: batch x m; m the longest sentence's word count plus the root. */
  ghost predicate SdpInputs(scores: seq<int>, heads: seq<nat>, labels: seq<seq<seq<nat>>>, vocab: seq<string>, wordNums: seq<nat>, m: nat)
  {
    && |wordNums| > 0 && m == Max(wordNums) + 1
    && |heads| == |wordNums| * m && |scores| <= |wordNums| * (m * m)
    && forall b, c, t :: 0 <= b < |wordNums| && IsWord(wordNums, b, c) && t <= wordNums[b] ==>
         EdgeLabelled(scores, heads, labels, vocab, m, b, c, t)
  }

  /** What the decoder's cell x needs: its coordinates, the decoded head
      it compares against, and the label where it is kept. */
  lemma SdpCellFacts(scores: seq<int>, heads: seq<nat>, labels: seq<seq<seq<nat>>>, vocab: seq<string>, wordNums: seq<nat>, m: nat, x: nat)
    requires SdpInputs(scores, heads, labels, vocab, wordNums, m) && x < |scores|
    ensures m > 0
    ensures var b, c, t := CellBatch(m, x), CellCurrent(m, x), CellTarget(m, x);
      && b < |wordNums| && c < m && t < m && x == CellIndex(m, b, c, t) && b * m + c < |heads|
      && (IsWord(wordNums, b, c) && t <= wordNums[b] && (scores[x] > 0 || heads[b * m + c] == t) ==> LabelAt(labels, vocab, b, c, t))
  {
    CellSplit(x, m, |wordNums|);
    var b, c, t := CellBatch(m, x), CellCurrent(m, x), CellTarget(m, x);
    RowMajorBound(b, c, |wordNums|, m);
    if IsWord(wordNums, b, c) && t <= wordNums[b] {
      assert EdgeLabelled(scores, heads, labels, vocab, m, b, c, t);
    }
  }

  /** The edge at flat index x of the score tensor, if it is kept: x splits
      into sentence, dependent and head, the dependent is a word (not the
      root), the head is the root or a word, and the score is positive or
      the head is the one the tree decoder chose. */
  function SdpCell(scores: seq<int>, heads: seq<nat>, labels: seq<seq<seq<nat>>>, vocab: seq<string>, wordNums: seq<nat>, m: nat, x: nat)
    : (r: Option<Edge>)
    requires SdpInputs(scores, heads, labels, vocab, wordNums, m) && x < |scores|
    ensures r.Some? ==> var e := r.value;
      && e.batch < |wordNums| && IsWord(wordNums, e.batch, e.current) && e.target <= wordNums[e.batch]
  {
    SdpCellFacts(scores, heads, labels, vocab, wordNums, m, x);
    var batch, current, target := CellBatch(m, x), CellCurrent(m, x), CellTarget(m, x);
    if current < 1 || current > wordNums[batch] || target > wordNums[batch] then None
    else
      if scores[x] > 0 || heads[batch * m + current] == target then
        Some(Edge(batch, current, target, vocab[labels[batch][current][target]]))
      else None
  }

  /** Cell [b][c][t] is kept exactly when c is a word of sentence b, t is
      the root or a word of it, and the score is positive or t is the head
      the tree decoder gave c. */
  lemma SdpCellAt(scores: seq<int>, heads: seq<nat>, labels: seq<seq<seq<nat>>>, vocab: seq<string>, wordNums: seq<nat>, m: nat,
                  b: nat, c: nat, t: nat)
    requires SdpInputs(scores, heads, labels, vocab, wordNums, m)
    requires b < |wordNums| && c < m && t < m && CellIndex(m, b, c, t) < |scores|
    ensures b * m + c < |heads|
    ensures var x := CellIndex(m, b, c, t);
      SdpCell(scores, heads, labels, vocab, wordNums, m, x).Some? <==>
        IsWord(wordNums, b, c) && t <= wordNums[b] && (scores[x] > 0 || heads[b * m + c] == t)
    ensures var r := SdpCell(scores, heads, labels, vocab, wordNums, m, CellIndex(m, b, c, t));
      r.Some? ==> r.value.batch == b && r.value.current == c && r.value.target == t
  {
    RowMajorBound(b, c, |wordNums|, m);
    CellJoin(m, b, c, t);
  }

  /** The scan's view of the score tensor: cell x in flat order. */
  function SdpCells(scores: seq<int>, heads: seq<nat>, labels: seq<seq<seq<nat>>>, vocab: seq<string>, wordNums: seq<nat>, m: nat)
    : (cells: seq<Option<Edge>>)
    requires SdpInputs(scores, heads, labels, vocab, wordNums, m)
    ensures |cells| == |scores|
    ensures forall x :: 0 <= x < |cells| ==> cells[x] == SdpCell(scores, heads, labels, vocab, wordNums, m, x)
  {
    seq(|scores|, x requires 0 <= x < |scores| => SdpCell(scores, heads, labels, vocab, wordNums, m, x))
  }

  /** The edges the scan keeps, in scan order. */
  function SdpKept(scores: seq<int>, heads: seq<nat>, labels: seq<seq<seq<nat>>>, vocab: seq<string>, wordNums: seq<nat>, m: nat)
    : seq<Edge>
    requires SdpInputs(scores, heads, labels, vocab, wordNums, m)
  {
    Somes(SdpCells(scores, heads, labels, vocab, wordNums, m))
  }

  /** The kept edges are exactly the kept cells. */
  lemma SdpKeptMembers(scores: seq<int>, heads: seq<nat>, labels: seq<seq<seq<nat>>>, vocab: seq<string>, wordNums: seq<nat>, m: nat)
    requires SdpInputs(scores, heads, labels, vocab, wordNums, m)
    ensures forall e :: e in SdpKept(scores, heads, labels, vocab, wordNums, m) <==>
      exists x :: 0 <= x < |scores| && SdpCell(scores, heads, labels, vocab, wordNums, m, x) == Some(e)
  {
    SomesMembers(SdpCells(scores, heads, labels, vocab, wordNums, m));
  }

  /** The kept edges come in scan order: the i-th was produced by the cell at
      the i-th kept flat index, and those indices increase strictly. */
  lemma SdpKeptOrdered(scores: seq<int>, heads: seq<nat>, labels: seq<seq<seq<nat>>>, vocab: seq<string>, wordNums: seq<nat>, m: nat)
    requires SdpInputs(scores, heads, labels, vocab, wordNums, m)
    ensures var kept, cells := SdpKept(scores, heads, labels, vocab, wordNums, m), SomeIndices(SdpCells(scores, heads, labels, vocab, wordNums, m));
      && |cells| == |kept|
      && (forall i :: 0 <= i < |cells| ==> cells[i] < |scores|)
      && (forall i :: 0 <= i < |cells| ==> SdpCell(scores, heads, labels, vocab, wordNums, m, cells[i]) == Some(kept[i]))
      && (forall i, j :: 0 <= i < j < |cells| ==> cells[i] < cells[j])
  {
    SomesOrdered(SdpCells(scores, heads, labels, vocab, wordNums, m));
  }

  function ToSdp(e: Edge): Sdp
  {
    Sdp(e.current, e.target, e.rel)
  }

  /** The output edges of sentence b, in the order they were kept. */
  function Select(all: seq<Edge>, b: nat): seq<Sdp>
  {
    if all == [] then []
    else Select(all[..|all| - 1], b) + if all[|all| - 1].batch == b then [ToSdp(all[|all| - 1])] else []
  }

  lemma {:induction false} SelectMembers(all: seq<Edge>, b: nat)
    ensures forall s :: s in Select(all, b) <==> exists e :: e in all && e.batch == b && ToSdp(e) == s
  {
    if all != [] {
      SelectMembers(all[..|all| - 1], b);
      assert all == all[..|all| - 1] + [all[|all| - 1]];
    }
  }

  /** The grouping loop: each kept edge is appended to its sentence's list. */
  method SdpGroup(all: seq<Edge>, batchSize: nat) returns (results: seq<seq<Sdp>>)
    requires forall k :: 0 <= k < |all| ==> all[k].batch < batchSize
    ensures |results| == batchSize && forall b :: 0 <= b < batchSize ==> results[b] == Select(all, b)
  {
    results := seq(batchSize, _ => []);
    for k := 0 to |all|
      invariant |results| == batchSize && forall b :: 0 <= b < batchSize ==> results[b] == Select(all[..k], b)
    {
      var e := all[k];
      assert all[..k + 1][..k] == all[..k];
      results := results[e.batch := results[e.batch] + [ToSdp(e)]];
    }
    assert all[..|all|] == all;
  }

  /** An edge (c, t, rel) is in sentence b's output exactly when some cell
      of the tensor is kept as (b, c, t, rel). */
  lemma SdpGroups(scores: seq<int>, heads: seq<nat>, labels: seq<seq<seq<nat>>>, vocab: seq<string>, wordNums: seq<nat>, m: nat, b: nat)
    requires SdpInputs(scores, heads, labels, vocab, wordNums, m)
    ensures forall s: Sdp :: s in Select(SdpKept(scores, heads, labels, vocab, wordNums, m), b) <==>
      exists x :: 0 <= x < |scores| && SdpCell(scores, heads, labels, vocab, wordNums, m, x) == Some(Edge(b, s.src, s.tgt, s.rel))
    ensures b < |wordNums| ==> forall s :: s in Select(SdpKept(scores, heads, labels, vocab, wordNums, m), b) ==>
      1 <= s.src <= wordNums[b] && s.tgt <= wordNums[b]
  {
    var kept := SdpKept(scores, heads, labels, vocab, wordNums, m);
    SdpKeptMembers(scores, heads, labels, vocab, wordNums, m);
    SelectMembers(kept, b);
    forall s | s in Select(kept, b)
      ensures exists x :: 0 <= x < |scores| && SdpCell(scores, heads, labels, vocab, wordNums, m, x) == Some(Edge(b, s.src, s.tgt, s.rel))
    {
      var e :| e in kept && e.batch == b && ToSdp(e) == s;
      assert e == Edge(b, s.src, s.tgt, s.rel);
    }
    forall s: Sdp | exists x :: 0 <= x < |scores| && SdpCell(scores, heads, labels, vocab, wordNums, m, x) == Some(Edge(b, s.src, s.tgt, s.rel))
      ensures s in Select(kept, b)
    {
      var e := Edge(b, s.src, s.tgt, s.rel);
      assert e in kept && ToSdp(e) == s;
    }
  }
}
