/** LTP::pipeline_batch and LTP::pipeline in ltp-rs/src/interface.rs: the
    per-task post-processing steps put together, each task's output lifted
    to one optional entry per sentence, and the six lists zipped into one
    result per sentence. */
module Pipeline {
  import opened Common
  import opened Interface
  import Entities
  import Viterbi

  /** One sentence's analysis; a task without a vocabulary is None. */
  datatype LtpResult = LtpResult(seg: Option<seq<string>>, pos: Option<seq<string>>, ner: Option<seq<string>>,
                                 dep: Option<seq<Dep>>, sdp: Option<seq<Sdp>>, srl: Option<seq<seq<string>>>)

  /** The label vocabularies: a task runs only when its vocabulary is loaded. */
  datatype Vocabs = Vocabs(seg: Option<seq<string>>, pos: Option<seq<string>>, ner: Option<seq<string>>,
                           srl: Option<seq<string>>, dep: Option<seq<string>>, sdp: Option<seq<string>>)

  /** The model's outputs, by task: tag-id rows for segmentation,
      part-of-speech and named entities, the Viterbi history and final tags
      for semantic roles, and for both dependency tasks the decoded head
      buffer with its label tensor (and the arc scores for semantic
      dependencies). */
  datatype Outputs = Outputs(seg: seq<seq<nat>>, pos: seq<seq<nat>>, ner: seq<seq<nat>>,
                             srlHistory: seq<nat>, srlLastTags: seq<nat>,
                             depHeads: seq<nat>, depLabels: seq<seq<seq<nat>>>,
                             sdpScores: seq<int>, sdpHeads: seq<nat>, sdpLabels: seq<seq<seq<nat>>>)

  // ---------------------------------------------------------------------
  // option_vec_to_vec_option and multizip

  /** A disabled task becomes `size` copies of None; an enabled one wraps
      each of its entries in Some. */
  function Lift<T>(items: Option<seq<T>>, size: nat): (r: seq<Option<T>>)
    ensures |r| == if items.Some? then |items.value| else size
    ensures items.None? ==> forall k :: 0 <= k < |r| ==> r[k].None?
  {
    match items
    case None => seq(size, _ => None)
    case Some(xs) => seq(|xs|, k requires 0 <= k < |xs| => Some(xs[k]))
  }

  lemma {:induction false} SomesWrapped<T>(xs: seq<T>)
    ensures Somes(seq(|xs|, k requires 0 <= k < |xs| => Some(xs[k]))) == xs
  {
    if xs != [] {
      var w := seq(|xs|, k requires 0 <= k < |xs| => Some(xs[k]));
      var init := xs[..|xs| - 1];
      SomesWrapped(init);
      assert w[..|w| - 1] == seq(|init|, k requires 0 <= k < |init| => Some(init[k]));
      assert xs == init + [xs[|xs| - 1]];
    }
  }

  lemma {:induction false} SomesNone<T>(n: nat)
    ensures Somes(seq<Option<T>>(n, _ => None)) == []
  {
    if n > 0 {
      SomesNone<T>(n - 1);
      assert seq<Option<T>>(n, _ => None)[..n - 1] == seq<Option<T>>(n - 1, _ => None);
    }
  }

  /** Lifting loses nothing: the present entries are the task's list, and
      a disabled task has none. */
  lemma LiftSomes<T>(items: Option<seq<T>>, size: nat)
    ensures Somes(Lift(items, size)) == if items.Some? then items.value else []
  {
    match items
    case None => SomesNone<T>(size);
    case Some(xs) => SomesWrapped(xs);
  }

  /** multizip: one result per index up to the shortest list, fields taken
      from the lists at that index. */
  function Assemble(seg: seq<Option<seq<string>>>, pos: seq<Option<seq<string>>>, ner: seq<Option<seq<string>>>,
                    srl: seq<Option<seq<seq<string>>>>, dep: seq<Option<seq<Dep>>>, sdp: seq<Option<seq<Sdp>>>)
    : (r: seq<LtpResult>)
    ensures |r| <= |seg| && |r| <= |pos| && |r| <= |ner| && |r| <= |srl| && |r| <= |dep| && |r| <= |sdp|
    ensures |r| == |seg| || |r| == |pos| || |r| == |ner| || |r| == |srl| || |r| == |dep| || |r| == |sdp|
    ensures forall k :: 0 <= k < |r| ==> r[k] == LtpResult(seg[k], pos[k], ner[k], dep[k], sdp[k], srl[k])
  {
    var n := MinN(MinN(MinN(|seg|, |pos|), MinN(|ner|, |srl|)), MinN(|dep|, |sdp|));
    seq(n, k requires 0 <= k < n => LtpResult(seg[k], pos[k], ner[k], dep[k], sdp[k], srl[k]))
  }

  // ---------------------------------------------------------------------
  // Segmentation

  ghost predicate SegBatchOk(vocab: seq<string>, rows: seq<seq<nat>>, encs: seq<Encoding>, texts: seq<string>)
  {
    |rows| == |encs| == |texts| && forall b :: 0 <= b < |texts| ==> SegOk(vocab, rows[b], encs[b], texts[b])
  }

  /** The words of every sentence; a sentence has one word per chunk of
      its segmentation tags. */
  function SegOutput(vocab: seq<string>, rows: seq<seq<nat>>, encs: seq<Encoding>, texts: seq<string>): (words: seq<seq<string>>)
    requires SegBatchOk(vocab, rows, encs, texts)
    ensures |words| == |texts|
    ensures forall b :: 0 <= b < |texts| ==> |words[b]| == |Entities.Entities(SegTags(vocab, rows[b], encs[b]))|
  {
    seq(|texts|, b requires 0 <= b < |texts| => SegWords(vocab, rows[b], encs[b], texts[b]))
  }

  /** The word count of every sentence. */
  function WordCounts(words: seq<seq<string>>): (counts: seq<nat>)
    ensures |counts| == |words| && forall b :: 0 <= b < |words| ==> counts[b] == |words[b]|
  {
    seq(|words|, b requires 0 <= b < |words| => |words[b]|)
  }

  /** The segmentation step: chunk each sentence's tags, map the chunks to
      character spans and cut the words out of the text. */
  method Segment(vocab: seq<string>, rows: seq<seq<nat>>, encs: seq<Encoding>, texts: seq<string>) returns (words: seq<seq<string>>)
    requires SegBatchOk(vocab, rows, encs, texts)
    ensures words == SegOutput(vocab, rows, encs, texts)
  {
    words := [];
    for b := 0 to |texts|
      invariant |words| == b
      invariant forall k :: 0 <= k < b ==> words[k] == SegWords(vocab, rows[k], encs[k], texts[k])
    {
      var e := encs[b];
      var tags := SegTags(vocab, rows[b], e);
      var chunks := Entities.GetEntities(tags);
      Entities.EntitiesWellFormed(tags);
      var spans := CharSpans(e.offsets, chunks);
      assert spans == SegSpans(vocab, rows[b], e);
      words := words + [Words(texts[b], spans)];
    }
  }

  // ---------------------------------------------------------------------
  // Part-of-speech and named-entity tags

  /** Every row covers its sentence's words with ids inside the vocabulary. */
  ghost predicate TagsFit(vocab: seq<string>, rows: seq<seq<nat>>, counts: seq<nat>)
  {
    && |rows| == |counts|
    && forall b :: 0 <= b < |counts| ==> counts[b] <= |rows[b]| && forall k :: 0 <= k < counts[b] ==> rows[b][k] < |vocab|
  }

  /** Each sentence's row sliced to its word count, as vocabulary entries:
      one tag per word. */
  function Tagged(vocab: seq<string>, rows: seq<seq<nat>>, counts: seq<nat>): (tags: seq<seq<string>>)
    requires TagsFit(vocab, rows, counts)
    ensures |tags| == |counts|
    ensures forall b :: 0 <= b < |counts| ==> |tags[b]| == counts[b]
  {
    seq(|counts|, b requires 0 <= b < |counts| => Labels(vocab, rows[b], counts[b]))
  }

  // ---------------------------------------------------------------------
  // Semantic roles

  /** Decoded label rows as vocabulary entries. */
  function TagNames(vocab: seq<string>, rows: seq<seq<nat>>): (names: seq<seq<string>>)
    requires Viterbi.TagsBelow(rows, |vocab|)
    ensures |names| == |rows|
  {
    seq(|rows|, r requires 0 <= r < |rows| => Labels(vocab, rows[r], |rows[r]|))
  }

  /** The decoded rows, named and regrouped: sentence b takes one row per
      word. */
  function SrlOutput(vocab: seq<string>, history: seq<nat>, lastTags: seq<nat>, counts: seq<nat>): (srl: seq<seq<seq<string>>>)
    requires Viterbi.Inputs(history, lastTags, counts, |vocab|)
    ensures |srl| == |counts|
  {
    Viterbi.DecodeTags(history, lastTags, counts, |vocab|);
    Viterbi.DecodeLength(history, lastTags, counts, |vocab|);
    Groups(TagNames(vocab, Viterbi.Decode(history, lastTags, counts, |vocab|)), counts)
  }

  method Srl(vocab: seq<string>, history: seq<nat>, lastTags: seq<nat>, counts: seq<nat>) returns (srl: seq<seq<seq<string>>>)
    requires Viterbi.Inputs(history, lastTags, counts, |vocab|)
    ensures srl == SrlOutput(vocab, history, lastTags, counts)
  {
    var decoded := Viterbi.ViterbiDecodePostprocess(history, lastTags, counts, |vocab|);
    Viterbi.DecodeTags(history, lastTags, counts, |vocab|);
    Viterbi.DecodeLength(history, lastTags, counts, |vocab|);
    srl := Regroup(TagNames(vocab, decoded), counts);
  }

  /** Sentence b has one row per word; row j, decoded for flat row
      Sum(counts[..b]) + j, has one label per word and ends with that row's
      final label. */
  lemma SrlRow(vocab: seq<string>, history: seq<nat>, lastTags: seq<nat>, counts: seq<nat>, b: nat, j: nat, row: nat)
    requires Viterbi.Inputs(history, lastTags, counts, |vocab|)
    requires b < |counts| && j < counts[b] && row == Sum(counts[..b]) + j
    ensures |SrlOutput(vocab, history, lastTags, counts)[b]| == counts[b]
    ensures row < |lastTags| && lastTags[row] < |vocab|
    ensures var r := SrlOutput(vocab, history, lastTags, counts)[b][j];
      |r| == counts[b] && r[counts[b] - 1] == vocab[lastTags[row]]
  {
    var out := Viterbi.Decode(history, lastTags, counts, |vocab|);
    Viterbi.DecodeTags(history, lastTags, counts, |vocab|);
    Viterbi.DecodeLength(history, lastTags, counts, |vocab|);
    var names := TagNames(vocab, out);
    GroupsAt(names, counts, b);
    Viterbi.DecodedRowSpec(history, lastTags, counts, |vocab|, b, j, row);
    assert SrlOutput(vocab, history, lastTags, counts)[b][j] == names[row];
  }

  // ---------------------------------------------------------------------
  // Dependency arcs

  /** The kept arcs regrouped by word counts. */
  function DepOutput(heads: seq<nat>, labels: seq<seq<seq<nat>>>, vocab: seq<string>, counts: seq<nat>): (dep: seq<seq<Dep>>)
    requires |counts| > 0 && DepInputs(heads, labels, vocab, counts, Max(counts) + 1)
    ensures |dep| == |counts|
    ensures dep == DepRows(heads, labels, vocab, counts, Max(counts) + 1)
  {
    DepGroups(heads, labels, vocab, counts, Max(counts) + 1);
    Groups(DepKept(heads, labels, vocab, counts, Max(counts) + 1, |heads|), counts)
  }

  method DepBatch(heads: seq<nat>, labels: seq<seq<seq<nat>>>, vocab: seq<string>, counts: seq<nat>) returns (dep: seq<seq<Dep>>)
    requires |counts| > 0 && DepInputs(heads, labels, vocab, counts, Max(counts) + 1)
    ensures dep == DepOutput(heads, labels, vocab, counts)
  {
    var m := Max(counts) + 1;
    var kept := DepKept(heads, labels, vocab, counts, m, |heads|);
    DepGroups(heads, labels, vocab, counts, m);
    dep := Regroup(kept, counts);
  }

  // ---------------------------------------------------------------------
  // Semantic dependency edges

  /** The kept edges, sentence by sentence, in scan order. */
  function SdpOutput(scores: seq<int>, heads: seq<nat>, labels: seq<seq<seq<nat>>>, vocab: seq<string>, counts: seq<nat>)
    : (sdp: seq<seq<Sdp>>)
    requires |counts| > 0 && SdpInputs(scores, heads, labels, vocab, counts, Max(counts) + 1)
    ensures |sdp| == |counts|
  {
    seq(|counts|, b requires 0 <= b < |counts| => Select(SdpKept(scores, heads, labels, vocab, counts, Max(counts) + 1), b))
  }

  /** Every kept edge belongs to a sentence of the batch. */
  lemma SdpKeptInBatch(scores: seq<int>, heads: seq<nat>, labels: seq<seq<seq<nat>>>, vocab: seq<string>, counts: seq<nat>, m: nat)
    requires SdpInputs(scores, heads, labels, vocab, counts, m)
    ensures var kept := SdpKept(scores, heads, labels, vocab, counts, m);
      forall k :: 0 <= k < |kept| ==> kept[k].batch < |counts|
  {
    var kept := SdpKept(scores, heads, labels, vocab, counts, m);
    SdpKeptMembers(scores, heads, labels, vocab, counts, m);
    forall k | 0 <= k < |kept|
      ensures kept[k].batch < |counts|
    {
      assert kept[k] in kept;
    }
  }

  method SdpBatch(scores: seq<int>, heads: seq<nat>, labels: seq<seq<seq<nat>>>, vocab: seq<string>, counts: seq<nat>)
    returns (sdp: seq<seq<Sdp>>)
    requires |counts| > 0 && SdpInputs(scores, heads, labels, vocab, counts, Max(counts) + 1)
    ensures sdp == SdpOutput(scores, heads, labels, vocab, counts)
  {
    var m := Max(counts) + 1;
    var kept := SdpKept(scores, heads, labels, vocab, counts, m);
    SdpKeptInBatch(scores, heads, labels, vocab, counts, m);
    sdp := SdpGroup(kept, |counts|);
  }

  // ---------------------------------------------------------------------
  // The whole batch

  /** What every enabled task needs of the model's outputs, given the word
      counts: rows long enough with ids inside the vocabularies, a
      well-formed Viterbi history, and decoded heads and labels for every
      word. */
  ghost predicate TasksFit(vocabs: Vocabs, outs: Outputs, counts: seq<nat>)
  {
    && |counts| > 0
    && (vocabs.pos.Some? ==> TagsFit(vocabs.pos.value, outs.pos, counts))
    && (vocabs.ner.Some? ==> TagsFit(vocabs.ner.value, outs.ner, counts))
    && (vocabs.srl.Some? ==> Viterbi.Inputs(outs.srlHistory, outs.srlLastTags, counts, |vocabs.srl.value|))
    && (vocabs.dep.Some? ==> DepInputs(outs.depHeads, outs.depLabels, vocabs.dep.value, counts, Max(counts) + 1))
    && (vocabs.sdp.Some? ==> SdpInputs(outs.sdpScores, outs.sdpHeads, outs.sdpLabels, vocabs.sdp.value, counts, Max(counts) + 1))
  }

  /** What the post-processing needs once the inputs are shaped: the
      segmentation vocabulary (the word counts are unwrapped from it), the
      segmentation rows for every sentence, and every enabled task's
      outputs. */
  ghost predicate OutputsFit(sentences: seq<string>, encs: seq<Encoding>, vocabs: Vocabs, outs: Outputs)
  {
    && vocabs.seg.Some?
    && SegBatchOk(vocabs.seg.value, outs.seg, encs, sentences)
    && TasksFit(vocabs, outs, WordCounts(SegOutput(vocabs.seg.value, outs.seg, encs, sentences)))
  }

  /** A non-empty batch with one encoding per sentence, each mask covering
      [CLS] and [SEP]; once the inputs are shaped, the outputs fit. */
  ghost predicate PipelineInputs(sentences: seq<string>, encs: seq<Encoding>, vocabs: Vocabs, outs: Outputs)
  {
    && |sentences| > 0 && |encs| == |sentences|
    && (forall b :: 0 <= b < |encs| ==> Sum(encs[b].mask) >= 2)
    && (EncodeInputs(encs).Success? ==> OutputsFit(sentences, encs, vocabs, outs))
  }

  /** The results of a shaped batch: the words, then each task's output,
      lifted and zipped. */
  function Results(sentences: seq<string>, encs: seq<Encoding>, vocabs: Vocabs, outs: Outputs): seq<LtpResult>
    requires |sentences| > 0 && |encs| == |sentences| && OutputsFit(sentences, encs, vocabs, outs)
  {
    TaskResults(vocabs, outs, SegOutput(vocabs.seg.value, outs.seg, encs, sentences))
  }

  function TaskResults(vocabs: Vocabs, outs: Outputs, words: seq<seq<string>>): seq<LtpResult>
    requires TasksFit(vocabs, outs, WordCounts(words))
  {
    var batch := |words|;
    var counts := WordCounts(words);
    var pos := if vocabs.pos.Some? then Some(Tagged(vocabs.pos.value, outs.pos, counts)) else None;
    var ner := if vocabs.ner.Some? then Some(Tagged(vocabs.ner.value, outs.ner, counts)) else None;
    var srl := if vocabs.srl.Some? then Some(SrlOutput(vocabs.srl.value, outs.srlHistory, outs.srlLastTags, counts)) else None;
    var dep := if vocabs.dep.Some? then Some(DepOutput(outs.depHeads, outs.depLabels, vocabs.dep.value, counts)) else None;
    var sdp := if vocabs.sdp.Some? then Some(SdpOutput(outs.sdpScores, outs.sdpHeads, outs.sdpLabels, vocabs.sdp.value, counts)) else None;
    Assemble(Lift(Some(words), batch), Lift(pos, batch), Lift(ner, batch), Lift(srl, batch), Lift(dep, batch), Lift(sdp, batch))
  }

  /** The tasks after segmentation, each enabled one run on the word counts. */
  method Tasks(vocabs: Vocabs, outs: Outputs, words: seq<seq<string>>) returns (rs: seq<LtpResult>)
    requires TasksFit(vocabs, outs, WordCounts(words))
    ensures rs == TaskResults(vocabs, outs, words)
  {
    var batch := |words|;
    var counts := WordCounts(words);
    var pos: Option<seq<seq<string>>> := None;
    if vocabs.pos.Some? {
      pos := Some(Tagged(vocabs.pos.value, outs.pos, counts));
    }
    var ner: Option<seq<seq<string>>> := None;
    if vocabs.ner.Some? {
      ner := Some(Tagged(vocabs.ner.value, outs.ner, counts));
    }
    var srl: Option<seq<seq<seq<string>>>> := None;
    if vocabs.srl.Some? {
      var groups := Srl(vocabs.srl.value, outs.srlHistory, outs.srlLastTags, counts);
      srl := Some(groups);
    }
    var dep: Option<seq<seq<Dep>>> := None;
    if vocabs.dep.Some? {
      var groups := DepBatch(outs.depHeads, outs.depLabels, vocabs.dep.value, counts);
      dep := Some(groups);
    }
    var sdp: Option<seq<seq<Sdp>>> := None;
    if vocabs.sdp.Some? {
      var groups := SdpBatch(outs.sdpScores, outs.sdpHeads, outs.sdpLabels, vocabs.sdp.value, counts);
      sdp := Some(groups);
    }
    rs := Assemble(Lift(Some(words), batch), Lift(pos, batch), Lift(ner, batch), Lift(srl, batch), Lift(dep, batch), Lift(sdp, batch));
  }

  /** pipeline_batch: the first misshapen model input is the error;
      otherwise one result per sentence. */
  function PipelineSpec(sentences: seq<string>, encs: seq<Encoding>, vocabs: Vocabs, outs: Outputs): Result<seq<LtpResult>, Error>
    requires PipelineInputs(sentences, encs, vocabs, outs)
  {
    match EncodeInputs(encs)
    case Failure(e) => Failure(e)
    case Success(_) => Success(Results(sentences, encs, vocabs, outs))
  }

  method PipelineBatch(sentences: seq<string>, encs: seq<Encoding>, vocabs: Vocabs, outs: Outputs)
    returns (r: Result<seq<LtpResult>, Error>)
    requires PipelineInputs(sentences, encs, vocabs, outs)
    ensures r.Success? <==> EncodeInputs(encs).Success?
    ensures r == PipelineSpec(sentences, encs, vocabs, outs)
  {
    var inputs := EncodeInputs(encs);
    if inputs.Failure? {
      return Failure(inputs.error);
    }
    var words := Segment(vocabs.seg.value, outs.seg, encs, sentences);
    var rs := Tasks(vocabs, outs, words);
    r := Success(rs);
  }

  /** One result per sentence; its words are the sentence's segmentation,
      and every enabled task gives one entry per word, every disabled one
      None. */
  lemma ResultsShape(sentences: seq<string>, encs: seq<Encoding>, vocabs: Vocabs, outs: Outputs)
    requires |sentences| > 0 && |encs| == |sentences| && OutputsFit(sentences, encs, vocabs, outs)
    ensures var rs, words := Results(sentences, encs, vocabs, outs), SegOutput(vocabs.seg.value, outs.seg, encs, sentences);
      && |rs| == |sentences|
      && forall b :: 0 <= b < |rs| ==>
        && rs[b].seg == Some(words[b])
        && (rs[b].pos.Some? <==> vocabs.pos.Some?) && (rs[b].pos.Some? ==> |rs[b].pos.value| == |words[b]|)
        && (rs[b].ner.Some? <==> vocabs.ner.Some?) && (rs[b].ner.Some? ==> |rs[b].ner.value| == |words[b]|)
        && (rs[b].srl.Some? <==> vocabs.srl.Some?)
        && (rs[b].dep.Some? <==> vocabs.dep.Some?)
        && (rs[b].sdp.Some? <==> vocabs.sdp.Some?)
  {
  }

  /** pipeline: a batch of one sentence, and its only result. */
  method Pipeline(sentence: string, enc: Encoding, vocabs: Vocabs, outs: Outputs) returns (r: Result<LtpResult, Error>)
    requires PipelineInputs([sentence], [enc], vocabs, outs)
    ensures r.Success? <==> EncodeInputs([enc]).Success?
    ensures r.Success? ==> r.value == PipelineSpec([sentence], [enc], vocabs, outs).value[0]
  {
    var results := PipelineBatch([sentence], [enc], vocabs, outs);
    match results
    case Failure(e) =>
      r := Failure(e);
    case Success(rs) =>
      ResultsShape([sentence], [enc], vocabs, outs);
      r := Success(rs[0]);
  }

  /** A lone sentence always shapes when its three vectors are as long as
      its token ids, and its result then carries its words. */
  lemma PipelineSingle(sentence: string, enc: Encoding, vocabs: Vocabs, outs: Outputs)
    requires PipelineInputs([sentence], [enc], vocabs, outs)
    requires |enc.typeIds| == |enc.ids| && |enc.mask| == |enc.ids|
    ensures PipelineSpec([sentence], [enc], vocabs, outs).Success?
    ensures |PipelineSpec([sentence], [enc], vocabs, outs).value| == 1
    ensures PipelineSpec([sentence], [enc], vocabs, outs).value[0].seg == Some(SegWords(vocabs.seg.value, outs.seg[0], enc, sentence))
  {
    EncodeInputsShape([enc]);
    ResultsShape([sentence], [enc], vocabs, outs);
  }
}
