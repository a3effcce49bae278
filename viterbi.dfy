/** Viterbi backtrace: rebuilds each row's best label path from a flattened
    backpointer history and the row's final label. */
module Viterbi {
  import opened Common

  /** The flattened history index of (step, row, tag): steps are blocks of
      maxLen * labels entries and rows are blocks of labels entries. */
  function HistoryIndex(step: nat, row: nat, tag: nat, maxLen: nat, labels: nat): nat
  {
    step * (maxLen * labels) + row * labels + tag
  }

  /** What the history must hold for a batch with `rows` rows: every stored
      label is below `labels`, and every step below maxLen - 1 is present
      for every row. */
  ghost predicate HistoryShape(history: seq<nat>, maxLen: nat, rows: nat, labels: nat)
  {
    && (forall k :: 0 <= k < |history| ==> history[k] < labels)
    && (maxLen >= 2 ==> |history| >= (maxLen - 2) * (maxLen * labels) + rows * labels)
  }

  lemma IndexInHistory(history: seq<nat>, maxLen: nat, rows: nat, labels: nat, step: nat, row: nat, tag: nat)
    requires HistoryShape(history, maxLen, rows, labels)
    requires maxLen >= 2 && step <= maxLen - 2 && row < rows && tag < labels
    ensures HistoryIndex(step, row, tag, maxLen, labels) < |history|
  {
    MulMonotone(step, maxLen - 2, maxLen * labels);
    RowMajorBound(row, tag, rows, labels);
  }

  /** best_tags after n - 1 backward steps from lastTag, before it is
      reversed: element t is the label at position len - 1 - t. */
  function Backward(history: seq<nat>, lastTag: nat, len: nat, row: nat, maxLen: nat, rows: nat, labels: nat, n: nat): (r: seq<nat>)
    requires HistoryShape(history, maxLen, rows, labels)
    requires 1 <= n <= len <= maxLen && row < rows && lastTag < labels
    ensures |r| == n && r[0] == lastTag
    ensures forall k :: 0 <= k < n ==> r[k] < labels
    decreases n
  {
    if n == 1 then [lastTag]
    else
      var prev := Backward(history, lastTag, len, row, maxLen, rows, labels, n - 1);
      var step := len - 1 - (n - 1) + (maxLen - len);
      IndexInHistory(history, maxLen, rows, labels, step, row, prev[n - 2]);
      prev + [history[HistoryIndex(step, row, prev[n - 2], maxLen, labels)]]
  }

  /** The decoded label path of one row of a sentence of length len, earliest position first. */
  function Row(history: seq<nat>, lastTag: nat, len: nat, row: nat, maxLen: nat, rows: nat, labels: nat): seq<nat>
    requires HistoryShape(history, maxLen, rows, labels)
    requires 1 <= len <= maxLen && row < rows && lastTag < labels
  {
    Reversed(Backward(history, lastTag, len, row, maxLen, rows, labels, len))
  }

  ghost predicate Inputs(history: seq<nat>, lastTags: seq<nat>, lengths: seq<nat>, labels: nat)
  {
    && |lengths| > 0
    && |lastTags| >= Sum(lengths)
    && (forall k :: 0 <= k < |lastTags| ==> lastTags[k] < labels)
    && HistoryShape(history, Max(lengths), Sum(lengths), labels)
  }

  /** The rows of sentence k: one per word, each decoded with the sentence's length. */
  function SentenceRows(history: seq<nat>, lastTags: seq<nat>, lengths: seq<nat>, labels: nat, k: nat): seq<seq<nat>>
    requires Inputs(history, lastTags, lengths, labels) && k < |lengths|
  {
    var first := Sum(lengths[..k]);
    SumPrefix(lengths, k);
    SumPrefixBound(lengths, k + 1);
    seq(lengths[k], j requires 0 <= j < lengths[k] =>
      Row(history, lastTags[first + j], lengths[k], first + j, Max(lengths), Sum(lengths), labels))
  }

  lemma SentenceRowsAt(history: seq<nat>, lastTags: seq<nat>, lengths: seq<nat>, labels: nat, k: nat, j: nat, row: nat)
    requires Inputs(history, lastTags, lengths, labels) && k < |lengths| && j < lengths[k]
    requires row == Sum(lengths[..k]) + j
    ensures row < Sum(lengths) && |SentenceRows(history, lastTags, lengths, labels, k)| == lengths[k]
    ensures SentenceRows(history, lastTags, lengths, labels, k)[j]
      == Row(history, lastTags[row], lengths[k], row, Max(lengths), Sum(lengths), labels)
  {
    SumPrefix(lengths, k);
    SumPrefixBound(lengths, k + 1);
  }

  /** The rows of sentences k, k + 1, ... in order. */
  function DecodeFrom(history: seq<nat>, lastTags: seq<nat>, lengths: seq<nat>, labels: nat, k: nat): seq<seq<nat>>
    requires Inputs(history, lastTags, lengths, labels) && k <= |lengths|
    decreases |lengths| - k
  {
    if k == |lengths| then []
    else SentenceRows(history, lastTags, lengths, labels, k) + DecodeFrom(history, lastTags, lengths, labels, k + 1)
  }

  function Decode(history: seq<nat>, lastTags: seq<nat>, lengths: seq<nat>, labels: nat): seq<seq<nat>>
    requires Inputs(history, lastTags, lengths, labels)
  {
    DecodeFrom(history, lastTags, lengths, labels, 0)
  }

  /** The body of viterbi_decode_postprocess's inner loop: walk back
      len - 1 steps from the row's last label, each step shifted by the
      padding bias maxLen - len, then reverse. */
  method BacktraceRow(history: seq<nat>, lastTag: nat, len: nat, row: nat, maxLen: nat, ghost rows: nat, labels: nat)
    returns (bestTags: seq<nat>)
    requires HistoryShape(history, maxLen, rows, labels)
    requires 1 <= len <= maxLen && row < rows && lastTag < labels
    ensures bestTags == Row(history, lastTag, len, row, maxLen, rows, labels)
  {
    var stnBias := maxLen * labels;
    bestTags := [lastTag];
    var pathBias := maxLen - len;
    var t := 1;
    while t < len
      invariant 1 <= t <= len
      invariant bestTags == Backward(history, lastTag, len, row, maxLen, rows, labels, t)
    {
      var searchEnd := len - 1 - t + pathBias;
      var forwardBest := bestTags[|bestTags| - 1];
      IndexInHistory(history, maxLen, rows, labels, searchEnd, row, forwardBest);
      var index := searchEnd * stnBias + row * labels + forwardBest;
      bestTags := bestTags + [history[index]];
      t := t + 1;
    }
    bestTags := Reversed(bestTags);
  }

  /** The rows of sentence k, one per word; `first` is the running row
      counter stn_idx when the sentence begins. */
  method DecodeSentence(history: seq<nat>, lastTags: seq<nat>, lengths: seq<nat>, labels: nat, k: nat, first: nat)
    returns (rows: seq<seq<nat>>)
    requires Inputs(history, lastTags, lengths, labels) && k < |lengths|
    requires first == Sum(lengths[..k])
    ensures rows == SentenceRows(history, lastTags, lengths, labels, k)
  {
    var maxLen := Max(lengths);
    var len := lengths[k];
    ghost var sentence := SentenceRows(history, lastTags, lengths, labels, k);
    SumPrefix(lengths, k);
    SumPrefixBound(lengths, k + 1);
    rows := [];
    var stnIdx := first;
    var j := 0;
    while j < len
      invariant j <= len && stnIdx == first + j
      invariant rows == sentence[..j]
    {
      var bestTags := BacktraceRow(history, lastTags[stnIdx], len, stnIdx, maxLen, Sum(lengths), labels);
      SentenceRowsAt(history, lastTags, lengths, labels, k, j, stnIdx);
      TakeSnoc(sentence, j);
      rows := rows + [bestTags];
      stnIdx := stnIdx + 1;
      j := j + 1;
    }
    assert sentence[..len] == sentence;
  }

  /** viterbi_decode_postprocess: the sentences' rows in order, the row
      counter stn_idx advancing once per row. */
  method ViterbiDecodePostprocess(history: seq<nat>, lastTags: seq<nat>, lengths: seq<nat>, labels: nat)
    returns (result: seq<seq<nat>>)
    requires Inputs(history, lastTags, lengths, labels)
    ensures result == Decode(history, lastTags, lengths, labels)
  {
    result := [];
    var stnIdx := 0;
    var k := 0;
    while k < |lengths|
      invariant k <= |lengths| && stnIdx == Sum(lengths[..k])
      invariant result + DecodeFrom(history, lastTags, lengths, labels, k) == Decode(history, lastTags, lengths, labels)
    {
      var rows := DecodeSentence(history, lastTags, lengths, labels, k, stnIdx);
      assert DecodeFrom(history, lastTags, lengths, labels, k) == rows + DecodeFrom(history, lastTags, lengths, labels, k + 1);
      result := result + rows;
      SumPrefix(lengths, k);
      stnIdx := stnIdx + lengths[k];
      k := k + 1;
    }
  }

  lemma {:induction false} DecodeFromLength(history: seq<nat>, lastTags: seq<nat>, lengths: seq<nat>, labels: nat, k: nat)
    requires Inputs(history, lastTags, lengths, labels) && k <= |lengths|
    ensures |DecodeFrom(history, lastTags, lengths, labels, k)| + Sum(lengths[..k]) == Sum(lengths)
    decreases |lengths| - k
  {
    if k == |lengths| {
      assert lengths[..k] == lengths;
    } else {
      DecodeFromLength(history, lastTags, lengths, labels, k + 1);
      SumPrefix(lengths, k);
    }
  }

  /** One row per word of every sentence: stn_idx counts rows, not sentences. */
  lemma DecodeLength(history: seq<nat>, lastTags: seq<nat>, lengths: seq<nat>, labels: nat)
    requires Inputs(history, lastTags, lengths, labels)
    ensures |Decode(history, lastTags, lengths, labels)| == Sum(lengths)
  {
    DecodeFromLength(history, lastTags, lengths, labels, 0);
  }

  lemma {:induction false} DecodeFromAt(history: seq<nat>, lastTags: seq<nat>, lengths: seq<nat>, labels: nat, k: nat, k': nat, j: nat)
    requires Inputs(history, lastTags, lengths, labels)
    requires k' <= k < |lengths| && j < lengths[k]
    ensures Sum(lengths[..k']) <= Sum(lengths[..k])
    ensures var out := DecodeFrom(history, lastTags, lengths, labels, k');
      var at := Sum(lengths[..k]) + j - Sum(lengths[..k']);
      at < |out| && out[at] == SentenceRows(history, lastTags, lengths, labels, k)[j]
    decreases k - k'
  {
    SumPrefix(lengths, k');
    var rows := SentenceRows(history, lastTags, lengths, labels, k');
    assert DecodeFrom(history, lastTags, lengths, labels, k')
      == rows + DecodeFrom(history, lastTags, lengths, labels, k' + 1);
    if k' < k {
      DecodeFromAt(history, lastTags, lengths, labels, k, k' + 1, j);
    }
  }

  /** Row r of the output, for the j-th word of sentence k, is that
      sentence's decoded path for row r. */
  lemma DecodeAt(history: seq<nat>, lastTags: seq<nat>, lengths: seq<nat>, labels: nat, k: nat, j: nat, row: nat)
    requires Inputs(history, lastTags, lengths, labels)
    requires k < |lengths| && j < lengths[k] && row == Sum(lengths[..k]) + j
    ensures row < Sum(lengths)
    ensures var out := Decode(history, lastTags, lengths, labels);
      row < |out| && out[row] == Row(history, lastTags[row], lengths[k], row, Max(lengths), Sum(lengths), labels)
  {
    DecodeFromAt(history, lastTags, lengths, labels, k, 0, j);
    SentenceRowsAt(history, lastTags, lengths, labels, k, j, row);
  }

  lemma {:induction false} BackwardPrefix(history: seq<nat>, lastTag: nat, len: nat, row: nat, maxLen: nat, rows: nat, labels: nat, m: nat, n: nat)
    requires HistoryShape(history, maxLen, rows, labels)
    requires 1 <= m <= n <= len <= maxLen && row < rows && lastTag < labels
    ensures Backward(history, lastTag, len, row, maxLen, rows, labels, m)
      == Backward(history, lastTag, len, row, maxLen, rows, labels, n)[..m]
    decreases n - m
  {
    if m < n {
      BackwardPrefix(history, lastTag, len, row, maxLen, rows, labels, m, n - 1);
      var b := Backward(history, lastTag, len, row, maxLen, rows, labels, n);
      assert b[..n - 1] == Backward(history, lastTag, len, row, maxLen, rows, labels, n - 1);
      assert b[..n - 1][..m] == b[..m];
    } else {
      assert Backward(history, lastTag, len, row, maxLen, rows, labels, n)[..m]
        == Backward(history, lastTag, len, row, maxLen, rows, labels, n);
    }
  }

  /** Each label of `path` but the last is the backpointer stored for the
      next label at its position shifted by `bias`. */
  ghost predicate FollowsHistory(path: seq<nat>, history: seq<nat>, bias: nat, row: nat, maxLen: nat, labels: nat)
  {
    forall p: nat :: p < |path| - 1 ==> StepFollows(path, history, bias, row, maxLen, labels, p)
  }

  /** Label p of `path` is the backpointer stored for label p + 1. */
  ghost predicate StepFollows(path: seq<nat>, history: seq<nat>, bias: nat, row: nat, maxLen: nat, labels: nat, p: nat)
    requires p + 1 < |path|
  {
    HistoryIndex(p + bias, row, path[p + 1], maxLen, labels) < |history| &&
    path[p] == history[HistoryIndex(p + bias, row, path[p + 1], maxLen, labels)]
  }

  lemma RowStep(history: seq<nat>, lastTag: nat, len: nat, row: nat, maxLen: nat, rows: nat, labels: nat, r: seq<nat>, p: nat, q: nat)
    requires HistoryShape(history, maxLen, rows, labels)
    requires 1 <= len <= maxLen && row < rows && lastTag < labels
    requires r == Row(history, lastTag, len, row, maxLen, rows, labels)
    requires q == p + 1 && q < |r|
    ensures HistoryIndex(p + (maxLen - len), row, r[q], maxLen, labels) < |history|
    ensures r[p] == history[HistoryIndex(p + (maxLen - len), row, r[q], maxLen, labels)]
  {
    var b := Backward(history, lastTag, len, row, maxLen, rows, labels, len);
    assert r == Reversed(b);
    var t := len - 1 - p;
    var bt := Backward(history, lastTag, len, row, maxLen, rows, labels, t + 1);
    BackwardPrefix(history, lastTag, len, row, maxLen, rows, labels, t + 1, len);
    BackwardPrefix(history, lastTag, len, row, maxLen, rows, labels, t, len);
    assert r[p] == b[t] == bt[t];
    assert r[p + 1] == b[t - 1] == bt[t - 1];
    IndexInHistory(history, maxLen, rows, labels, p + (maxLen - len), row, r[p + 1]);
  }

  lemma RowFollowsHistory(history: seq<nat>, lastTag: nat, len: nat, row: nat, maxLen: nat, rows: nat, labels: nat)
    requires HistoryShape(history, maxLen, rows, labels)
    requires 1 <= len <= maxLen && row < rows && lastTag < labels
    ensures FollowsHistory(Row(history, lastTag, len, row, maxLen, rows, labels), history, maxLen - len, row, maxLen, labels)
  {
    var r := Row(history, lastTag, len, row, maxLen, rows, labels);
    var bias := maxLen - len;
    forall p: nat | p < |r| - 1
      ensures StepFollows(r, history, bias, row, maxLen, labels, p)
    {
      RowStep(history, lastTag, len, row, maxLen, rows, labels, r, p, p + 1);
    }
  }

  /** A decoded row has the sentence's length, ends with the row's final
      label, and each earlier label is the backpointer stored for the next
      position, at the step shifted by the padding bias maxLen - len. */
  lemma RowSpec(history: seq<nat>, lastTag: nat, len: nat, row: nat, maxLen: nat, rows: nat, labels: nat)
    requires HistoryShape(history, maxLen, rows, labels)
    requires 1 <= len <= maxLen && row < rows && lastTag < labels
    ensures var r := Row(history, lastTag, len, row, maxLen, rows, labels);
      && |r| == len
      && r[len - 1] == lastTag
      && FollowsHistory(r, history, maxLen - len, row, maxLen, labels)
  {
    RowFollowsHistory(history, lastTag, len, row, maxLen, rows, labels);
  }

  /** The properties of every output row r: sentence k's word j yields a
      row of length lengths[k] ending in lastTags[r], following the history
      with the padding bias Max(lengths) - lengths[k] (0 for a sentence of
      the batch's maximum length); a one-word sentence yields [lastTags[r]]. */
  lemma DecodedRowSpec(history: seq<nat>, lastTags: seq<nat>, lengths: seq<nat>, labels: nat, k: nat, j: nat, row: nat)
    requires Inputs(history, lastTags, lengths, labels)
    requires k < |lengths| && j < lengths[k] && row == Sum(lengths[..k]) + j
    ensures row < Sum(lengths) <= |lastTags|
    ensures var out := Decode(history, lastTags, lengths, labels);
      && row < |out|
      && |out[row]| == lengths[k]
      && out[row][lengths[k] - 1] == lastTags[row]
      && (lengths[k] == 1 ==> out[row] == [lastTags[row]])
      && FollowsHistory(out[row], history, Max(lengths) - lengths[k], row, Max(lengths), labels)
  {
    DecodeAt(history, lastTags, lengths, labels, k, j, row);
    RowSpec(history, lastTags[row], lengths[k], row, Max(lengths), Sum(lengths), labels);
  }

  /** Every label of every row is a label id. */
  ghost predicate TagsBelow(rows: seq<seq<nat>>, labels: nat)
  {
    forall r, i :: 0 <= r < |rows| && 0 <= i < |rows[r]| ==> rows[r][i] < labels
  }

  /** A decoded row holds label ids only. */
  lemma RowTags(history: seq<nat>, lastTag: nat, len: nat, row: nat, maxLen: nat, rows: nat, labels: nat)
    requires HistoryShape(history, maxLen, rows, labels)
    requires 1 <= len <= maxLen && row < rows && lastTag < labels
    ensures forall i :: 0 <= i < |Row(history, lastTag, len, row, maxLen, rows, labels)| ==>
      Row(history, lastTag, len, row, maxLen, rows, labels)[i] < labels
  {
    var b := Backward(history, lastTag, len, row, maxLen, rows, labels, len);
    assert forall i :: 0 <= i < |b| ==> b[i] < labels;
  }

  lemma {:induction false} DecodeFromTags(history: seq<nat>, lastTags: seq<nat>, lengths: seq<nat>, labels: nat, k: nat)
    requires Inputs(history, lastTags, lengths, labels) && k <= |lengths|
    ensures TagsBelow(DecodeFrom(history, lastTags, lengths, labels, k), labels)
    decreases |lengths| - k
  {
    if k < |lengths| {
      DecodeFromTags(history, lastTags, lengths, labels, k + 1);
      var rows := SentenceRows(history, lastTags, lengths, labels, k);
      var rest := DecodeFrom(history, lastTags, lengths, labels, k + 1);
      var out := DecodeFrom(history, lastTags, lengths, labels, k);
      assert out == rows + rest;
      forall j | 0 <= j < |rows|
        ensures forall i :: 0 <= i < |rows[j]| ==> rows[j][i] < labels
      {
        var row := Sum(lengths[..k]) + j;
        SentenceRowsAt(history, lastTags, lengths, labels, k, j, row);
        RowTags(history, lastTags[row], lengths[k], row, Max(lengths), Sum(lengths), labels);
      }
      forall r, i | 0 <= r < |out| && 0 <= i < |out[r]|
        ensures out[r][i] < labels
      {
        if r < |rows| {
          assert out[r] == rows[r];
        } else {
          assert out[r] == rest[r - |rows|];
        }
      }
    }
  }

  /** The decoder outputs label ids only, so every output label names an
      entry of the label vocabulary. */
  lemma DecodeTags(history: seq<nat>, lastTags: seq<nat>, lengths: seq<nat>, labels: nat)
    requires Inputs(history, lastTags, lengths, labels)
    ensures TagsBelow(Decode(history, lastTags, lengths, labels), labels)
  {
    DecodeFromTags(history, lastTags, lengths, labels, 0);
  }
}
