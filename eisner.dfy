/** The decoder of ltp-rs/src/eisner.rs: for each sentence of a batch it
    fills the four Eisner tables width by width and backtracks the best
    projective tree from the split points. */
module Eisner {
  import opened Common
  import opened EisnerSpec
  import opened EisnerTree

  /** The position of entry (a, b) of an l x l table stored row-major. */
  function Idx(l: nat, a: nat, b: nat): (x: nat)
    requires a < l && b < l
    ensures x < l * l
  {
    RowMajorBound(a, b, l, l);
    a * l + b
  }

  /** Entry (a, b) of an l x l table stored row-major. */
  function At<T>(tbl: seq<T>, l: nat, a: nat, b: nat): T
    requires a < l && b < l && l * l <= |tbl|
  {
    tbl[Idx(l, a, b)]
  }

  /** The split-point table of kind k holds `split` for every span of two
      or more words of an l-word sentence. */
  ghost predicate Stores(tbl: seq<nat>, l: nat, k: Kind, split: (Kind, nat, nat) -> nat)
  {
    l * l <= |tbl| &&
    forall a: nat, b: nat :: a < l && b < l && a != b ==> At(tbl, l, a, b) == split(k, a, b)
  }

  /** The head-of-word 0 guard of the backtrack: with the root's slot
      removed, word 0 may not be written, and no span reached from the
      whole sentence holds word 0 unless headed by it. */
  predicate RootOk(i: nat, j: nat, rr: nat)
  {
    rr == 0 || i == 0 || 1 <= j
  }

  /** Writes the heads of span (i, j) into `head`, the per-word vector
      without its first `rr` slots. */
  method Backtrack(pI: seq<nat>, pC: seq<nat>, ghost split: (Kind, nat, nat) -> nat, l: nat,
                   i: nat, j: nat, complete: bool, head: array<nat>, rr: nat, ghost full: seq<nat>)
    requires SplitsOk(split, l) && Stores(pI, l, Inc, split) && Stores(pC, l, Com, split)
    requires i < l && j < l && rr <= 1 && RootOk(i, j, rr)
    requires |full| == l && head.Length == l - rr && head[..] == full[rr..]
    modifies head
    ensures head[..] == Trace(split, l, i, j, complete, full)[rr..]
    decreases Width(i, j), if complete then 1 else 0
  {
    if i == j {
      assert Trace(split, l, i, j, complete, full) == full;
      return;
    }
    if complete {
      var r := At(pC, l, i, j);
      assert r == split(Com, i, j);
      CompleteStep(split, l, i, j, r, rr, full);
      ghost var f1 := Trace(split, l, i, r, false, full);
      Backtrack(pI, pC, split, l, i, r, false, head, rr, full);
      Backtrack(pI, pC, split, l, r, j, true, head, rr, f1);
      assert head[..] == Trace(split, l, i, j, true, full)[rr..];
    } else {
      var r := At(pI, l, i, j);
      assert r == split(Inc, i, j);
      IncompleteStep(split, l, i, j, r, rr, full);
      head[j - rr] := i;
      ghost var f0 := full[j := i];
      assert head[..] == f0[rr..];
      Backtrack(pI, pC, split, l, MinN(i, j), r, true, head, rr, f0);
      ghost var f2 := Trace(split, l, MinN(i, j), r, true, f0);
      Backtrack(pI, pC, split, l, MaxN(i, j), r + 1, true, head, rr, f2);
      assert head[..] == Trace(split, l, i, j, false, full)[rr..];
    }
  }

  /** One step of the backtrack of a complete span. */
  lemma CompleteStep(split: (Kind, nat, nat) -> nat, l: nat, i: nat, j: nat, r: nat, rr: nat, full: seq<nat>)
    requires SplitsOk(split, l) && i < l && j < l && i != j && RootOk(i, j, rr) && |full| == l
    requires r == split(Com, i, j)
    ensures SplitIn(split, Com, i, j)
    ensures r < l && Width(i, r) <= Width(i, j) && Width(r, j) < Width(i, j)
      && RootOk(i, r, rr) && RootOk(r, j, rr)
      && Trace(split, l, i, j, true, full) == Trace(split, l, r, j, true, Trace(split, l, i, r, false, full))
  {
    assert SplitIn(split, Com, i, j);
  }

  /** One step of the backtrack of an incomplete span: it writes word j,
      which is not the removed root. */
  lemma IncompleteStep(split: (Kind, nat, nat) -> nat, l: nat, i: nat, j: nat, r: nat, rr: nat, full: seq<nat>)
    requires SplitsOk(split, l) && i < l && j < l && i != j && RootOk(i, j, rr) && |full| == l && rr <= 1
    requires r == split(Inc, i, j)
    ensures SplitIn(split, Inc, i, j)
    ensures rr <= j && r + 1 < l && Width(MinN(i, j), r) < Width(i, j) && Width(MaxN(i, j), r + 1) < Width(i, j)
      && RootOk(MinN(i, j), r, rr) && RootOk(MaxN(i, j), r + 1, rr)
      && full[rr..][j - rr := i] == full[j := i][rr..]
      && Trace(split, l, i, j, false, full)
         == Trace(split, l, MaxN(i, j), r + 1, true, Trace(split, l, MinN(i, j), r, true, full[j := i]))
  {
    assert SplitIn(split, Inc, i, j);
    SliceUpdate(full, rr, j, i);
  }

  lemma SliceUpdate(s: seq<nat>, rr: nat, j: nat, v: nat)
    requires rr <= j < |s|
    ensures s[rr..][j - rr := v] == s[j := v][rr..]
  {
  }

  /** Writing entry (a0, b0) of a row-major table changes no other entry. */
  lemma AtUpdate<T>(tbl: seq<T>, l: nat, a0: nat, b0: nat, x: nat, v: T, a: nat, b: nat)
    requires a0 < l && b0 < l && a < l && b < l && l * l <= |tbl| && x == Idx(l, a0, b0)
    ensures At(tbl[x := v], l, a, b) == if a == a0 && b == b0 then v else At(tbl, l, a, b)
  {
    if Idx(l, a, b) == x {
      RowMajorInjective(a, b, a0, b0, l);
    }
  }

  /** The decoder fills the spans of each width in four stages: leftward
      I(j -> i), rightward I(i -> j), leftward C(j -> i), rightward C(i -> j). */
  function StageOf(k: Kind, a: nat, b: nat): nat
  {
    if k == Inc then (if a > b then 0 else 1) else (if a > b then 2 else 3)
  }

  /** Span (a, b) of kind k has been computed once the decoder is at width
      w, stage s, having done the spans whose left end is below c. */
  predicate Filled(k: Kind, a: nat, b: nat, w: nat, s: nat, c: nat)
  {
    Width(a, b) < w || (Width(a, b) == w && (StageOf(k, a, b) < s || (StageOf(k, a, b) == s && MinN(a, b) < c)))
  }

  /** Every computed entry of the l x l table of kind k holds what `want`
      prescribes. */
  ghost predicate Table<T>(tbl: seq<T>, l: nat, k: Kind, w: nat, s: nat, c: nat, want: (nat, nat) -> T)
  {
    l * l <= |tbl| &&
    forall a: nat, b: nat :: a < l && b < l && Filled(k, a, b, w, s, c) ==> At(tbl, l, a, b) == want(a, b)
  }

  /** What the incomplete score table holds: the best score of each span. */
  function IncScores(p: Sentence): (nat, nat) -> Ext
    requires Valid(p)
  {
    (a: nat, b: nat) => if a < p.len && b < p.len then Cell(p, Inc, a, b).score else NegInf
  }

  /** What the complete score table holds while width w is computed: the
      score read back, except that C(0, w) keeps its best score until the
      end of the width. */
  function ComScores(p: Sentence, w: nat): (nat, nat) -> Ext
    requires Valid(p)
  {
    (a: nat, b: nat) =>
      if a < p.len && b < p.len then (if a == 0 && b == w then Cell(p, Com, a, b).score else CRead(p, a, b))
      else NegInf
  }

  /** What a split-point table of kind k holds. */
  function SplitsOf(p: Sentence, k: Kind): (nat, nat) -> nat
    requires Valid(p)
  {
    (a: nat, b: nat) => if a < p.len && b < p.len then Cell(p, k, a, b).split else 0
  }

  /** A table stays valid when the decoder moves on without writing to it,
      and when it writes the one entry that becomes computed. */
  lemma TableUpdate<T>(tbl: seq<T>, l: nat, k: Kind, w: nat, s: nat, c: nat, want: (nat, nat) -> T,
                       w': nat, s': nat, c': nat, a0: nat, b0: nat, x: nat, v: T)
    requires Table(tbl, l, k, w, s, c, want) && a0 < l && b0 < l && x == Idx(l, a0, b0) && v == want(a0, b0)
    requires forall a: nat, b: nat :: a < l && b < l && Filled(k, a, b, w', s', c') ==>
      Filled(k, a, b, w, s, c) || (a == a0 && b == b0)
    ensures Table(tbl[x := v], l, k, w', s', c', want)
  {
    var t := tbl[x := v];
    forall a: nat, b: nat | a < l && b < l && Filled(k, a, b, w', s', c')
      ensures At(t, l, a, b) == want(a, b)
    {
      AtUpdate(tbl, l, a0, b0, x, v, a, b);
      if a != a0 || b != b0 {
        assert Filled(k, a, b, w, s, c);
      }
    }
  }

  lemma TableRestage<T>(tbl: seq<T>, l: nat, k: Kind, w: nat, s: nat, c: nat, want: (nat, nat) -> T,
                        w': nat, s': nat, c': nat)
    requires Table(tbl, l, k, w, s, c, want)
    requires forall a: nat, b: nat :: a < l && b < l && Filled(k, a, b, w', s', c') ==> Filled(k, a, b, w, s, c)
    ensures Table(tbl, l, k, w', s', c', want)
  {
  }

  /** The span of stage s with left end c is the one that becomes computed. */
  lemma FilledNext(k: Kind, l: nat, w: nat, s: nat, c: nat, c': nat, a0: nat, b0: nat)
    requires Width(a0, b0) == w && StageOf(k, a0, b0) == s && MinN(a0, b0) == c && c' == c + 1 && 1 <= w
    ensures forall a: nat, b: nat :: a < l && b < l && Filled(k, a, b, w, s, c') ==>
      Filled(k, a, b, w, s, c) || (a == a0 && b == b0)
  {
  }

  /** A stage is over once its left ends reach l - w. */
  lemma StageDone(k: Kind, l: nat, w: nat, s: nat, c: nat, s': nat, c': nat)
    requires w <= l && c == l - w && s' == s + 1 && c' == 0
    ensures forall a: nat, b: nat {:trigger Filled(k, a, b, w, s', c')} ::
      a < l && b < l && Filled(k, a, b, w, s', c') ==> Filled(k, a, b, w, s, c)
  {
  }

  /** Overwriting C(0, w) with negative infinity at the end of width w
      leaves the complete score table as width w + 1 expects it. */
  lemma ComWidthStep(p: Sentence, sC: seq<Ext>, w: nat)
    requires Valid(p) && 1 <= w < p.len
    requires Table(sC, p.len, Com, w, 4, 0, ComScores(p, w)) && w < |sC|
    ensures Table(sC[w := NegInf], p.len, Com, w + 1, 0, 0, ComScores(p, w + 1))
  {
    var l := p.len;
    var t := sC[w := NegInf];
    forall a: nat, b: nat | a < l && b < l && Filled(Com, a, b, w + 1, 0, 0)
      ensures At(t, l, a, b) == ComScores(p, w + 1)(a, b)
    {
      AtUpdate(sC, l, 0, w, w, NegInf, a, b);
      if !(a == 0 && b == w) {
        assert Filled(Com, a, b, w, 4, 0);
      }
    }
  }

  /** The best incomplete span between i and j, headed at j (leftward) or
      at i: the scan over r in [i, j) of C(i, r) + C(j, r + 1) plus the
      arc score, keeping the first strict maximum. */
  method BestIncomplete(p: Sentence, sC: array<Ext>, i: nat, j: nat, leftward: bool)
    returns (maxScore: Ext, maxIndex: nat)
    requires Valid(p) && i < j < p.len
    requires Table(sC[..], p.len, Com, j - i, 0, 0, ComScores(p, j - i))
    ensures leftward ==> Entry(maxScore, maxIndex) == Cell(p, Inc, j, i)
    ensures !leftward ==> Entry(maxScore, maxIndex) == Cell(p, Inc, i, j)
  {
    ghost var a, b := if leftward then j else i, if leftward then i else j;
    maxScore, maxIndex := NegInf, 0;
    for r := i to j
      invariant Entry(maxScore, maxIndex) == Fold(p, Inc, a, b, r - i)
    {
      var s := IncSum(p, sC, i, j, r, leftward);
      FoldNext(p, Inc, a, b, r - i, s);
      if Gt(s, maxScore) {
        maxScore := s;
        maxIndex := r;
      }
    }
  }

  /** The best complete span between i and j, headed at j (leftward: the
      scan over r in [i, j) of C(r, i) + I(j, r)) or at i (the scan over r
      in (i, j] of I(i, r) + C(r, j)), keeping the first strict maximum. */
  method BestComplete(p: Sentence, sI: array<Ext>, sC: array<Ext>, i: nat, j: nat, leftward: bool)
    returns (maxScore: Ext, maxIndex: nat)
    requires Valid(p) && i < j < p.len
    requires Table(sI[..], p.len, Inc, j - i, 2, 0, IncScores(p))
    requires Table(sC[..], p.len, Com, j - i, 0, 0, ComScores(p, j - i))
    ensures leftward ==> Entry(maxScore, maxIndex) == Cell(p, Com, j, i)
    ensures !leftward ==> Entry(maxScore, maxIndex) == Cell(p, Com, i, j)
  {
    ghost var a, b := if leftward then j else i, if leftward then i else j;
    var lo, hi := if leftward then i else i + 1, if leftward then j else j + 1;
    maxScore, maxIndex := NegInf, 0;
    for r := lo to hi
      invariant Entry(maxScore, maxIndex) == Fold(p, Com, a, b, r - lo)
    {
      var s := ComSum(p, sI, sC, i, j, r, leftward);
      FoldNext(p, Com, a, b, r - lo, s);
      if Gt(s, maxScore) {
        maxScore := s;
        maxIndex := r;
      }
    }
  }

  /** The incomplete candidate for split r: C(i, r) + C(j, r + 1) plus
      the score of the arc, read from the complete table. */
  method IncSum(p: Sentence, sC: array<Ext>, i: nat, j: nat, r: nat, leftward: bool) returns (s: Ext)
    requires Valid(p) && i < j < p.len && i <= r < j
    requires Table(sC[..], p.len, Com, j - i, 0, 0, ComScores(p, j - i))
    ensures leftward ==> s == Cand(p, Inc, j, i, r)
    ensures !leftward ==> s == Cand(p, Inc, i, j, r)
  {
    var l := p.len;
    var a, b := if leftward then j else i, if leftward then i else j;
    s := Add(Add(sC[Idx(l, i, r)], sC[Idx(l, j, r + 1)]), Fin(Score(p, a, b)));
    IncCand(p, sC[..], a, b, r);
  }

  /** The complete candidate for split r: C(r, i) + I(j, r) leftward,
      I(i, r) + C(r, j) rightward, read from both tables. */
  method ComSum(p: Sentence, sI: array<Ext>, sC: array<Ext>, i: nat, j: nat, r: nat, leftward: bool) returns (s: Ext)
    requires Valid(p) && i < j < p.len
    requires if leftward then i <= r < j else i < r <= j
    requires Table(sI[..], p.len, Inc, j - i, 2, 0, IncScores(p))
    requires Table(sC[..], p.len, Com, j - i, 0, 0, ComScores(p, j - i))
    ensures leftward ==> s == Cand(p, Com, j, i, r)
    ensures !leftward ==> s == Cand(p, Com, i, j, r)
  {
    var l := p.len;
    if leftward {
      s := Add(sC[Idx(l, r, i)], sI[Idx(l, j, r)]);
      ComCand(p, sI[..], sC[..], j, i, r);
    } else {
      s := Add(sI[Idx(l, i, r)], sC[Idx(l, r, j)]);
      ComCand(p, sI[..], sC[..], i, j, r);
    }
  }

  /** The incomplete candidate the decoder adds up from its tables is the
      one of the recurrence. */
  lemma IncCand(p: Sentence, sC: seq<Ext>, a: nat, b: nat, r: nat)
    requires Valid(p) && a < p.len && b < p.len && a != b && MinN(a, b) <= r < MaxN(a, b)
    requires Table(sC, p.len, Com, Width(a, b), 0, 0, ComScores(p, Width(a, b)))
    ensures Add(Add(At(sC, p.len, MinN(a, b), r), At(sC, p.len, MaxN(a, b), r + 1)), Fin(Score(p, a, b)))
      == Cand(p, Inc, a, b, r)
  {
    var w := Width(a, b);
    assert Filled(Com, MinN(a, b), r, w, 0, 0) && Filled(Com, MaxN(a, b), r + 1, w, 0, 0);
  }

  /** The complete candidate the decoder adds up from its tables is the one
      of the recurrence. */
  lemma ComCand(p: Sentence, sI: seq<Ext>, sC: seq<Ext>, a: nat, b: nat, r: nat)
    requires Valid(p) && a < p.len && b < p.len && a != b && Lo(Com, a, b) <= r < Lo(Com, a, b) + Width(a, b)
    requires Table(sI, p.len, Inc, Width(a, b), 2, 0, IncScores(p))
    requires Table(sC, p.len, Com, Width(a, b), 0, 0, ComScores(p, Width(a, b)))
    ensures a > b ==> Add(At(sC, p.len, r, b), At(sI, p.len, a, r)) == Cand(p, Com, a, b, r)
    ensures a < b ==> Add(At(sI, p.len, a, r), At(sC, p.len, r, b)) == Cand(p, Com, a, b, r)
  {
    var w := Width(a, b);
    assert Filled(Com, r, b, w, 0, 0) && Filled(Inc, a, r, w, 2, 0);
  }

  /** One step of the scan over split points. */
  lemma FoldNext(p: Sentence, k: Kind, a: nat, b: nat, n: nat, s: Ext)
    requires Valid(p) && a < p.len && b < p.len && a != b && n < Width(a, b)
    requires s == Cand(p, k, a, b, Lo(k, a, b) + n)
    ensures var prev := Fold(p, k, a, b, n);
      Fold(p, k, a, b, n + 1) == if Gt(s, prev.score) then Entry(s, Lo(k, a, b) + n) else prev
  {
  }

  /** The first two stages of width w: every incomplete span of width w
      headed at its right end (leftward) or at its left end gets its best
      score and split point. */
  method IncompleteStage(p: Sentence, sI: array<Ext>, pI: array<nat>, sC: array<Ext>, w: nat, leftward: bool)
    requires Valid(p) && 1 <= w < p.len && sI != sC
    requires Table(sI[..], p.len, Inc, w, if leftward then 0 else 1, 0, IncScores(p))
    requires Table(pI[..], p.len, Inc, w, if leftward then 0 else 1, 0, SplitsOf(p, Inc))
    requires Table(sC[..], p.len, Com, w, 0, 0, ComScores(p, w))
    modifies sI, pI
    ensures Table(sI[..], p.len, Inc, w, if leftward then 1 else 2, 0, IncScores(p))
    ensures Table(pI[..], p.len, Inc, w, if leftward then 1 else 2, 0, SplitsOf(p, Inc))
  {
    var l := p.len;
    ghost var st := if leftward then 0 else 1;
    var n := l - w;
    for i := 0 to n
      invariant Table(sI[..], l, Inc, w, st, i, IncScores(p))
      invariant Table(pI[..], l, Inc, w, st, i, SplitsOf(p, Inc))
    {
      var j := i + w;
      var maxScore, maxIndex := BestIncomplete(p, sC, i, j, leftward);
      var a, b := if leftward then j else i, if leftward then i else j;
      var x := Idx(l, a, b);
      CellWrite(p, Inc, sI[..], pI[..], IncScores(p), w, st, i, a, b, x, maxScore, maxIndex);
      sI[x] := maxScore;
      pI[x] := maxIndex;
    }
    StageDone(Inc, l, w, st, n, st + 1, 0);
    TableRestage(sI[..], l, Inc, w, st, n, IncScores(p), w, st + 1, 0);
    TableRestage(pI[..], l, Inc, w, st, n, SplitsOf(p, Inc), w, st + 1, 0);
  }

  /** The last two stages of width w: every complete span of width w headed
      at its right end (leftward) or at its left end gets its best score and
      split point. */
  method CompleteStage(p: Sentence, sI: array<Ext>, sC: array<Ext>, pC: array<nat>, w: nat, leftward: bool)
    requires Valid(p) && 1 <= w < p.len && sI != sC
    requires Table(sI[..], p.len, Inc, w, 2, 0, IncScores(p))
    requires Table(sC[..], p.len, Com, w, if leftward then 2 else 3, 0, ComScores(p, w))
    requires Table(pC[..], p.len, Com, w, if leftward then 2 else 3, 0, SplitsOf(p, Com))
    modifies sC, pC
    ensures Table(sC[..], p.len, Com, w, if leftward then 3 else 4, 0, ComScores(p, w))
    ensures Table(pC[..], p.len, Com, w, if leftward then 3 else 4, 0, SplitsOf(p, Com))
  {
    var l := p.len;
    ghost var st := if leftward then 2 else 3;
    var n := l - w;
    for i := 0 to n
      invariant Table(sC[..], l, Com, w, st, i, ComScores(p, w))
      invariant Table(pC[..], l, Com, w, st, i, SplitsOf(p, Com))
    {
      var j := i + w;
      TableRestage(sC[..], l, Com, w, st, i, ComScores(p, w), w, 0, 0);
      var maxScore, maxIndex := BestComplete(p, sI, sC, i, j, leftward);
      var a, b := if leftward then j else i, if leftward then i else j;
      var x := Idx(l, a, b);
      CellWrite(p, Com, sC[..], pC[..], ComScores(p, w), w, st, i, a, b, x, maxScore, maxIndex);
      sC[x] := maxScore;
      pC[x] := maxIndex;
    }
    StageDone(Com, l, w, st, n, st + 1, 0);
    TableRestage(sC[..], l, Com, w, st, n, ComScores(p, w), w, st + 1, 0);
    TableRestage(pC[..], l, Com, w, st, n, SplitsOf(p, Com), w, st + 1, 0);
  }

  /** Storing the best entry of the next span of the stage keeps the score
      and split-point tables of kind k valid. */
  lemma CellWrite(p: Sentence, k: Kind, sc: seq<Ext>, sp: seq<nat>, want: (nat, nat) -> Ext,
                  w: nat, st: nat, c: nat, a: nat, b: nat, x: nat, score: Ext, split: nat)
    requires Valid(p) && a < p.len && b < p.len && 1 <= w
    requires Width(a, b) == w && StageOf(k, a, b) == st && MinN(a, b) == c && x == Idx(p.len, a, b)
    requires Table(sc, p.len, k, w, st, c, want) && Table(sp, p.len, k, w, st, c, SplitsOf(p, k))
    requires score == want(a, b) && split == Cell(p, k, a, b).split
    ensures Table(sc[x := score], p.len, k, w, st, c + 1, want)
    ensures Table(sp[x := split], p.len, k, w, st, c + 1, SplitsOf(p, k))
  {
    FilledNext(k, p.len, w, st, c, c + 1, a, b);
    TableUpdate(sc, p.len, k, w, st, c, want, w, st, c + 1, a, b, x, score);
    TableUpdate(sp, p.len, k, w, st, c, SplitsOf(p, k), w, st, c + 1, a, b, x, split);
  }

  /** Sets the first `size` entries of an array. */
  method Fill<T>(arr: array<T>, num: T, size: nat)
    requires size <= arr.Length
    modifies arr
    ensures forall k :: 0 <= k < size ==> arr[k] == num
    ensures forall k :: size <= k < arr.Length ==> arr[k] == old(arr[k])
  {
    for i := 0 to size
      invariant forall k :: 0 <= k < i ==> arr[k] == num
      invariant forall k :: i <= k < arr.Length ==> arr[k] == old(arr[k])
    {
      arr[i] := num;
    }
  }

  /** Setting the diagonal entry of word k to zero keeps the diagonal
      entries of the words before it. */
  lemma DiagWrite(tbl: seq<Ext>, l: nat, k: nat, x: nat, t: seq<Ext>)
    requires k < l && l * l <= |tbl| && x == Idx(l, k, k) && t == tbl[x := Fin(0)]
    requires forall a :: 0 <= a < k ==> At(tbl, l, a, a) == Fin(0)
    ensures forall a :: 0 <= a < k + 1 ==> At(t, l, a, a) == Fin(0)
  {
    forall a | 0 <= a < k + 1
      ensures At(t, l, a, a) == Fin(0)
    {
      AtUpdate(tbl, l, k, k, x, Fin(0), a, a);
    }
  }

  /** After the reset and the diagonal, the four tables hold what width 1
      expects: every one-word span scores 0 with split point 0. */
  lemma InitTables(p: Sentence, sI: seq<Ext>, sC: seq<Ext>, pI: seq<nat>, pC: seq<nat>)
    requires Valid(p) && p.len * p.len <= |sI| && p.len * p.len <= |sC|
    requires p.len * p.len <= |pI| && p.len * p.len <= |pC|
    requires forall a :: 0 <= a < p.len ==> At(sI, p.len, a, a) == Fin(0) && At(sC, p.len, a, a) == Fin(0)
    requires forall x :: 0 <= x < p.len * p.len ==> pI[x] == 0 && pC[x] == 0
    ensures Table(sI, p.len, Inc, 1, 0, 0, IncScores(p)) && Table(pI, p.len, Inc, 1, 0, 0, SplitsOf(p, Inc))
    ensures Table(sC, p.len, Com, 1, 0, 0, ComScores(p, 1)) && Table(pC, p.len, Com, 1, 0, 0, SplitsOf(p, Com))
  {
    var l := p.len;
    forall a: nat, b: nat | a < l && b < l && Filled(Inc, a, b, 1, 0, 0)
      ensures At(sI, l, a, b) == IncScores(p)(a, b) && At(pI, l, a, b) == SplitsOf(p, Inc)(a, b)
    {
      assert a == b;
      assert Cell(p, Inc, a, a) == Entry(Fin(0), 0);
      assert pI[Idx(l, a, b)] == 0;
    }
    forall a: nat, b: nat | a < l && b < l && Filled(Com, a, b, 1, 0, 0)
      ensures At(sC, l, a, b) == ComScores(p, 1)(a, b) && At(pC, l, a, b) == SplitsOf(p, Com)(a, b)
    {
      assert a == b;
      assert Cell(p, Com, a, a) == Entry(Fin(0), 0);
      assert CRead(p, a, a) == Fin(0);
      assert pC[Idx(l, a, b)] == 0;
    }
  }

  /** The split-point tables of a finished sentence hold the split points
      of every span. */
  lemma TablesStore(p: Sentence, pI: seq<nat>, pC: seq<nat>)
    requires Valid(p)
    requires Table(pI, p.len, Inc, p.len, 0, 0, SplitsOf(p, Inc))
    requires Table(pC, p.len, Com, p.len, 0, 0, SplitsOf(p, Com))
    ensures Stores(pI, p.len, Inc, Splits(p)) && Stores(pC, p.len, Com, Splits(p))
  {
    var l := p.len;
    forall a: nat, b: nat | a < l && b < l && a != b
      ensures At(pI, l, a, b) == Splits(p)(Inc, a, b) && At(pC, l, a, b) == Splits(p)(Com, a, b)
    {
      assert Filled(Inc, a, b, l, 0, 0) && Filled(Com, a, b, l, 0, 0);
    }
  }

  /** The four tables of a sentence, computed up to (excluding) width w. */
  ghost predicate Tables(p: Sentence, sI: seq<Ext>, sC: seq<Ext>, pI: seq<nat>, pC: seq<nat>, w: nat)
    requires Valid(p)
  {
    && Table(sI, p.len, Inc, w, 0, 0, IncScores(p)) && Table(pI, p.len, Inc, w, 0, 0, SplitsOf(p, Inc))
    && Table(sC, p.len, Com, w, 0, 0, ComScores(p, w)) && Table(pC, p.len, Com, w, 0, 0, SplitsOf(p, Com))
  }

  /** Resets the four tables and seeds the diagonal: every one-word span
      scores 0. */
  method Reset(p: Sentence, sI: array<Ext>, sC: array<Ext>, pI: array<nat>, pC: array<nat>)
    requires Valid(p) && sI != sC
    requires sI.Length == p.stride * p.stride && sC.Length == p.stride * p.stride
    requires pI.Length == p.stride * p.stride && pC.Length == p.stride * p.stride
    modifies sI, sC, pI, pC
    ensures Tables(p, sI[..], sC[..], pI[..], pC[..], 1)
  {
    var size := p.stride * p.stride;
    Fill(sI, NegInf, size);
    Fill(sC, NegInf, size);
    Fill(pI, 0, size);
    Fill(pC, 0, size);
    var l := p.len;
    MulMonotone(l, p.stride, l);
    MulMonotone(l, p.stride, p.stride);
    assert l * l <= size;
    for k := 0 to l
      modifies sI, sC
      invariant forall a :: 0 <= a < k ==> At(sI[..], l, a, a) == Fin(0) && At(sC[..], l, a, a) == Fin(0)
    {
      var x := Idx(l, k, k);
      DiagWrite(sI[..], l, k, x, sI[..][x := Fin(0)]);
      DiagWrite(sC[..], l, k, x, sC[..][x := Fin(0)]);
      sI[x] := Fin(0);
      sC[x] := Fin(0);
    }
    InitTables(p, sI[..], sC[..], pI[..], pC[..]);
  }

  /** One iteration of the width loop: the four stages for width w, then
      the overwrite of C(0, w) that only the full span escapes. */
  method FillWidth(p: Sentence, sI: array<Ext>, sC: array<Ext>, pI: array<nat>, pC: array<nat>, w: nat)
    requires Valid(p) && 1 <= w < p.len && sI != sC && pI != pC
    requires Tables(p, sI[..], sC[..], pI[..], pC[..], w)
    modifies sI, sC, pI, pC
    ensures Tables(p, sI[..], sC[..], pI[..], pC[..], w + 1)
  {
    var l := p.len;
    IncompleteStage(p, sI, pI, sC, w, true);
    IncompleteStage(p, sI, pI, sC, w, false);
    TableRestage(sC[..], l, Com, w, 0, 0, ComScores(p, w), w, 2, 0);
    TableRestage(pC[..], l, Com, w, 0, 0, SplitsOf(p, Com), w, 2, 0);
    CompleteStage(p, sI, sC, pC, w, true);
    CompleteStage(p, sI, sC, pC, w, false);
    if p.len != w {
      ComWidthStep(p, sC[..], w);
      sC[Idx(l, 0, w)] := NegInf;
    }
    TableRestage(sI[..], l, Inc, w, 2, 0, IncScores(p), w + 1, 0, 0);
    TableRestage(pI[..], l, Inc, w, 2, 0, SplitsOf(p, Inc), w + 1, 0, 0);
    TableRestage(pC[..], l, Com, w, 4, 0, SplitsOf(p, Com), w + 1, 0, 0);
  }

  /** The body of the decoder's loop over the batch, for one sentence: it
      resets the four tables, fills them width by width and backtracks the
      heads from the whole span (0, len - 1). */
  method DecodeSentence(p: Sentence, sI: array<Ext>, sC: array<Ext>, pI: array<nat>, pC: array<nat>, removeRoot: bool)
    returns (head: seq<nat>)
    requires Valid(p) && sI != sC && pI != pC
    requires sI.Length == p.stride * p.stride && sC.Length == p.stride * p.stride
    requires pI.Length == p.stride * p.stride && pC.Length == p.stride * p.stride
    modifies sI, sC, pI, pC
    ensures head == Heads(p, removeRoot)
  {
    Reset(p, sI, sC, pI, pC);
    var l := p.len;
    for w := 1 to l
      invariant Tables(p, sI[..], sC[..], pI[..], pC[..], w)
    {
      FillWidth(p, sI, sC, pI, pC, w);
    }
    var rr := RootOffset(removeRoot);
    var bHead := new nat[l - rr](_ => 1);
    assert bHead[..] == Ones(l)[rr..];
    TablesStore(p, pI[..], pC[..]);
    SplitsInRange(p);
    Backtrack(pI[..], pC[..], Splits(p), l, 0, l - 1, true, bHead, rr, Ones(l));
    head := bHead[..];
  }

  /** Sentence b of a batch: its arc scores form the b-th block of
      M x M scores, M the longest sentence's length. */
  function SentenceOf(scores: seq<int>, stnLength: seq<nat>, b: nat): (p: Sentence)
    requires b < |stnLength|
    ensures p.len == stnLength[b] && p.len <= p.stride
  {
    var m := Max(stnLength);
    Sentence(scores, b * (m * m), m, stnLength[b])
  }

  /** What the decoder needs of its input: a non-empty batch of non-empty
      sentences whose score blocks lie inside the buffer. */
  ghost predicate BatchValid(scores: seq<int>, stnLength: seq<nat>)
  {
    |stnLength| > 0 && forall b :: 0 <= b < |stnLength| ==> Valid(SentenceOf(scores, stnLength, b))
  }

  /** The decoder: the tables are allocated once for the longest sentence
      and reset for each sentence of the batch. */
  method Decode(scores: seq<int>, stnLength: seq<nat>, removeRoot: bool) returns (res: seq<seq<nat>>)
    requires BatchValid(scores, stnLength)
    ensures |res| == |stnLength|
    ensures forall b :: 0 <= b < |res| ==> res[b] == Heads(SentenceOf(scores, stnLength, b), removeRoot)
    ensures forall b :: 0 <= b < |res| ==> |res[b]| == stnLength[b] - RootOffset(removeRoot)
  {
    var m := Max(stnLength);
    var sI := new Ext[m * m](_ => NegInf);
    var sC := new Ext[m * m](_ => NegInf);
    var pI := new nat[m * m](_ => 0);
    var pC := new nat[m * m](_ => 0);
    res := [];
    for b := 0 to |stnLength|
      invariant |res| == b
      invariant forall c :: 0 <= c < b ==> res[c] == Heads(SentenceOf(scores, stnLength, c), removeRoot)
    {
      var p := SentenceOf(scores, stnLength, b);
      var head := DecodeSentence(p, sI, sC, pI, pC, removeRoot);
      res := res + [head];
    }
    forall b | 0 <= b < |res|
      ensures |res[b]| == stnLength[b] - RootOffset(removeRoot)
    {
      HeadsTree(SentenceOf(scores, stnLength, b), removeRoot);
    }
  }
}
