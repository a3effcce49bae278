/** The recurrences of Eisner's projective dependency decoder, as the
    dynamic programme in ltp-rs/src/eisner.rs evaluates them, stated as
    functions of one sentence's arc scores. */
module EisnerSpec {
  import opened Common

  /** A score of the tables: the decoder works in floating point and seeds
      every cell with negative infinity, which absorbs any addition. */
  datatype Ext = NegInf | Fin(v: int)

  function Add(x: Ext, y: Ext): Ext
  {
    if x.Fin? && y.Fin? then Fin(x.v + y.v) else NegInf
  }

  /** The strict comparison `s > max_score`: negative infinity is greater
      than nothing. */
  predicate Gt(x: Ext, y: Ext)
  {
    x.Fin? && (y.NegInf? || x.v > y.v)
  }

  function Width(a: nat, b: nat): nat { MaxN(a, b) - MinN(a, b) }

  /** One sentence of the batch: its arc scores start at `base` of the flat
      score buffer and form a `stride` x `stride` block (the batch's
      longest sentence), of which the sentence uses `len` x `len`. */
  datatype Sentence = Sentence(scores: seq<int>, base: nat, stride: nat, len: nat)

  predicate Valid(p: Sentence)
  {
    1 <= p.len <= p.stride && p.base + (p.len - 1) * p.stride + p.len <= |p.scores|
  }

  lemma ScoreIndex(p: Sentence, head: nat, dep: nat)
    requires Valid(p) && head < p.len && dep < p.len
    ensures p.base + dep * p.stride + head < |p.scores|
  {
    MulMonotone(dep, p.len - 1, p.stride);
  }

  /** The score of the arc head -> dep, stored at [dep][head] of the block. */
  function Score(p: Sentence, head: nat, dep: nat): int
    requires Valid(p) && head < p.len && dep < p.len
  {
    ScoreIndex(p, head, dep);
    p.scores[p.base + dep * p.stride + head]
  }

  /** Incomplete spans I(a, b) and complete spans C(a, b); a is the head
      end of the span and b the other end. */
  datatype Kind = Inc | Com

  /** A table entry: the best score and the split point that reached it. */
  datatype Entry = Entry(score: Ext, split: nat)

  function Rank(k: Kind): nat { if k == Inc then 0 else 2 }

  /** The first split point of a span of kind k: complete spans heading
      rightwards split strictly after their head. */
  function Lo(k: Kind, a: nat, b: nat): nat
  {
    if k == Com && a < b then a + 1 else MinN(a, b)
  }

  /** The candidate score for split r:
      I(a, b) = C(lo, r) + C(hi, r + 1) + s(a -> b), lo <= r < hi;
      C(a, b) = C(r, b) + I(a, r), b <= r < a, for a > b;
      C(a, b) = I(a, r) + C(r, b), a < r <= b, for a < b. */
  function Cand(p: Sentence, k: Kind, a: nat, b: nat, r: nat): Ext
    requires Valid(p) && a < p.len && b < p.len && a != b
    requires Lo(k, a, b) <= r < Lo(k, a, b) + Width(a, b)
    decreases Width(a, b), Rank(k), 0
  {
    match k
    case Inc =>
      Add(Add(CRead(p, MinN(a, b), r), CRead(p, MaxN(a, b), r + 1)), Fin(Score(p, a, b)))
    case Com =>
      if a > b then Add(CRead(p, r, b), Cell(p, Inc, a, r).score)
      else Add(Cell(p, Inc, a, r).score, CRead(p, r, b))
  }

  /** The scan over the first n split points, keeping the first strict
      maximum; with no finite candidate the split stays 0. */
  function Fold(p: Sentence, k: Kind, a: nat, b: nat, n: nat): Entry
    requires Valid(p) && a < p.len && b < p.len && a != b && n <= Width(a, b)
    decreases Width(a, b), Rank(k), n + 1
  {
    if n == 0 then Entry(NegInf, 0)
    else
      var prev := Fold(p, k, a, b, n - 1);
      var r := Lo(k, a, b) + n - 1;
      var s := Cand(p, k, a, b, r);
      if Gt(s, prev.score) then Entry(s, r) else prev
  }

  /** The entry the decoder computes for span (a, b) of kind k; a one-word
      span scores 0 with split 0. */
  function Cell(p: Sentence, k: Kind, a: nat, b: nat): Entry
    requires Valid(p) && a < p.len && b < p.len
    decreases Width(a, b), Rank(k) + 1, 0
  {
    if a == b then Entry(Fin(0), 0) else Fold(p, k, a, b, Width(a, b))
  }

  /** The score read back from the complete table: after each width the
      decoder overwrites C(0, w) with negative infinity, so that only the
      full span leaves the root. */
  function CRead(p: Sentence, a: nat, b: nat): Ext
    requires Valid(p) && a < p.len && b < p.len
    decreases Width(a, b), 3, 1
  {
    if a == 0 && 0 < b then NegInf else Cell(p, Com, a, b).score
  }

  /** The scan's result is a maximum of the candidates, reached first at
      its split point; without a finite candidate it is NegInf with split 0. */
  lemma {:induction false} FoldBest(p: Sentence, k: Kind, a: nat, b: nat, n: nat)
    requires Valid(p) && a < p.len && b < p.len && a != b && n <= Width(a, b)
    ensures var e := Fold(p, k, a, b, n);
      && (forall r :: Lo(k, a, b) <= r < Lo(k, a, b) + n ==> !Gt(Cand(p, k, a, b, r), e.score))
      && (e.score.NegInf? ==> e.split == 0)
      && (e.score.Fin? ==> Lo(k, a, b) <= e.split < Lo(k, a, b) + n && e.score == Cand(p, k, a, b, e.split))
      && (e.score.Fin? ==> forall r :: Lo(k, a, b) <= r < e.split ==> Gt(e.score, Cand(p, k, a, b, r)))
  {
    if n > 0 {
      FoldBest(p, k, a, b, n - 1);
      var prev, r := Fold(p, k, a, b, n - 1), Lo(k, a, b) + n - 1;
      var s := Cand(p, k, a, b, r);
      assert Fold(p, k, a, b, n) == if Gt(s, prev.score) then Entry(s, r) else prev;
    }
  }

  /** The scan reaches a finite score as soon as one candidate is finite. */
  lemma {:induction false} FoldFinite(p: Sentence, k: Kind, a: nat, b: nat, n: nat, r: nat)
    requires Valid(p) && a < p.len && b < p.len && a != b && n <= Width(a, b)
    requires Lo(k, a, b) <= r < Lo(k, a, b) + n && Cand(p, k, a, b, r).Fin?
    ensures Fold(p, k, a, b, n).score.Fin?
  {
    if r < Lo(k, a, b) + n - 1 {
      FoldFinite(p, k, a, b, n - 1, r);
    }
  }

  /** Every span of two or more words has a finite best score: the split
      next to the head always yields one. */
  lemma {:induction false} CellFinite(p: Sentence, k: Kind, a: nat, b: nat)
    requires Valid(p) && a < p.len && b < p.len && a != b
    ensures Cell(p, k, a, b).score.Fin?
    decreases Width(a, b), Rank(k)
  {
    var lo := Lo(k, a, b);
    match k
    case Inc =>
      var hi := MaxN(a, b);
      if hi != lo + 1 {
        CellFinite(p, Com, hi, lo + 1);
      }
      assert CRead(p, lo, lo) == Fin(0);
      assert CRead(p, hi, lo + 1).Fin?;
      assert Cand(p, k, a, b, lo).Fin?;
      FoldFinite(p, k, a, b, Width(a, b), lo);
    case Com =>
      if a > b {
        CellFinite(p, Inc, a, b);
        assert CRead(p, b, b) == Fin(0);
      } else {
        if a + 1 != b {
          CellFinite(p, Com, a + 1, b);
        }
        CellFinite(p, Inc, a, a + 1);
        assert CRead(p, a + 1, b).Fin?;
      }
      assert Cand(p, k, a, b, lo).Fin?;
      FoldFinite(p, k, a, b, Width(a, b), lo);
  }

  /** The split point of every span of two or more words lies in its range:
      lo <= r < hi for I(a, b), b <= r < a for a leftward C(a, b) and
      a < r <= b for a rightward one. */
  lemma SplitInRange(p: Sentence, k: Kind, a: nat, b: nat)
    requires Valid(p) && a < p.len && b < p.len && a != b
    ensures Lo(k, a, b) <= Cell(p, k, a, b).split < Lo(k, a, b) + Width(a, b)
  {
    CellFinite(p, k, a, b);
    FoldBest(p, k, a, b, Width(a, b));
  }
}
