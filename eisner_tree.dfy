/** The backtrack of ltp-rs/src/eisner.rs over the split points of the
    Eisner tables, and the dependency tree it writes. The backtrack is
    stated on a vector with one slot per word, word j at index j; the
    decoder's own vector drops the root's slot when asked to, which is the
    slice from RootOffset. */
module EisnerTree {
  import opened Common
  import opened EisnerSpec

  /** The split points of an n-word sentence's spans lie in their ranges;
      a proof asks for one span's range by mentioning SplitIn. */
  ghost predicate SplitsOk(split: (Kind, nat, nat) -> nat, n: nat)
  {
    forall k, a: nat, b: nat {:trigger SplitIn(split, k, a, b)} :: a < n && b < n && a != b ==> SplitIn(split, k, a, b)
  }

  predicate SplitIn(split: (Kind, nat, nat) -> nat, k: Kind, a: nat, b: nat)
  {
    Lo(k, a, b) <= split(k, a, b) < Lo(k, a, b) + Width(a, b)
  }

  /** The split points the decoder's tables hold for sentence p. */
  function Splits(p: Sentence): (Kind, nat, nat) -> nat
    requires Valid(p)
  {
    (k: Kind, a: nat, b: nat) => if a < p.len && b < p.len then Cell(p, k, a, b).split else 0
  }

  lemma SplitsInRange(p: Sentence)
    requires Valid(p)
    ensures SplitsOk(Splits(p), p.len)
  {
    forall k, a: nat, b: nat | a < p.len && b < p.len && a != b
      ensures SplitIn(Splits(p), k, a, b)
    {
      SplitInRange(p, k, a, b);
    }
  }

  /** The head vector after backtracking span (i, j) of an n-word sentence:
      an incomplete span makes i the head of j, then both kinds recurse on
      their split point. */
  function Trace(split: (Kind, nat, nat) -> nat, n: nat, i: nat, j: nat, complete: bool, h: seq<nat>): (out: seq<nat>)
    requires SplitsOk(split, n) && i < n && j < n && |h| == n
    ensures |out| == n
    decreases Width(i, j), if complete then 1 else 0
  {
    if i == j then h
    else if complete then
      assert SplitIn(split, Com, i, j);
      var r := split(Com, i, j);
      Trace(split, n, r, j, true, Trace(split, n, i, r, false, h))
    else
      assert SplitIn(split, Inc, i, j);
      var r := split(Inc, i, j);
      Trace(split, n, MaxN(i, j), r + 1, true, Trace(split, n, MinN(i, j), r, true, h[j := i]))
  }

  function Ones(n: nat): (s: seq<nat>)
    ensures |s| == n && forall k :: 0 <= k < n ==> s[k] == 1
  {
    seq(n, _ => 1)
  }

  /** The head of every word of sentence p, the root's slot holding the 1
      it starts with. */
  function WordHeads(p: Sentence): seq<nat>
    requires Valid(p)
  {
    SplitsInRange(p);
    Trace(Splits(p), p.len, 0, p.len - 1, true, Ones(p.len))
  }

  function RootOffset(removeRoot: bool): nat { if removeRoot then 1 else 0 }

  /** The decoder's head vector for sentence p: one entry per word, without
      the root's when removeRoot. */
  function Heads(p: Sentence, removeRoot: bool): seq<nat>
    requires Valid(p)
  {
    WordHeads(p)[RootOffset(removeRoot)..]
  }

  predicate InSpan(x: nat, i: nat, j: nat)
  {
    MinN(i, j) <= x <= MaxN(i, j)
  }

  /** Following heads from x reaches `root` within `fuel` arcs, every word on
      the way lying in [lo, hi]. */
  ghost predicate ReachIn(h: seq<nat>, x: nat, root: nat, lo: nat, hi: nat, fuel: nat)
    decreases fuel
  {
    lo <= x <= hi &&
    (x == root || (fuel > 0 && x < |h| && ReachIn(h, h[x], root, lo, hi, fuel - 1)))
  }

  lemma {:induction false} ReachWiden(h: seq<nat>, x: nat, root: nat, lo: nat, hi: nat, lo': nat, hi': nat, fuel: nat, fuel': nat)
    requires ReachIn(h, x, root, lo, hi, fuel)
    requires lo' <= lo && hi <= hi' && fuel <= fuel'
    ensures ReachIn(h, x, root, lo', hi', fuel')
    decreases fuel
  {
    if x != root {
      ReachWiden(h, h[x], root, lo, hi, lo', hi', fuel - 1, fuel' - 1);
    }
  }

  lemma {:induction false} ReachTrans(h: seq<nat>, x: nat, m: nat, root: nat, lo: nat, hi: nat, f1: nat, f2: nat)
    requires ReachIn(h, x, m, lo, hi, f1) && ReachIn(h, m, root, lo, hi, f2)
    ensures ReachIn(h, x, root, lo, hi, f1 + f2)
    decreases f1
  {
    if x == m {
      ReachWiden(h, m, root, lo, hi, lo, hi, f2, f1 + f2);
    } else if x != root {
      ReachTrans(h, h[x], m, root, lo, hi, f1 - 1, f2);
    }
  }

  /** Reaching the root only depends on the heads of the words of [lo, hi]
      other than the root. */
  lemma {:induction false} ReachFrame(h: seq<nat>, h': seq<nat>, x: nat, root: nat, lo: nat, hi: nat, fuel: nat)
    requires ReachIn(h, x, root, lo, hi, fuel)
    requires |h'| == |h|
    requires forall k :: 0 <= k < |h| && lo <= k <= hi && k != root ==> h'[k] == h[k]
    ensures ReachIn(h', x, root, lo, hi, fuel)
    decreases fuel
  {
    if x != root {
      ReachFrame(h, h', h[x], root, lo, hi, fuel - 1);
    }
  }

  /** Backtracking span (i, j) writes only the heads of the span's words
      other than i. */
  ghost predicate Unwritten(out: seq<nat>, h: seq<nat>, i: nat, j: nat)
  {
    |out| == |h| &&
    forall k :: 0 <= k < |h| && (!InSpan(k, i, j) || k == i) ==> out[k] == h[k]
  }

  lemma {:induction false} TraceFrame(split: (Kind, nat, nat) -> nat, n: nat, i: nat, j: nat, complete: bool, h: seq<nat>)
    requires SplitsOk(split, n) && i < n && j < n && |h| == n
    ensures Unwritten(Trace(split, n, i, j, complete, h), h, i, j)
    decreases Width(i, j), if complete then 1 else 0, 1
  {
    if i == j {
    } else if complete {
      TraceFrameComplete(split, n, i, j, h);
    } else {
      TraceFrameIncomplete(split, n, i, j, h);
    }
  }

  lemma {:induction false} TraceFrameComplete(split: (Kind, nat, nat) -> nat, n: nat, i: nat, j: nat, h: seq<nat>)
    requires SplitsOk(split, n) && i < n && j < n && |h| == n && i != j
    ensures Unwritten(Trace(split, n, i, j, true, h), h, i, j)
    decreases Width(i, j), 1, 0
  {
    assert SplitIn(split, Com, i, j);
    var r := split(Com, i, j);
    var h1 := Trace(split, n, i, r, false, h);
    TraceFrame(split, n, i, r, false, h);
    TraceFrame(split, n, r, j, true, h1);
    CompleteFrame(h, h1, Trace(split, n, i, j, true, h), i, j, r);
  }

  lemma {:induction false} TraceFrameIncomplete(split: (Kind, nat, nat) -> nat, n: nat, i: nat, j: nat, h: seq<nat>)
    requires SplitsOk(split, n) && i < n && j < n && |h| == n && i != j
    ensures Unwritten(Trace(split, n, i, j, false, h), h, i, j)
    decreases Width(i, j), 0, 0
  {
    assert SplitIn(split, Inc, i, j);
    var r := split(Inc, i, j);
    var h2 := Trace(split, n, MinN(i, j), r, true, h[j := i]);
    TraceFrame(split, n, MinN(i, j), r, true, h[j := i]);
    TraceFrame(split, n, MaxN(i, j), r + 1, true, h2);
    IncompleteFrame(h, h2, Trace(split, n, i, j, false, h), i, j, r);
  }

  /** The frame step of a complete span: its two halves (i, r) and (r, j)
      leave every word outside the span, and i, alone. */
  lemma CompleteFrame(h: seq<nat>, h1: seq<nat>, out: seq<nat>, i: nat, j: nat, r: nat)
    requires r != i && InSpan(r, i, j)
    requires Unwritten(h1, h, i, r) && Unwritten(out, h1, r, j)
    ensures Unwritten(out, h, i, j)
  {
    forall k | 0 <= k < |h| && (!InSpan(k, i, j) || k == i)
      ensures out[k] == h[k]
    {
      assert !InSpan(k, r, j) || k == r;
    }
  }

  /** The frame step of an incomplete span: writing j and backtracking the
      two halves leaves every word outside the span, and i, alone. */
  lemma IncompleteFrame(h: seq<nat>, h2: seq<nat>, out: seq<nat>, i: nat, j: nat, r: nat)
    requires i != j && MinN(i, j) <= r < MaxN(i, j) && j < |h|
    requires Unwritten(h2, h[j := i], MinN(i, j), r) && Unwritten(out, h2, MaxN(i, j), r + 1)
    ensures Unwritten(out, h, i, j)
  {
    forall k | 0 <= k < |h| && (!InSpan(k, i, j) || k == i)
      ensures out[k] == h[k]
    {
      assert !InSpan(k, MaxN(i, j), r + 1) || k == MaxN(i, j);
      assert !InSpan(k, MinN(i, j), r) || k == MinN(i, j);
    }
  }

  /** The tree property of a backtracked span: every word of the span but i
      gets a head inside the span other than itself, and following heads
      leads it to i within the span. */
  ghost predicate SpanTree(out: seq<nat>, i: nat, j: nat)
  {
    forall x: nat {:trigger Headed(out, x, i, j)} :: InSpan(x, i, j) && x != i ==> Headed(out, x, i, j)
  }

  /** Word x of span (i, j) has a head in the span other than itself and
      reaches i within the span. */
  ghost predicate Headed(out: seq<nat>, x: nat, i: nat, j: nat)
  {
    x < |out| && InSpan(out[x], i, j) && out[x] != x &&
    ReachIn(out, x, i, MinN(i, j), MaxN(i, j), Width(i, j))
  }

  lemma {:induction false} TraceTree(split: (Kind, nat, nat) -> nat, n: nat, i: nat, j: nat, complete: bool, h: seq<nat>)
    requires SplitsOk(split, n) && i < n && j < n && |h| == n
    ensures SpanTree(Trace(split, n, i, j, complete, h), i, j)
    decreases Width(i, j), if complete then 1 else 0, 1
  {
    if i == j {
    } else if complete {
      TraceTreeComplete(split, n, i, j, h);
    } else {
      TraceTreeIncomplete(split, n, i, j, h);
    }
  }

  lemma {:induction false} TraceTreeComplete(split: (Kind, nat, nat) -> nat, n: nat, i: nat, j: nat, h: seq<nat>)
    requires SplitsOk(split, n) && i < n && j < n && |h| == n && i != j
    ensures SpanTree(Trace(split, n, i, j, true, h), i, j)
    decreases Width(i, j), 1, 0
  {
    assert SplitIn(split, Com, i, j);
    var r := split(Com, i, j);
    var h1 := Trace(split, n, i, r, false, h);
    TraceTree(split, n, r, j, true, h1);
    TraceTree(split, n, i, r, false, h);
    TraceFrame(split, n, r, j, true, h1);
    CompleteTree(h1, Trace(split, n, i, j, true, h), i, j, r);
  }

  lemma {:induction false} TraceTreeIncomplete(split: (Kind, nat, nat) -> nat, n: nat, i: nat, j: nat, h: seq<nat>)
    requires SplitsOk(split, n) && i < n && j < n && |h| == n && i != j
    ensures SpanTree(Trace(split, n, i, j, false, h), i, j)
    decreases Width(i, j), 0, 0
  {
    assert SplitIn(split, Inc, i, j);
    var r := split(Inc, i, j);
    var h2 := Trace(split, n, MinN(i, j), r, true, h[j := i]);
    TraceTree(split, n, MaxN(i, j), r + 1, true, h2);
    TraceTree(split, n, MinN(i, j), r, true, h[j := i]);
    TraceFrame(split, n, MinN(i, j), r, true, h[j := i]);
    TraceFrame(split, n, MaxN(i, j), r + 1, true, h2);
    IncompleteTree(h[j := i], h2, Trace(split, n, i, j, false, h), i, j, r);
  }

  /** A word of a sub-span (i, r) keeps its head and its path to i when the
      span grows to (i, j) and the heads of (i, r) are left alone. */
  lemma HeadedLift(h: seq<nat>, out: seq<nat>, x: nat, i: nat, r: nat, j: nat)
    requires Headed(h, x, i, r) && InSpan(r, i, j) && InSpan(x, i, r) && x != i
    requires |out| == |h|
    requires forall k :: 0 <= k < |h| && InSpan(k, i, r) && k != i ==> out[k] == h[k]
    ensures Headed(out, x, i, j)
    ensures ReachIn(out, x, i, MinN(i, j), MaxN(i, j), Width(i, r))
  {
    assert out[x] == h[x];
    ReachFrame(h, out, x, i, MinN(i, r), MaxN(i, r), Width(i, r));
    ReachWiden(out, x, i, MinN(i, r), MaxN(i, r), MinN(i, j), MaxN(i, j), Width(i, r), Width(i, r));
    ReachWiden(out, x, i, MinN(i, r), MaxN(i, r), MinN(i, j), MaxN(i, j), Width(i, r), Width(i, j));
  }

  /** A word reaching m inside sub-span (m, e), where m reaches i, reaches i
      inside (i, j). */
  lemma HeadedJoin(out: seq<nat>, x: nat, m: nat, e: nat, i: nat, j: nat, f: nat)
    requires Headed(out, x, m, e)
    requires ReachIn(out, m, i, MinN(i, j), MaxN(i, j), f)
    requires InSpan(m, i, j) && InSpan(e, i, j) && Width(m, e) + f <= Width(i, j)
    ensures Headed(out, x, i, j)
  {
    var lo, hi := MinN(i, j), MaxN(i, j);
    ReachWiden(out, x, m, MinN(m, e), MaxN(m, e), lo, hi, Width(m, e), Width(m, e));
    ReachTrans(out, x, m, i, lo, hi, Width(m, e), f);
    ReachWiden(out, x, i, lo, hi, lo, hi, Width(m, e) + f, Width(i, j));
  }

  /** A word whose head is i reaches i in one arc. */
  lemma HeadedDirect(out: seq<nat>, x: nat, i: nat, j: nat)
    requires InSpan(x, i, j) && x != i && x < |out| && out[x] == i
    ensures Headed(out, x, i, j)
    ensures ReachIn(out, x, i, MinN(i, j), MaxN(i, j), 1)
  {
    assert ReachIn(out, i, i, MinN(i, j), MaxN(i, j), 0);
    assert ReachIn(out, x, i, MinN(i, j), MaxN(i, j), 1);
    ReachWiden(out, x, i, MinN(i, j), MaxN(i, j), MinN(i, j), MaxN(i, j), 1, Width(i, j));
  }

  /** The tree step of a complete span: the incomplete span (i, r) hangs r
      below i, and the complete span (r, j) hangs below r. */
  lemma CompleteTree(h1: seq<nat>, out: seq<nat>, i: nat, j: nat, r: nat)
    requires i != j && r != i && InSpan(r, i, j)
    requires SpanTree(h1, i, r) && SpanTree(out, r, j)
    requires Unwritten(out, h1, r, j)
    ensures SpanTree(out, i, j)
  {
    forall k | 0 <= k < |h1| && InSpan(k, i, r) && k != i
      ensures out[k] == h1[k]
    {
      assert !InSpan(k, r, j) || k == r;
    }
    assert Headed(h1, r, i, r);
    HeadedLift(h1, out, r, i, r, j);
    forall x: nat | InSpan(x, i, j) && x != i
      ensures Headed(out, x, i, j)
    {
      if InSpan(x, i, r) {
        assert Headed(h1, x, i, r);
        HeadedLift(h1, out, x, i, r, j);
      } else {
        assert Headed(out, x, r, j);
        HeadedJoin(out, x, r, j, i, j, Width(i, r));
      }
    }
  }

  /** The tree step of an incomplete span: j is given the head i, then the
      complete halves (lo, r) and (hi, r + 1) are backtracked below i and j. */
  lemma IncompleteTree(h1: seq<nat>, h2: seq<nat>, out: seq<nat>, i: nat, j: nat, r: nat)
    requires i != j && MinN(i, j) <= r < MaxN(i, j)
    requires j < |h1| && h1[j] == i
    requires SpanTree(h2, MinN(i, j), r) && SpanTree(out, MaxN(i, j), r + 1)
    requires Unwritten(h2, h1, MinN(i, j), r) && Unwritten(out, h2, MaxN(i, j), r + 1)
    ensures SpanTree(out, i, j)
  {
    var lo, hi := MinN(i, j), MaxN(i, j);
    assert !InSpan(j, lo, r) || j == lo;
    assert !InSpan(j, hi, r + 1) || j == hi;
    assert h2[j] == i;
    assert out[j] == i;
    forall k | 0 <= k < |h2| && InSpan(k, lo, r) && k != lo
      ensures out[k] == h2[k]
    {
      assert !InSpan(k, hi, r + 1) || k == hi;
    }
    HeadedDirect(out, j, i, j);
    forall x: nat | InSpan(x, i, j) && x != i
      ensures Headed(out, x, i, j)
    {
      if x == j {
      } else if x <= r {
        assert Headed(h2, x, lo, r);
        if lo == i {
          HeadedLift(h2, out, x, i, r, j);
        } else {
          HeadedLift(h2, out, x, j, r, r);
          HeadedJoin(out, x, j, r, i, j, 1);
        }
      } else {
        assert Headed(out, x, hi, r + 1);
        if hi == i {
          HeadedLift(out, out, x, i, r + 1, j);
        } else {
          HeadedJoin(out, x, j, r + 1, i, j, 1);
        }
      }
    }
  }

  /** The arc from word x to its head spans a subtree: every word between
      them (x included) has its head between them and reaches x's head
      without leaving the arc. */
  ghost predicate ArcSpan(out: seq<nat>, x: nat)
  {
    x < |out| && SpanTree(out, out[x], x)
  }

  /** Every arc written by backtracking span (i, j) spans a subtree: the
      arcs nest and never cross. */
  ghost predicate Projective(out: seq<nat>, i: nat, j: nat)
  {
    forall x: nat {:trigger ArcSpan(out, x)} :: InSpan(x, i, j) && x != i ==> ArcSpan(out, x)
  }

  /** The subtree of span (a, b) survives writes outside it and at a. */
  lemma SpanTreeFrame(h: seq<nat>, out: seq<nat>, a: nat, b: nat)
    requires SpanTree(h, a, b) && |out| == |h|
    requires forall k :: 0 <= k < |h| && InSpan(k, a, b) && k != a ==> out[k] == h[k]
    ensures SpanTree(out, a, b)
  {
    forall x: nat | InSpan(x, a, b) && x != a
      ensures Headed(out, x, a, b)
    {
      assert Headed(h, x, a, b);
      ReachFrame(h, out, x, a, MinN(a, b), MaxN(a, b), Width(a, b));
    }
  }

  /** An arc inside [lo, hi] keeps its subtree when [lo, hi] is left alone. */
  lemma ArcFrame(h: seq<nat>, out: seq<nat>, x: nat, lo: nat, hi: nat)
    requires ArcSpan(h, x) && lo <= x <= hi && lo <= h[x] <= hi && |out| == |h|
    requires forall k :: 0 <= k < |h| && lo <= k <= hi ==> out[k] == h[k]
    ensures ArcSpan(out, x)
  {
    assert out[x] == h[x];
    SpanTreeFrame(h, out, h[x], x);
  }

  lemma {:induction false} TraceProj(split: (Kind, nat, nat) -> nat, n: nat, i: nat, j: nat, complete: bool, h: seq<nat>)
    requires SplitsOk(split, n) && i < n && j < n && |h| == n
    ensures Projective(Trace(split, n, i, j, complete, h), i, j)
    decreases Width(i, j), if complete then 1 else 0, 1
  {
    if i == j {
    } else if complete {
      TraceProjComplete(split, n, i, j, h);
    } else {
      TraceProjIncomplete(split, n, i, j, h);
    }
  }

  lemma {:induction false} TraceProjComplete(split: (Kind, nat, nat) -> nat, n: nat, i: nat, j: nat, h: seq<nat>)
    requires SplitsOk(split, n) && i < n && j < n && |h| == n && i != j
    ensures Projective(Trace(split, n, i, j, true, h), i, j)
    decreases Width(i, j), 1, 0
  {
    assert SplitIn(split, Com, i, j);
    var r := split(Com, i, j);
    var h1 := Trace(split, n, i, r, false, h);
    TraceProj(split, n, i, r, false, h);
    TraceProj(split, n, r, j, true, h1);
    TraceTree(split, n, i, r, false, h);
    TraceFrame(split, n, r, j, true, h1);
    ProjComplete(h1, Trace(split, n, i, j, true, h), i, j, r);
  }

  lemma {:induction false} TraceProjIncomplete(split: (Kind, nat, nat) -> nat, n: nat, i: nat, j: nat, h: seq<nat>)
    requires SplitsOk(split, n) && i < n && j < n && |h| == n && i != j
    ensures Projective(Trace(split, n, i, j, false, h), i, j)
    decreases Width(i, j), 0, 0
  {
    assert SplitIn(split, Inc, i, j);
    var r := split(Inc, i, j);
    var h2 := Trace(split, n, MinN(i, j), r, true, h[j := i]);
    TraceProj(split, n, MinN(i, j), r, true, h[j := i]);
    TraceProj(split, n, MaxN(i, j), r + 1, true, h2);
    TraceTree(split, n, MinN(i, j), r, true, h[j := i]);
    TraceFrame(split, n, MinN(i, j), r, true, h[j := i]);
    TraceFrame(split, n, MaxN(i, j), r + 1, true, h2);
    TraceTreeIncomplete(split, n, i, j, h);
    ProjIncomplete(h[j := i], h2, Trace(split, n, i, j, false, h), i, j, r);
  }

  /** The projectivity step of a complete span: the arcs of (i, r) are left
      alone by the backtrack of (r, j). */
  lemma ProjComplete(h1: seq<nat>, out: seq<nat>, i: nat, j: nat, r: nat)
    requires i != j && r != i && InSpan(r, i, j)
    requires Projective(h1, i, r) && SpanTree(h1, i, r)
    requires Projective(out, r, j) && Unwritten(out, h1, r, j)
    ensures Projective(out, i, j)
  {
    forall k | 0 <= k < |h1| && MinN(i, r) <= k <= MaxN(i, r)
      ensures out[k] == h1[k]
    {
      assert !InSpan(k, r, j) || k == r;
    }
    forall x: nat | InSpan(x, i, j) && x != i
      ensures ArcSpan(out, x)
    {
      if InSpan(x, r, j) && x != r {
        assert ArcSpan(out, x);
      } else {
        assert ArcSpan(h1, x) && Headed(h1, x, i, r);
        ArcFrame(h1, out, x, MinN(i, r), MaxN(i, r));
      }
    }
  }

  /** The projectivity step of an incomplete span: the new arc i -> j spans
      the whole span, and the arcs of the two halves are left alone. */
  lemma ProjIncomplete(h1: seq<nat>, h2: seq<nat>, out: seq<nat>, i: nat, j: nat, r: nat)
    requires i != j && MinN(i, j) <= r < MaxN(i, j)
    requires j < |h1| && h1[j] == i
    requires Projective(h2, MinN(i, j), r) && SpanTree(h2, MinN(i, j), r)
    requires Projective(out, MaxN(i, j), r + 1)
    requires Unwritten(h2, h1, MinN(i, j), r) && Unwritten(out, h2, MaxN(i, j), r + 1)
    requires SpanTree(out, i, j)
    ensures Projective(out, i, j)
  {
    var lo, hi := MinN(i, j), MaxN(i, j);
    assert !InSpan(j, lo, r) || j == lo;
    assert !InSpan(j, hi, r + 1) || j == hi;
    assert out[j] == i;
    forall k | 0 <= k < |h2| && lo <= k <= r
      ensures out[k] == h2[k]
    {
      assert !InSpan(k, hi, r + 1);
    }
    forall x: nat | InSpan(x, i, j) && x != i
      ensures ArcSpan(out, x)
    {
      if x == j {
      } else if x <= r {
        assert ArcSpan(h2, x) && Headed(h2, x, lo, r);
        ArcFrame(h2, out, x, lo, r);
      } else {
        assert InSpan(x, hi, r + 1) && x != hi;
      }
    }
  }

  /** Word x has a head among the n words other than itself, from which
      following heads reaches the root 0. */
  ghost predicate RootedAt(heads: seq<nat>, x: nat, n: nat)
  {
    x < |heads| && heads[x] < n && heads[x] != x && ReachIn(heads, x, 0, 0, n - 1, n - 1)
  }

  /** The heads form a tree over the n words rooted at word 0. */
  ghost predicate IsTree(heads: seq<nat>, n: nat)
  {
    forall x: nat :: 1 <= x < n ==> RootedAt(heads, x, n)
  }

  lemma TraceIsTree(split: (Kind, nat, nat) -> nat, n: nat)
    requires SplitsOk(split, n) && 1 <= n
    ensures var heads := Trace(split, n, 0, n - 1, true, Ones(n));
      IsTree(heads, n) && heads[0] == 1
  {
    var heads := Trace(split, n, 0, n - 1, true, Ones(n));
    TraceFrame(split, n, 0, n - 1, true, Ones(n));
    TraceTree(split, n, 0, n - 1, true, Ones(n));
    forall x: nat | 1 <= x < n
      ensures RootedAt(heads, x, n)
    {
      assert InSpan(x, 0, n - 1);
      assert Headed(heads, x, 0, n - 1);
    }
  }

  /** The heads of a sentence form a tree rooted at word 0, the root's own
      slot keeping its 1; the decoder's vector is that vector from the
      root's slot (kept) or from word 1 (removeRoot). */
  lemma HeadsTree(p: Sentence, removeRoot: bool)
    requires Valid(p)
    ensures IsTree(WordHeads(p), p.len) && WordHeads(p)[0] == 1
    ensures |Heads(p, removeRoot)| == p.len - RootOffset(removeRoot)
    ensures forall x :: RootOffset(removeRoot) <= x < p.len ==>
      Heads(p, removeRoot)[x - RootOffset(removeRoot)] == WordHeads(p)[x]
  {
    SplitsInRange(p);
    TraceIsTree(Splits(p), p.len);
  }
  /** No arc crosses another: every word strictly between a word x and its
      head has its head between them too and reaches x's head without
      leaving the arc. */
  ghost predicate NoCrossing(heads: seq<nat>, n: nat)
  {
    && |heads| == n
    && (forall x: nat :: 1 <= x < n ==> heads[x] < n)
    && forall x: nat, y: nat {:trigger heads[x], heads[y]} ::
      1 <= x < n && y < n && MinN(heads[x], x) < y < MaxN(heads[x], x) ==>
        && InSpan(heads[y], heads[x], x)
        && ReachIn(heads, y, heads[x], MinN(heads[x], x), MaxN(heads[x], x), Width(heads[x], x))
  }

  /** A word strictly inside the arc of a word x has its head inside the
      arc too and reaches x's head without leaving it. */
  lemma ArcInside(heads: seq<nat>, n: nat, x: nat, y: nat)
    requires |heads| == n && 1 <= x < n && SpanTree(heads, 0, n - 1) && Projective(heads, 0, n - 1)
    requires MinN(heads[x], x) < y < MaxN(heads[x], x)
    ensures y < n && InSpan(heads[y], heads[x], x)
    ensures ReachIn(heads, y, heads[x], MinN(heads[x], x), MaxN(heads[x], x), Width(heads[x], x))
  {
    assert InSpan(x, 0, n - 1);
    assert Headed(heads, x, 0, n - 1);
    assert ArcSpan(heads, x);
    assert Headed(heads, y, heads[x], x);
  }

  /** A vector whose arcs all span subtrees has no crossing arcs. */
  lemma ProjectiveArcs(heads: seq<nat>, n: nat)
    requires |heads| == n && 1 <= n && SpanTree(heads, 0, n - 1) && Projective(heads, 0, n - 1)
    ensures NoCrossing(heads, n)
  {
    forall x: nat | 1 <= x < n
      ensures heads[x] < n
    {
      assert InSpan(x, 0, n - 1);
      assert Headed(heads, x, 0, n - 1);
    }
    forall x: nat, y: nat | 1 <= x < n && y < n && MinN(heads[x], x) < y < MaxN(heads[x], x)
      ensures InSpan(heads[y], heads[x], x)
      ensures ReachIn(heads, y, heads[x], MinN(heads[x], x), MaxN(heads[x], x), Width(heads[x], x))
    {
      ArcInside(heads, n, x, y);
    }
  }

  /** The vector traced from any valid split table has no crossing arcs. */
  lemma TraceProjective(split: (Kind, nat, nat) -> nat, n: nat)
    requires SplitsOk(split, n) && 1 <= n
    ensures NoCrossing(Trace(split, n, 0, n - 1, true, Ones(n)), n)
  {
    TraceFrame(split, n, 0, n - 1, true, Ones(n));
    TraceTree(split, n, 0, n - 1, true, Ones(n));
    TraceProj(split, n, 0, n - 1, true, Ones(n));
    ProjectiveArcs(Trace(split, n, 0, n - 1, true, Ones(n)), n);
  }

  /** The decoder's trees are projective. */
  lemma HeadsProjective(p: Sentence)
    requires Valid(p)
    ensures NoCrossing(WordHeads(p), p.len)
  {
    SplitsInRange(p);
    TraceProjective(Splits(p), p.len);
  }
}
