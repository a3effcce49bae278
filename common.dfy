/** Small shared vocabulary: optional values, results with an error, and
    the sum and maximum of a sequence of lengths. */
module Common {

  datatype Option<+T> = None | Some(value: T)

  datatype Result<+T, +E> = Success(value: T) | Failure(error: E)

  /** Sum of a sequence of lengths, peeled from the back so that it grows
      with a loop over a prefix. */
  function Sum(s: seq<nat>): nat
  {
    if s == [] then 0 else Sum(s[..|s| - 1]) + s[|s| - 1]
  }

  lemma SumPrefix(s: seq<nat>, i: nat)
    requires i < |s|
    ensures Sum(s[..i + 1]) == Sum(s[..i]) + s[i]
  {
    assert s[..i + 1][..i] == s[..i];
  }

  /** The sum peeled from the front. */
  lemma {:induction false} SumFront(s: seq<nat>)
    requires s != []
    ensures Sum(s) == s[0] + Sum(s[1..])
  {
    if |s| > 1 {
      SumFront(s[..|s| - 1]);
      assert s[..|s| - 1][1..] == s[1..][..|s| - 2];
    }
  }

  /** The smaller and the larger of two naturals. */
  function MinN(a: nat, b: nat): nat { if a <= b then a else b }

  function MaxN(a: nat, b: nat): nat { if a <= b then b else a }

  /** Largest element of a non-empty sequence (Rust's `iter().max().unwrap()`). */
  function Max(s: seq<nat>): (m: nat)
    requires |s| > 0
    ensures m in s
    ensures forall k :: 0 <= k < |s| ==> s[k] <= m
  {
    if |s| == 1 then s[0]
    else
      var m := Max(s[1..]);
      assert forall k :: 1 <= k < |s| ==> s[k] == s[1..][k - 1];
      if s[0] >= m then s[0] else m
  }

  lemma {:induction false} SumPrefixBound(s: seq<nat>, i: nat)
    requires i <= |s|
    ensures Sum(s[..i]) <= Sum(s)
    decreases |s| - i
  {
    if i < |s| {
      SumPrefix(s, i);
      SumPrefixBound(s, i + 1);
    } else {
      assert s[..i] == s;
    }
  }

  /** Reverses a sequence (Rust's in-place `reverse`, on values). */
  function Reversed<T>(s: seq<T>): (r: seq<T>)
    ensures |r| == |s|
    ensures forall k :: 0 <= k < |s| ==> r[k] == s[|s| - 1 - k]
  {
    if s == [] then [] else Reversed(s[1..]) + [s[0]]
  }

  lemma {:induction false} MulMonotone(x: nat, y: nat, c: nat)
    requires x <= y
    ensures x * c <= y * c
    decreases c
  {
    if c > 0 {
      MulMonotone(x, y, c - 1);
      assert x * c == x * (c - 1) + x && y * c == y * (c - 1) + y;
    }
  }

  /** A (row, column) index of a row-major block of `cols` columns stays
      inside `rows` rows. */
  lemma RowMajorBound(row: nat, col: nat, rows: nat, cols: nat)
    requires row < rows && col < cols
    ensures row * cols + col < rows * cols
  {
    MulMonotone(row + 1, rows, cols);
    assert (row + 1) * cols == row * cols + cols;
  }

  /** Distinct (row, column) pairs of a row-major block have distinct indices. */
  lemma RowMajorInjective(row: nat, col: nat, row': nat, col': nat, cols: nat)
    requires col < cols && col' < cols
    requires row * cols + col == row' * cols + col'
    ensures row == row' && col == col'
  {
    if row < row' {
      assert (row + 1) * cols == row * cols + cols;
      MulMonotone(row + 1, row', cols);
    } else if row' < row {
      assert (row' + 1) * cols == row' * cols + cols;
      MulMonotone(row' + 1, row, cols);
    }
  }

  lemma TakeSnoc<T>(s: seq<T>, j: nat)
    requires j < |s|
    ensures s[..j + 1] == s[..j] + [s[j]]
  {
  }

  /** The present values of a sequence of options, in order: the values a
      scan pushes when it keeps some of the cells it visits. */
  function Somes<T>(os: seq<Option<T>>): seq<T>
  {
    if os == [] then []
    else Somes(os[..|os| - 1]) + if os[|os| - 1].Some? then [os[|os| - 1].value] else []
  }

  /** The positions of the present values, in order. */
  function SomeIndices<T>(os: seq<Option<T>>): seq<nat>
  {
    if os == [] then []
    else SomeIndices(os[..|os| - 1]) + if os[|os| - 1].Some? then [|os| - 1] else []
  }

  /** A value is kept exactly when some position holds it. */
  lemma {:induction false} SomesMembers<T>(os: seq<Option<T>>)
    ensures forall v :: v in Somes(os) ==> exists x :: 0 <= x < |os| && os[x] == Some(v)
    ensures forall v, x :: 0 <= x < |os| && os[x] == Some(v) ==> v in Somes(os)
  {
    if os != [] {
      var init := os[..|os| - 1];
      SomesMembers(init);
      forall v | v in Somes(os)
        ensures exists x :: 0 <= x < |os| && os[x] == Some(v)
      {
        if v in Somes(init) {
          var x :| 0 <= x < |init| && init[x] == Some(v);
          assert os[x] == Some(v);
        } else {
          assert os[|os| - 1] == Some(v);
        }
      }
      forall v, x | 0 <= x < |os| && os[x] == Some(v)
        ensures v in Somes(os)
      {
        if x < |os| - 1 {
          assert init[x] == Some(v);
        }
      }
    }
  }

  /** The i-th kept value sits at the i-th kept position; the positions
      increase strictly, so the kept values keep the scan order. */
  lemma {:induction false} SomesOrdered<T>(os: seq<Option<T>>)
    ensures var vs, xs := Somes(os), SomeIndices(os);
      && |xs| == |vs|
      && (forall i :: 0 <= i < |xs| ==> xs[i] < |os| && os[xs[i]] == Some(vs[i]))
      && (forall i, j :: 0 <= i < j < |xs| ==> xs[i] < xs[j])
  {
    if os != [] {
      var init := os[..|os| - 1];
      SomesOrdered(init);
      var vs, xs := Somes(os), SomeIndices(os);
      var vs', xs' := Somes(init), SomeIndices(init);
      forall i | 0 <= i < |xs|
        ensures xs[i] < |os| && os[xs[i]] == Some(vs[i])
      {
        if i < |xs'| {
          assert xs[i] == xs'[i] && vs[i] == vs'[i] && init[xs'[i]] == os[xs'[i]];
        }
      }
    }
  }

  lemma AppendAssoc<T>(a: seq<T>, b: seq<T>, c: seq<T>)
    ensures a + b + c == a + (b + c)
  {
  }
}
